/** Evaluation as the cache sees it: a process that looks at files one after the other, each
    choice depending on what it saw before, until it has an output or an error. */
module Evaluation {
  import opened Options
  import opened Paths
  import opened InputHash
  import opened PartialInputs
  import opened Utf8Text

  /** `Absent`: the open failed. `Refused`: a directory was read or a file was listed. */
  datatype Observation = Absent | Content(bytes: seq<Byte>) | Entries(entries: seq<Entry>) | Refused

  datatype Action = Done(output: Option<Text>) | ReadFile(path: Path) | ReadDir(path: Path)

  /** What is done next, given everything observed so far. */
  type Strategy = seq<Observation> -> Action

  function Observe(fs: FileSystem, a: Action): Observation
    requires !a.Done?
  {
    if !Exists(fs, a.path) then Absent
    else
      match NodeAt(fs, a.path)
      case File(content) => if a.ReadFile? then Content(content) else Refused
      case Dir(entries) => if a.ReadDir? then Entries(entries) else Refused
  }

  /** `log` is what an evaluation under way has observed. */
  ghost predicate Follows(s: Strategy, fs: FileSystem, log: seq<Observation>) {
    forall i | 0 <= i < |log| :: var a := s(log[..i]); !a.Done? && log[i] == Observe(fs, a)
  }

  ghost predicate Evaluates(s: Strategy, fs: FileSystem, log: seq<Observation>, output: Option<Text>) {
    Follows(s, fs, log) && s(log) == Done(output)
  }

  /** The paths an evaluation looked at. */
  ghost predicate Probed(s: Strategy, log: seq<Observation>, p: Path) {
    exists i :: 0 <= i < |log| && !s(log[..i]).Done? && s(log[..i]).path == p
  }

  lemma {:induction false} FollowsAgree(s: Strategy, fs: FileSystem, a: seq<Observation>, b: seq<Observation>, n: nat)
    requires Follows(s, fs, a) && Follows(s, fs, b) && n <= |a| && n <= |b|
    ensures a[..n] == b[..n]
  {
    if n > 0 {
      FollowsAgree(s, fs, a, b, n - 1);
      assert a[..n] == a[..n - 1] + [a[n - 1]] && b[..n] == b[..n - 1] + [b[n - 1]];
    }
  }

  lemma DoneIsLast(s: Strategy, fs: FileSystem, log: seq<Observation>, out: Option<Text>, other: seq<Observation>)
    requires Evaluates(s, fs, log, out) && Follows(s, fs, other)
    ensures |other| <= |log|
  {
    if |log| <= |other| {
      FollowsAgree(s, fs, log, other, |log|);
      assert log[..|log|] == log;
      assert s(other[..|log|]).Done?;
    }
  }

  /** On one file system an evaluation has one course and one outcome. */
  lemma EvaluationIsDeterministic(s: Strategy, fs: FileSystem, log: seq<Observation>, out: Option<Text>, log': seq<Observation>, out': Option<Text>)
    requires Evaluates(s, fs, log, out) && Evaluates(s, fs, log', out')
    ensures log == log' && out == out'
  {
    DoneIsLast(s, fs, log, out, log');
    DoneIsLast(s, fs, log', out', log);
    FollowsAgree(s, fs, log, log', |log|);
    assert log[..|log|] == log && log'[..|log'|] == log';
  }

  /** Both file systems have the same node at `p`, or neither has one. */
  ghost predicate AgreeAt(fs: FileSystem, fs': FileSystem, p: Path) {
    Exists(fs, p) == Exists(fs', p) && (Exists(fs, p) ==> NodeAt(fs, p) == NodeAt(fs', p))
  }

  /** It is enough to look at the paths of one evaluation to know every other file system on
      which it would go the same way: later paths depend on earlier contents only. */
  lemma TraceSufficiency(s: Strategy, fs: FileSystem, fs': FileSystem, log: seq<Observation>, out: Option<Text>)
    requires Evaluates(s, fs, log, out)
    requires forall p | Probed(s, log, p) :: AgreeAt(fs, fs', p)
    ensures Evaluates(s, fs', log, out)
  {
    forall i | 0 <= i < |log| ensures var a := s(log[..i]); !a.Done? && log[i] == Observe(fs', a) {
      var a := s(log[..i]);
      assert Probed(s, log, a.path);
    }
  }

  // ---------- How much a digest can vouch for ----------

  /** An evaluator that looks at each file in turn, the way that works for `fs`, and answers
      `same` exactly when it sees what is there in `fs`. */
  function Look(fs: FileSystem, p: Path): Action {
    if Exists(fs, p) && NodeAt(fs, p).Dir? then ReadDir(p) else ReadFile(p)
  }

  function Sights(fs: FileSystem, seen: FileSystem, files: seq<Path>): seq<Observation> {
    seq(|files|, i requires 0 <= i < |files| => Observe(seen, Look(fs, files[i])))
  }

  function Witness(fs: FileSystem, files: seq<Path>, same: Text, other: Text): Strategy {
    (log: seq<Observation>) =>
      if |log| < |files| then Look(fs, files[|log|])
      else if log == Sights(fs, fs, files) then Done(Some(same))
      else Done(Some(other))
  }

  lemma WitnessEvaluates(fs: FileSystem, seen: FileSystem, files: seq<Path>, same: Text, other: Text)
    ensures var log := Sights(fs, seen, files);
            Evaluates(Witness(fs, files, same, other), seen, log, Some(if log == Sights(fs, fs, files) then same else other))
    ensures forall p :: Probed(Witness(fs, files, same, other), Sights(fs, seen, files), p) <==> p in files
  {
    var s, log := Witness(fs, files, same, other), Sights(fs, seen, files);
    forall p ensures Probed(s, log, p) <==> p in files {
      if p in files {
        var i :| 0 <= i < |files| && files[i] == p;
        assert |log[..i]| == i && s(log[..i]).path == p;
      }
    }
  }

  /** Every evaluation of `fs` that looked at exactly these files goes the same way on `fs'`. */
  ghost predicate AlwaysFresh(fs: FileSystem, fs': FileSystem, files: seq<Path>) {
    forall s: Strategy, log, out | Evaluates(s, fs, log, out) && (forall p :: Probed(s, log, p) <==> p in files) ::
      Evaluates(s, fs', log, out)
  }

  lemma SightDecides(fs: FileSystem, fs': FileSystem, p: Path)
    ensures Observe(fs', Look(fs, p)) == Observe(fs, Look(fs, p)) <==> AgreeAt(fs, fs', p)
  {
  }

  lemma FreshWitnessSeesTheSame(fs: FileSystem, fs': FileSystem, files: seq<Path>)
    requires AlwaysFresh(fs, fs', files)
    ensures Sights(fs, fs', files) == Sights(fs, fs, files)
  {
    var s, log, log' := Witness(fs, files, [1], [2]), Sights(fs, fs, files), Sights(fs, fs', files);
    WitnessEvaluates(fs, fs, files, [1], [2]);
    WitnessEvaluates(fs, fs', files, [1], [2]);
    assert Evaluates(s, fs', log, Some([1]));
    EvaluationIsDeterministic(s, fs', log, Some([1]), log', Some(if log' == log then [1] else [2]));
  }

  lemma SameSightsAgree(fs: FileSystem, fs': FileSystem, files: seq<Path>)
    requires Sights(fs, fs', files) == Sights(fs, fs, files)
    ensures forall p | p in files :: AgreeAt(fs, fs', p)
  {
    forall p | p in files ensures AgreeAt(fs, fs', p) {
      var i :| 0 <= i < |files| && files[i] == p;
      assert Sights(fs, fs, files)[i] == Sights(fs, fs', files)[i];
      SightDecides(fs, fs', p);
    }
  }

  /** An evaluation's footprint is exactly what it depends on: all evaluators with these
      paths for a footprint go the same way on both file systems exactly when those agree at
      every path of it, missing ones included. */
  lemma FootprintIsExact(fs: FileSystem, fs': FileSystem, files: seq<Path>)
    ensures AlwaysFresh(fs, fs', files) <==> forall p | p in files :: AgreeAt(fs, fs', p)
  {
    if forall p | p in files :: AgreeAt(fs, fs', p) {
      forall s: Strategy, log, out | Evaluates(s, fs, log, out) && (forall p :: Probed(s, log, p) <==> p in files)
        ensures Evaluates(s, fs', log, out)
      {
        TraceSufficiency(s, fs, fs', log, out);
      }
    }
    if AlwaysFresh(fs, fs', files) {
      FreshWitnessSeesTheSame(fs, fs', files);
      SameSightsAgree(fs, fs', files);
    }
  }

  lemma AgreeingInputs(fs: FileSystem, fs': FileSystem, files: seq<Path>)
    requires AllExist(fs, files) && forall p | p in files :: AgreeAt(fs, fs', p)
    ensures AllExist(fs', files) && SameShapes(fs, fs', files)
  {
  }

  lemma MatchingInputs(fs: FileSystem, fs': FileSystem, recorded: seq<Path>, missing: seq<Path>)
    requires AllExist(fs, recorded + missing) && HashOf(fs', recorded) == HashOf(fs, recorded + missing)
    requires AllExist(fs', recorded + missing) && SameShapes(fs, fs', recorded + missing)
    ensures forall p | p in recorded + missing :: AgreeAt(fs, fs', p)
  {
    CutListUnchanged(fs, fs', recorded, missing);
  }

  /** What a matching digest is worth. A row was stored with the digest of its inputs
      `recorded + missing`, of which `missing` were never recorded; its evaluation looked at
      them and at `others`, absent or not tracked; the recorded ones match the digest now.
      Then the stored answers of all such evaluators are right exactly when every input is
      there with its kind, the kinds of its entries and the length of what it feeds, and the
      other paths are as they were. */
  lemma DigestVouchesIff(fs: FileSystem, fs': FileSystem, recorded: seq<Path>, missing: seq<Path>, others: seq<Path>)
    requires AllExist(fs, recorded + missing) && HashOf(fs', recorded) == HashOf(fs, recorded + missing)
    ensures AlwaysFresh(fs, fs', recorded + missing + others) <==>
            && AllExist(fs', recorded + missing) && SameShapes(fs, fs', recorded + missing)
            && forall p | p in others :: AgreeAt(fs, fs', p)
  {
    var files := recorded + missing;
    FootprintIsExact(fs, fs', files + others);
    assert forall p :: p in files + others <==> p in files || p in others;
    if AllExist(fs', files) && SameShapes(fs, fs', files) {
      MatchingInputs(fs, fs', recorded, missing);
    }
    if forall p | p in files :: AgreeAt(fs, fs', p) {
      AgreeingInputs(fs, fs', files);
    }
  }

  /** A failed open leaves no trace: an evaluator that only asks whether a file is there
      depends on it without any recorded input, and answers differently once it is. */
  lemma MissingFileUntraced(p: Path, without: FileSystem, with_: FileSystem)
    requires !Exists(without, p) && Exists(with_, p)
    ensures exists s: Strategy, log, log' ::
              && Evaluates(s, without, log, Some([1])) && Evaluates(s, with_, log', Some([2]))
              && (forall q | Probed(s, log, q) :: !Exists(without, q))
  {
    var s, log := Witness(without, [p], [1], [2]), Sights(without, without, [p]);
    var log' := Sights(without, with_, [p]);
    WitnessEvaluates(without, without, [p], [1], [2]);
    WitnessEvaluates(without, with_, [p], [1], [2]);
    assert log[0] == Absent && log'[0] != Absent;
    assert Evaluates(s, without, log, Some([1])) && Evaluates(s, with_, log', Some([2]));
    forall q | Probed(s, log, q) ensures !Exists(without, q) {
      assert q in [p];
    }
  }
}
