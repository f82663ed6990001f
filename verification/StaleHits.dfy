/** Runs in which a hit is wrong: that they exist, and exactly when. */
module StaleHits {
  import opened Options
  import opened Paths
  import opened InputHash
  import opened Utf8Text
  import opened AccessorKey
  import opened CacheDb
  import opened Evaluation
  import opened FileTracing
  import opened TracedProcess
  import opened PipeProtocol
  import opened EvalCache
  import opened CacheRuns
  import opened WellBehavedChildren

  // ---------- The first call of a run ----------

  /** What an evaluation looks at can be named by a process, and has one spelling each. */
  ghost predicate Nameable(s: Strategy, log: seq<Observation>) {
    && (forall p | Probed(s, log, p) :: Speakable(p))
    && (forall p, q | Probed(s, log, p) && Probed(s, log, q) && SamePath(p, q) :: p == q)
  }

  /** `files` lists the tracked files among what an evaluation looked at and found. */
  ghost predicate RecordsOf(site: Site, s: Strategy, fs: FileSystem, log: seq<Observation>, files: seq<Path>) {
    && (forall i, j | 0 <= i < j < |files| :: files[i] != files[j])
    && (forall p :: p in files <==> Probed(s, log, p) && Exists(fs, p) && ShouldTrack(site.homeCacheDir, p))
  }

  lemma InsertTrackedExact(homeCacheDir: Option<Path>, paths: seq<Path>, p: Path)
    requires Unambiguous(paths)
    ensures p in InsertTracked(homeCacheDir, {}, paths) <==> p in paths && ShouldTrack(homeCacheDir, p)
  {
    InsertTrackedMeaning(homeCacheDir, {}, paths);
    if p in paths && ShouldTrack(homeCacheDir, p) {
      var q :| q in InsertTracked(homeCacheDir, {}, paths) && SamePath(q, p);
      assert q in paths;
    }
  }

  lemma ReadsAreProbes(s: Strategy, fs: FileSystem, child: Child, log: seq<Observation>, output: Option<Text>)
    requires WellBehaved(s, fs, child, log, output) && Nameable(s, log)
    ensures Unambiguous(Reads(child.inherited, child.events))
    ensures forall p :: p in Reads(child.inherited, child.events) <==> Probed(s, log, p) && Exists(fs, p)
  {
    StoredLine(child, s, fs, log, output);
  }

  lemma TracedIsRecorded(site: Site, s: Strategy, fs: FileSystem, child: Child, log: seq<Observation>, output: Option<Text>, files: seq<Path>)
    requires WellBehaved(s, fs, child, log, output) && Nameable(s, log) && RecordsOf(site, s, fs, log, files)
    ensures Collects(site, LifeSeen(child.events, child.ending), files)
  {
    var paths := Reads(child.inherited, child.events);
    ReadsAreProbes(s, fs, child, log, output);
    WatchOfGoodLife(site.homeCacheDir, child.inherited, child.events, child.ending);
    forall p ensures p in files <==> p in InsertTracked(site.homeCacheDir, {}, paths) {
      InsertTrackedExact(site.homeCacheDir, paths, p);
    }
  }

  /** On empty tables an evaluation, carried out by a well-behaved child, stores its row. */
  lemma FirstCall(site: Site, o: Origin, key: Key) returns (w: World)
    requires KeyOf(site, o.fs, o.file, o.accessor) == Some(key) && Trim(Line(o.output)) != []
    requires var s := Evaluator(site, o);
             Evaluates(s, o.fs, o.log, o.output) && Nameable(s, o.log) && RecordsOf(site, s, o.fs, o.log, o.files)
    requires o.cut == |o.files|
    ensures StoresSome(site, World(o.fs, EMPTY_TABLE, []), w) && w.fs == o.fs && w.origins == [o]
    ensures Adds(o.fs, EMPTY_TABLE, key, [], o.files, |o.files|, Trim(Line(o.output)), w.table)
  {
    var s, w0 := Evaluator(site, o), World(o.fs, EMPTY_TABLE, []);
    var child := WellBehavedChildExists(s, o.fs, o.log, o.output, (if o.output.Some? then |o.output.value| else 0) + 1);
    var stops, line := LifeSeen(child.events, child.ending), LastOf(child).parent.line;
    TracedIsRecorded(site, s, o.fs, child, o.log, o.output, o.files);
    MissReturnsIff(site, s, o.fs, EMPTY_TABLE, o.file, o.accessor, key, child, o.log, o.output, [], o.files);
    StoredLine(child, s, o.fs, o.log, o.output);
    AfterMissAdds(o.fs, EMPTY_TABLE, key, WatchChild(site.homeCacheDir, stops), line, [], o.files, |o.files|);
    var m := Miss(o.program, o.file, o.accessor, child, o.log, o.output, [], o.files, |o.files|);
    w := World(o.fs, Attempt(site, o.fs, EMPTY_TABLE, o.file, o.accessor, stops, line, [], o.files, |o.files|).0, [o]);
    assert OriginOf(o.fs, m) == o && w0.origins + [o] == [o];
    assert Stores(site, w0, m, w);
  }

  /** A run of one complete store and one write after it. */
  ghost predicate StoredThenWritten(site: Site, o: Origin, now: FileSystem, ws: seq<World>) {
    && |ws| == 3 && RunOf(site, ws) && o.cut == |o.files|
    && ws[0].fs == o.fs && ws[1].origins == [o] && ws[1].fs == o.fs && ws[2] == ws[1].(fs := now)
  }

  /** Such a run for any evaluation that can be stored. */
  lemma RunStoring(site: Site, o: Origin, key: Key, now: FileSystem) returns (ws: seq<World>)
    requires KeyOf(site, o.fs, o.file, o.accessor) == Some(key) && Trim(Line(o.output)) != []
    requires var s := Evaluator(site, o);
             Evaluates(s, o.fs, o.log, o.output) && Nameable(s, o.log) && RecordsOf(site, s, o.fs, o.log, o.files)
    requires o.cut == |o.files|
    ensures StoredThenWritten(site, o, now, ws)
  {
    var w := FirstCall(site, o, key);
    ws := [World(o.fs, EMPTY_TABLE, []), w, w.(fs := now)];
    StoreIsStep(site, ws[0], w);
    WriteIsStep(site, w, now);
    TwoStepRun(site, ws[0], w, ws[2]);
  }

  lemma TwoStepRun(site: Site, w: World, w': World, w'': World)
    requires w.table == EMPTY_TABLE && w.origins == [] && Step(site, w, w') && Step(site, w', w'')
    ensures RunOf(site, [w, w', w''])
  {
    var ws := [w, w', w''];
    forall i | 0 < i < |ws| ensures Step(site, ws[i - 1], ws[i]) {
      assert ws[i - 1] == (if i == 1 then w else w') && ws[i] == (if i == 1 then w' else w'');
    }
  }

  lemma StoreIsStep(site: Site, w: World, w': World)
    requires StoresSome(site, w, w')
    ensures Step(site, w, w')
  {
  }

  lemma WriteIsStep(site: Site, w: World, now: FileSystem)
    ensures Step(site, w, w.(fs := now))
  {
  }

  /** What the next call with the key of such a run is answered. */
  lemma AnswerAfterWrite(site: Site, o: Origin, now: FileSystem, ws: seq<World>, key: Key)
    requires StoredThenWritten(site, o, now, ws) && KeyOf(site, o.fs, o.file, o.accessor) == Some(key)
    ensures Visits(ws[2].table, key, [0])
    ensures Scan(now, ws[2].table, key, [0]) ==
            if HashOf(now, o.files) == HashOf(o.fs, o.files) then Some(Trim(Line(o.output))) else None
  {
    RunsAreSane(site, ws);
    assert o.files[..o.cut] == o.files;
    assert ws[2].origins[0] == o;
    assert Justified(site, ws[2].table.outputs[0], InputsOf(ws[2].table.inputs, 0), o);
    assert [0][1..] == [];
  }

  // ---------- Stale after a write ----------

  lemma LetterLine(c: Byte)
    requires c == 65 || c == 66
    ensures Trim(Line(Some([c]))) == [c]
  {
    var line := [c] + [NEWLINE];
    assert line[1..] == [NEWLINE] && [NEWLINE][1..] == [];
    assert FirstLine([NEWLINE]) == [NEWLINE] && FirstLine(line) == line;
    assert SpaceAt(line) == 0 && SpaceBefore(line) == 1 && line[..1] == [c];
    assert SpaceBefore([c]) == 0 && TrimEnd([c]) == [c];
    assert TrimStart(line) == line && TrimEnd(line) == [c];
  }

  ghost predicate LooksAt(s: Strategy, log: seq<Observation>, probed: seq<Path>) {
    forall p :: Probed(s, log, p) <==> p in probed
  }

  /** A hit after a write that is wrong: the stored evaluation looked at exactly `probed`. */
  ghost predicate StaleHit(site: Site, stored: FileSystem, now: FileSystem, file: Path, accessor: seq<string>, key: Key,
                           probed: seq<Path>, o: Origin, ws: seq<World>) {
    && o.fs == stored && o.file == file && o.accessor == accessor
    && LooksAt(Evaluator(site, o), o.log, probed) && StoredThenWritten(site, o, now, ws)
    && Visits(ws[2].table, key, [0]) && Scan(now, ws[2].table, key, [0]).Some?
    && !IsFreshText(Evaluator(site, o), now, Scan(now, ws[2].table, key, [0]).value)
  }

  ghost predicate StaleHitPossible(site: Site, stored: FileSystem, now: FileSystem, file: Path, accessor: seq<string>, key: Key, probed: seq<Path>) {
    exists o, ws :: StaleHit(site, stored, now, file, accessor, key, probed, o, ws)
  }

  /** The origin of a row whose evaluation looks at `probed` one after the other and answers
      A when it sees what was stored and B otherwise. */
  function WitnessOrigin(stored: FileSystem, file: Path, accessor: seq<string>, probed: seq<Path>, files: seq<Path>): Origin {
    Origin(stored, (path, names) => Witness(stored, probed, [65], [66]), file, accessor,
           Sights(stored, stored, probed), Some([65]), files, |files|)
  }

  lemma WitnessGoesStale(stored: FileSystem, now: FileSystem, probed: seq<Path>, p: Path)
    requires p in probed && !AgreeAt(stored, now, p)
    ensures !IsFreshText(Witness(stored, probed, [65], [66]), now, [65])
  {
    if Sights(stored, now, probed) == Sights(stored, stored, probed) {
      SameSightsAgree(stored, now, probed);
    }
    WitnessEvaluates(stored, now, probed, [65], [66]);
    LetterLine(66);
    assert Evaluates(Witness(stored, probed, [65], [66]), now, Sights(stored, now, probed), Some([66]));
  }

  /** `files` lists the tracked ones among `probed` that are there. */
  ghost predicate Tracked(site: Site, fs: FileSystem, probed: seq<Path>, files: seq<Path>) {
    && (forall i, j | 0 <= i < j < |files| :: files[i] != files[j])
    && (forall p :: p in files <==> p in probed && Exists(fs, p) && ShouldTrack(site.homeCacheDir, p))
  }

  lemma WitnessRun(site: Site, stored: FileSystem, now: FileSystem, file: Path, accessor: seq<string>, key: Key, probed: seq<Path>, files: seq<Path>)
      returns (o: Origin, ws: seq<World>)
    requires KeyOf(site, stored, file, accessor) == Some(key) && Unambiguous(probed) && forall p | p in probed :: Speakable(p)
    requires Tracked(site, stored, probed, files)
    ensures o == WitnessOrigin(stored, file, accessor, probed, files)
    ensures LooksAt(Evaluator(site, o), o.log, probed) && StoredThenWritten(site, o, now, ws)
  {
    o := WitnessOrigin(stored, file, accessor, probed, files);
    WitnessEvaluates(stored, stored, probed, [65], [66]);
    LetterLine(65);
    assert Evaluator(site, o) == Witness(stored, probed, [65], [66]);
    ws := RunStoring(site, o, key, now);
  }

  /** Given a write that leaves the digest of what is recorded as it was, some evaluation of
      these paths is answered wrongly after it exactly when the write changed anything at
      one of them: a file that was missing, an untracked one, a kind, or the place where
      one file ends and the next begins. */
  lemma StaleHitIff(site: Site, stored: FileSystem, now: FileSystem, file: Path, accessor: seq<string>, key: Key, probed: seq<Path>, files: seq<Path>)
    requires KeyOf(site, stored, file, accessor) == Some(key) && KeyOf(site, now, file, accessor) == Some(key)
    requires Unambiguous(probed) && forall p | p in probed :: Speakable(p)
    requires Tracked(site, stored, probed, files) && HashOf(now, files) == HashOf(stored, files)
    ensures StaleHitPossible(site, stored, now, file, accessor, key, probed) <==> exists p :: p in probed && !AgreeAt(stored, now, p)
  {
    if p :| p in probed && !AgreeAt(stored, now, p) {
      var o, ws := WitnessRun(site, stored, now, file, accessor, key, probed, files);
      AnswerAfterWrite(site, o, now, ws, key);
      LetterLine(65);
      WitnessGoesStale(stored, now, probed, p);
      assert StaleHit(site, stored, now, file, accessor, key, probed, o, ws);
    }
    if StaleHitPossible(site, stored, now, file, accessor, key, probed) {
      var o, ws :| StaleHit(site, stored, now, file, accessor, key, probed, o, ws);
      StaleMeansChanged(site, stored, now, file, accessor, key, probed, o, ws);
    }
  }

  lemma StaleMeansChanged(site: Site, stored: FileSystem, now: FileSystem, file: Path, accessor: seq<string>, key: Key, probed: seq<Path>, o: Origin, ws: seq<World>)
    requires KeyOf(site, stored, file, accessor) == Some(key)
    requires StaleHit(site, stored, now, file, accessor, key, probed, o, ws)
    ensures exists p :: p in probed && !AgreeAt(stored, now, p)
  {
    AnswerAfterWrite(site, o, now, ws, key);
    if forall p | p in probed :: AgreeAt(stored, now, p) {
      RunsAreSane(site, ws);
      assert Justified(site, ws[2].table.outputs[0], InputsOf(ws[2].table.inputs, 0), o);
      TraceSufficiency(Evaluator(site, o), stored, now, o.log, o.output);
      OneAnswerIsFresh(Evaluator(site, o), now, o.log, o.output);
    }
  }

  lemma OneAnswerIsFresh(s: Strategy, fs: FileSystem, log: seq<Observation>, output: Option<Text>)
    requires Evaluates(s, fs, log, output)
    ensures forall text :: IsFreshText(s, fs, text) <==> text == Trim(Line(output))
  {
    forall log', output' | Evaluates(s, fs, log', output') ensures output' == output {
      EvaluationIsDeterministic(s, fs, log, output, log', output');
    }
  }

  // ---------- Rows shared by evaluators and by dotted names ----------

  /** The key has nothing of the evaluator and only the joined names, so a call with the key
      of another evaluator's or another accessor's row is answered from that row, rightly
      exactly when the two evaluations come to the same text. No write is needed. */
  lemma SharedKeySharesAnswer(site: Site, o: Origin, program: Program, file: Path, accessor: seq<string>, key: Key,
                              log: seq<Observation>, output: Option<Text>) returns (ws: seq<World>)
    requires KeyOf(site, o.fs, o.file, o.accessor) == Some(key) && KeyOf(site, o.fs, file, accessor) == Some(key)
    requires var s := Evaluator(site, o);
             Evaluates(s, o.fs, o.log, o.output) && Nameable(s, o.log) && RecordsOf(site, s, o.fs, o.log, o.files)
    requires o.cut == |o.files| && Trim(Line(o.output)) != []
    requires Evaluates(program(site.canonicalize(file), accessor), o.fs, log, output)
    ensures StoredThenWritten(site, o, o.fs, ws) && Visits(ws[2].table, key, [0])
    ensures var answer := Scan(o.fs, ws[2].table, key, [0]);
            && answer == Some(Trim(Line(o.output)))
            && (IsFreshText(program(site.canonicalize(file), accessor), o.fs, answer.value) <==>
                  Trim(Line(output)) == Trim(Line(o.output)))
  {
    ws := RunStoring(site, o, key, o.fs);
    AnswerAfterWrite(site, o, o.fs, ws, key);
    OneAnswerIsFresh(program(site.canonicalize(file), accessor), o.fs, log, output);
  }

  /** An evaluator that tells an attribute with a dot in its name from the path it looks
      like gives the one the other's text. */
  lemma DottedNameAnswered(site: Site, fs: FileSystem, file: Path, key: Key, a: string, b: string) returns (program: Program, ws: seq<World>)
    requires KeyOf(site, fs, file, [a, b]) == Some(key)
    ensures RunOf(site, ws) && ws[|ws| - 1].fs == fs && Visits(ws[|ws| - 1].table, key, [0]) && KeyOf(site, fs, file, [a + "." + b]) == Some(key)
    ensures forall o | o in ws[|ws| - 1].origins :: o.program == program
    ensures Scan(fs, ws[|ws| - 1].table, key, [0]) == Some([65])
    ensures IsFreshText(program(site.canonicalize(file), [a + "." + b]), fs, [66])
  {
    program := (path: Path, names: seq<string>) => ((log: seq<Observation>) => Done(Some(if names == [a, b] then [65] else [66])));
    DottedNameCollides(a, b);
    LetterLine(65);
    LetterLine(66);
    var o := Origin(fs, program, file, [a, b], [], Some([65]), [], 0);
    var other := program(site.canonicalize(file), [a + "." + b]);
    assert Evaluates(other, fs, [], Some([66]));
    ws := SharedKeySharesAnswer(site, o, program, file, [a + "." + b], key, [], Some([66]));
    OneAnswerIsFresh(other, fs, [], Some([66]));
  }
}
