/** Children that read what they mean to read and exit: what a miss comes to with them, and
    that every evaluation can be carried out by one. */
module WellBehavedChildren {
  import opened Options
  import opened Paths
  import opened InputHash
  import opened Utf8Text
  import opened CacheDb
  import opened Evaluation
  import opened TraceeMemory
  import opened FileTracing
  import opened TracedProcess
  import opened PipeProtocol
  import opened EvalCache
  import opened CacheRuns

  /** Reads only files that are there, through descriptors it opened; gets only the signals
      the tracer passes on; exits by itself with its line delivered. */
  ghost predicate WellBehaved(s: Strategy, fs: FileSystem, child: Child, log: seq<Observation>, output: Option<Text>) {
    && Genuine(s, fs, child, log, output)
    && LastOf(child).parent.Finished? && child.ending.ExitGroup?
    && ReadsLive(child.inherited, child.events) && SignalsBenign(child.events)
    && (forall p | p in Reads(child.inherited, child.events) :: Probed(s, log, p) && Exists(fs, p))
  }

  // ---------- What a miss comes to ----------

  lemma WatchedFilesExist(site: Site, s: Strategy, fs: FileSystem, child: Child, log: seq<Observation>, output: Option<Text>, files: seq<Path>)
    requires WellBehaved(s, fs, child, log, output)
    ensures WatchChild(site.homeCacheDir, LifeSeen(child.events, child.ending)).Files?
    ensures Lists(files, WatchChild(site.homeCacheDir, LifeSeen(child.events, child.ending)).files) ==> HashOf(fs, files).Some?
  {
    WatchOfGoodLife(site.homeCacheDir, child.inherited, child.events, child.ending);
    InsertTrackedMeaning(site.homeCacheDir, {}, Reads(child.inherited, child.events));
    HashDefined(fs, files);
  }

  /** With a well-behaved child a miss returns the line of a fresh evaluation exactly when
      that line is not blank and no row of the key has the digest of the same inputs; only a
      blank line or that conflict make it fail. */
  lemma MissReturnsIff(site: Site, s: Strategy, fs: FileSystem, t: Table, file: Path, accessor: seq<string>, key: Key,
                       child: Child, log: seq<Observation>, output: Option<Text>, ids: seq<nat>, files: seq<Path>)
    requires KeyOf(site, fs, file, accessor) == Some(key) && Visits(t, key, ids) && Scan(fs, t, key, ids).None?
    requires WellBehaved(s, fs, child, log, output)
    requires WatchChild(site.homeCacheDir, LifeSeen(child.events, child.ending)).Files? ==>
               Lists(files, WatchChild(site.homeCacheDir, LifeSeen(child.events, child.ending)).files)
    ensures HashOf(fs, files).Some?
    ensures var r := Attempt(site, fs, t, file, accessor, LifeSeen(child.events, child.ending), LastOf(child).parent.line, ids, files, |files|).1;
            r == if Trim(Line(output)) != [] &&
                    !exists id: nat :: id < |t.outputs| && t.outputs[id].key == key && Some(t.outputs[id].inputHash) == HashOf(fs, files)
                 then Returned(Line(output)) else CallError
  {
    WatchedFilesExist(site, s, fs, child, log, output, files);
    StoredLine(child, s, fs, log, output);
  }

  // ---------- Every evaluation has such a child ----------

  /** Memory holding a path and a NUL, with room after it. */
  function MemoryOf(p: Path): Memory
    requires |p| + 16 <= USER_TOP
  {
    map a: nat | a < |p| + 16 :: if a < |p| then p[a] else 0
  }

  predicate Speakable(p: Path) {
    0 !in p && |p| + 16 <= USER_TOP
  }

  lemma {:induction false} CStringOfMemory(p: Path, at: nat)
    requires Speakable(p) && at <= |p|
    ensures CString(MemoryOf(p), at) == p[at..]
    decreases |p| - at
  {
    if at < |p| {
      CStringOfMemory(p, at + 1);
      assert p[at] in p;
      assert p[at..] == [p[at]] + p[at + 1..];
    }
  }

  lemma PathOfMemory(p: Path)
    requires Speakable(p)
    ensures PathAt(MemoryOf(p), 0) == p && CString(MemoryOf(p), 0) == p
  {
    CStringOfMemory(p, 0);
    assert LastWord(MemoryOf(p), 0) == |p| / 8 * 8;
  }

  const NOT_FOUND: nat := 0xFFFF_FFFF_FFFF_FFFE

  /** Open, read or list, close; or an open that fails. */
  function Calls(fs: FileSystem, a: Action): seq<Event>
    requires !a.Done? && Speakable(a.path)
  {
    var m := MemoryOf(a.path);
    if Exists(fs, a.path) then
      [Syscall(Call(2, 0, 0, m, 3)), Syscall(Call(if a.ReadDir? then 217 else 0, 3, 0, m, 0)), Syscall(Call(CLOSE, 3, 0, m, 0))]
    else [Syscall(Call(2, 0, 0, m, NOT_FOUND))]
  }

  const NO_DESCRIPTORS: Descriptors := map[]

  ghost predicate Orderly(d: Descriptors, events: seq<Event>) {
    Legal(d, events) && ReadsLive(d, events) && SignalsBenign(events)
  }

  lemma OrderlyCall(d: Descriptors, c: Call, rest: seq<Event>)
    requires KernelAllows(d, c) && (IsRead(c) || IsList(c) ==> c.rdi in d && d[c.rdi].Opened?)
    requires Orderly(KernelStep(d, c), rest)
    ensures Orderly(d, [Syscall(c)] + rest)
    ensures Reads(d, [Syscall(c)] + rest) == ReadBy(d, c) + Reads(KernelStep(d, c), rest)
  {
    assert ([Syscall(c)] + rest)[1..] == rest;
  }

  /** One action leaves no descriptor behind and reads its file if that is there. */
  lemma CallsOfAction(fs: FileSystem, a: Action, rest: seq<Event>)
    requires !a.Done? && Speakable(a.path) && Orderly(NO_DESCRIPTORS, rest)
    ensures Orderly(NO_DESCRIPTORS, Calls(fs, a) + rest)
    ensures Reads(NO_DESCRIPTORS, Calls(fs, a) + rest) ==
            (if Exists(fs, a.path) then [a.path] else []) + Reads(NO_DESCRIPTORS, rest)
  {
    PathOfMemory(a.path);
    var m := MemoryOf(a.path);
    if Exists(fs, a.path) {
      ReadingCalls(m, a.path, if a.ReadDir? then 217 else 0, rest);
    } else {
      OrderlyCall(NO_DESCRIPTORS, Call(2, 0, 0, m, NOT_FOUND), rest);
    }
  }

  lemma ReadingCalls(m: Memory, p: Path, nr: nat, rest: seq<Event>)
    requires PathAt(m, 0) == p && CString(m, 0) == p && (nr == 0 || nr == 217) && Orderly(NO_DESCRIPTORS, rest)
    ensures var events := [Syscall(Call(2, 0, 0, m, 3)), Syscall(Call(nr, 3, 0, m, 0)), Syscall(Call(CLOSE, 3, 0, m, 0))] + rest;
            Orderly(NO_DESCRIPTORS, events) && Reads(NO_DESCRIPTORS, events) == [p] + Reads(NO_DESCRIPTORS, rest)
  {
    var opens, looks, closes := Call(2, 0, 0, m, 3), Call(nr, 3, 0, m, 0), Call(CLOSE, 3, 0, m, 0);
    var d: Descriptors := map[3 := Opened(p)];
    assert KernelStep(NO_DESCRIPTORS, opens) == d && KernelStep(d, looks) == d && KernelStep(d, closes) == NO_DESCRIPTORS;
    OrderlyCall(d, closes, rest);
    OrderlyCall(d, looks, [Syscall(closes)] + rest);
    OrderlyCall(NO_DESCRIPTORS, opens, [Syscall(looks)] + ([Syscall(closes)] + rest));
    assert [Syscall(opens), Syscall(looks), Syscall(closes)] + rest ==
           [Syscall(opens)] + ([Syscall(looks)] + ([Syscall(closes)] + rest));
    assert ReadBy(d, closes) == [] && ReadBy(d, looks) == [p] && ReadBy(NO_DESCRIPTORS, opens) == [];
  }

  /** The paths read are those an evaluation finds from some point of its log on. */
  ghost predicate ReadsFrom(s: Strategy, fs: FileSystem, log: seq<Observation>, from: nat, events: seq<Event>)
    requires Follows(s, fs, log)
  {
    && (forall p | p in Reads(NO_DESCRIPTORS, events) :: Probed(s, log, p) && Exists(fs, p))
    && (forall i | from <= i < |log| && Exists(fs, s(log[..i]).path) :: s(log[..i]).path in Reads(NO_DESCRIPTORS, events))
  }

  lemma {:induction false} EventsFor(s: Strategy, fs: FileSystem, log: seq<Observation>, from: nat) returns (events: seq<Event>)
    requires Follows(s, fs, log) && from <= |log|
    requires forall p | Probed(s, log, p) :: Speakable(p)
    ensures Orderly(NO_DESCRIPTORS, events) && ReadsFrom(s, fs, log, from, events)
    decreases |log| - from
  {
    if from == |log| {
      events := [];
    } else {
      var rest := EventsFor(s, fs, log, from + 1);
      var a := s(log[..from]);
      assert Probed(s, log, a.path);
      CallsOfAction(fs, a, rest);
      events := Calls(fs, a) + rest;
      ReadsStep(s, fs, log, from, rest, events);
    }
  }

  lemma ReadsStep(s: Strategy, fs: FileSystem, log: seq<Observation>, from: nat, rest: seq<Event>, events: seq<Event>)
    requires Follows(s, fs, log) && from < |log| && ReadsFrom(s, fs, log, from + 1, rest)
    requires Probed(s, log, s(log[..from]).path)
    requires Reads(NO_DESCRIPTORS, events) ==
             (if Exists(fs, s(log[..from]).path) then [s(log[..from]).path] else []) + Reads(NO_DESCRIPTORS, rest)
    ensures ReadsFrom(s, fs, log, from, events)
  {
  }

  /** Every evaluation that comes to an end, over paths a process can name, has a child that
      carries it out under the tracer and gets its line to the parent, given a pipe that the
      answer fits into. */
  lemma WellBehavedChildExists(s: Strategy, fs: FileSystem, log: seq<Observation>, output: Option<Text>, capacity: nat) returns (child: Child)
    requires Evaluates(s, fs, log, output)
    requires forall p | Probed(s, log, p) :: Speakable(p)
    requires (if output.Some? then |output.value| else 0) + 1 <= capacity
    ensures WellBehaved(s, fs, child, log, output)
  {
    var events := EventsFor(s, fs, log, 0);
    var c := Config(capacity, |events|, output);
    MessageIs(c);
    var states := FinishedRunExists(c);
    child := Child(NO_DESCRIPTORS, events, ExitGroup(0), capacity, |events|, states);
    forall p | Probed(s, log, p) && Exists(fs, p) ensures p in Reads(NO_DESCRIPTORS, events) {
      var i :| 0 <= i < |log| && !s(log[..i]).Done? && s(log[..i]).path == p;
    }
    assert Run(c, true, states);
  }
}
