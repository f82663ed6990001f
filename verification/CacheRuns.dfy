/** Whole runs of the cache: file-system writes interleaved with calls, and what every
    answer in every run is worth. */
module CacheRuns {
  import opened Options
  import opened Paths
  import opened InputHash
  import opened PartialInputs
  import opened Utf8Text
  import opened AccessorKey
  import opened CacheDb
  import opened Evaluation
  import opened FileTracing
  import opened TracedProcess
  import opened PipeProtocol
  import opened EvalCache

  // ---------- Children ----------

  /** A child process: the descriptors it starts with, its life under the tracer, and the
      run of the pipe protocol it takes part in, `calls` being the system calls its
      evaluation makes. */
  datatype Child = Child(
    inherited: Descriptors,
    events: seq<Event>,
    ending: Ending,
    capacity: nat,
    calls: nat,
    states: seq<PipeProtocol.State>)

  function LastOf(child: Child): PipeProtocol.State
    requires child.states != []
  {
    child.states[|child.states| - 1]
  }

  /** The line a fresh call returns for an output. */
  function Line(output: Option<Text>): Text {
    FirstLine((if output.Some? then output.value else []) + [NEWLINE])
  }

  lemma LineOfOneLine(answer: Text)
    requires NEWLINE !in answer
    ensures Line(Some(answer)) == answer + [NEWLINE]
  {
    LineOfText(answer, []);
    assert answer + [NEWLINE] + [] == answer + [NEWLINE];
  }

  lemma BlankLine()
    ensures Trim(Line(None)) == []
  {
    LineOfOneLine([]);
    assert [] + [NEWLINE] == [NEWLINE];
    EncodeOne(10);
    AllSpaceTrimmed([10]);
  }

  lemma TrimOfLine(a: seq<Scalar>, core: seq<Scalar>, b: seq<Scalar>)
    requires AllWhiteSpace(a) && AllWhiteSpace(b) && Bare(core)
    ensures Trim(Encode(a + core + b) + [NEWLINE]) == Encode(core)
  {
    EncodeOne(10);
    EncodeAppend(a + core + b, [10]);
    assert a + core + b + [10] == a + core + (b + [10]);
    TrimOfPoints(a, core, b + [10]);
  }

  /** What is stored for an answer of one line, in characters: all of it but the white space
      at its ends. Nothing is stored for an evaluation that fails. */
  lemma StoredText(a: seq<Scalar>, core: seq<Scalar>, b: seq<Scalar>)
    requires AllWhiteSpace(a) && AllWhiteSpace(b) && Bare(core) && NEWLINE !in Encode(a + core + b)
    ensures Trim(Line(Some(Encode(a + core + b)))) == Encode(core)
    ensures Trim(Line(None)) == []
  {
    LineOfOneLine(Encode(a + core + b));
    TrimOfLine(a, core, b);
    BlankLine();
  }

  /** The child evaluates `s` on `fs`, as `log` tells, while the parent traces it: once its
      calls are made it has read every file the evaluation found. */
  ghost predicate Genuine(s: Strategy, fs: FileSystem, child: Child, log: seq<Observation>, output: Option<Text>) {
    && Evaluates(s, fs, log, output)
    && OnlyInherited(child.inherited) && Legal(child.inherited, child.events)
    && Run(Config(child.capacity, child.calls, output), true, child.states)
    && (LastOf(child).done == child.calls ==>
          forall p | Probed(s, log, p) && Exists(fs, p) :: p in Reads(child.inherited, child.events))
  }

  // ---------- Runs ----------

  /** An evaluator: its settings and lookup path are in it, the cache key has none of them. */
  type Program = (Path, seq<string>) -> Strategy

  /** Where a row comes from. Ghost to the source: the tables do not have it. */
  datatype Origin = Origin(
    fs: FileSystem,
    program: Program,
    file: Path,
    accessor: seq<string>,
    log: seq<Observation>,
    output: Option<Text>,
    files: seq<Path>,
    cut: nat)

  function Evaluator(site: Site, o: Origin): Strategy {
    o.program(site.canonicalize(o.file), o.accessor)
  }

  datatype World = World(fs: FileSystem, table: Table, origins: seq<Origin>)

  /** A call that stores a row, run to its end or cut off in the middle of its inserts. Each
      call may come from an evaluator of its own. */
  datatype Miss = Miss(
    program: Program,
    file: Path,
    accessor: seq<string>,
    child: Child,
    log: seq<Observation>,
    output: Option<Text>,
    ids: seq<nat>,
    files: seq<Path>,
    cut: nat)

  function OriginOf(fs: FileSystem, m: Miss): Origin {
    Origin(fs, m.program, m.file, m.accessor, m.log, m.output, m.files, m.cut)
  }

  ghost function StopsOf(m: Miss): seq<WaitStatus> {
    LifeSeen(m.child.events, m.child.ending)
  }

  /** The traced set, in the order it was walked. */
  ghost predicate Collects(site: Site, stops: seq<WaitStatus>, files: seq<Path>) {
    var watched := WatchChild(site.homeCacheDir, stops);
    watched.Files? && Lists(files, watched.files)
  }

  ghost predicate Stores(site: Site, w: World, m: Miss, w': World) {
    var key := KeyOf(site, w.fs, m.file, m.accessor);
    && key.Some? && Visits(w.table, key.value, m.ids) && Scan(w.fs, w.table, key.value, m.ids).None?
    && Genuine(Evaluator(site, OriginOf(w.fs, m)), w.fs, m.child, m.log, m.output)
    && LastOf(m.child).parent.Finished?
    && Collects(site, StopsOf(m), m.files) && m.cut <= |m.files|
    && var (t, r) := Attempt(site, w.fs, w.table, m.file, m.accessor, StopsOf(m), LastOf(m.child).parent.line, m.ids, m.files, m.cut);
       r.Returned? && w' == World(w.fs, t, w.origins + [OriginOf(w.fs, m)])
  }

  /** A write may change anything; a call stores a row or leaves the tables alone. */
  ghost predicate Step(site: Site, w: World, w': World) {
    w' == w.(fs := w'.fs) || StoresSome(site, w, w')
  }

  ghost predicate StoresSome(site: Site, w: World, w': World) {
    exists m :: Stores(site, w, m, w')
  }

  ghost predicate RunOf(site: Site, ws: seq<World>) {
    && ws != [] && ws[0].table == EMPTY_TABLE && ws[0].origins == []
    && forall i | 0 < i < |ws| :: Step(site, ws[i - 1], ws[i])
  }

  // ---------- The table invariant ----------

  /** Every tracked file the evaluation found is among `files`. */
  ghost predicate TracksAll(site: Site, o: Origin, files: seq<Path>) {
    forall p | Probed(Evaluator(site, o), o.log, p) && Exists(o.fs, p) && ShouldTrack(site.homeCacheDir, p) ::
      exists q :: q in files && SamePath(q, p)
  }

  /** No path is listed twice, under whatever spellings. */
  ghost predicate NoTwins(files: seq<Path>) {
    forall i, j | 0 <= i < j < |files| :: !SamePath(files[i], files[j])
  }

  ghost predicate Justified(site: Site, row: OutputRow, recorded: seq<Path>, o: Origin) {
    && KeyOf(site, o.fs, o.file, o.accessor) == Some(row.key)
    && Evaluates(Evaluator(site, o), o.fs, o.log, o.output)
    && o.cut <= |o.files| && recorded == o.files[..o.cut] && NoTwins(o.files)
    && HashOf(o.fs, o.files) == Some(row.inputHash)
    && TracksAll(site, o, o.files)
    && row.output == Trim(Line(o.output))
  }

  /** Every row is the product of an evaluation on some earlier file system. */
  ghost predicate Sane(site: Site, w: World) {
    && |w.origins| == |w.table.outputs| && ForeignKeys(w.table)
    && forall id: nat | id < |w.origins| ::
         Justified(site, w.table.outputs[id], InputsOf(w.table.inputs, id), w.origins[id])
  }

  lemma StoredLine(child: Child, s: Strategy, fs: FileSystem, log: seq<Observation>, output: Option<Text>)
    requires Genuine(s, fs, child, log, output) && LastOf(child).parent.Finished?
    ensures LastOf(child).parent.line == Line(output)
    ensures forall p | Probed(s, log, p) && Exists(fs, p) :: p in Reads(child.inherited, child.events)
  {
    var c := Config(child.capacity, child.calls, output);
    FinishedIsComplete(c, true, child.states);
    MessageIs(c);
  }

  /** What storing does to the tables. */
  lemma StoreAdds(site: Site, w: World, m: Miss, w': World, key: Key)
    requires Stores(site, w, m, w') && KeyOf(site, w.fs, m.file, m.accessor) == Some(key)
    ensures Adds(w.fs, w.table, key, m.ids, m.files, m.cut, Trim(LastOf(m.child).parent.line), w'.table)
  {
    AfterMissAdds(w.fs, w.table, key, WatchChild(site.homeCacheDir, StopsOf(m)), LastOf(m.child).parent.line, m.ids, m.files, m.cut);
  }

  /** The stored inputs leave out no tracked file that the evaluation found. */
  lemma CollectedTracksAll(site: Site, child: Child, o: Origin, files: seq<Path>)
    requires Genuine(Evaluator(site, o), o.fs, child, o.log, o.output) && LastOf(child).parent.Finished?
    requires Collects(site, LifeSeen(child.events, child.ending), files)
    ensures TracksAll(site, o, files)
  {
    var s := Evaluator(site, o);
    var watched := WatchChild(site.homeCacheDir, LifeSeen(child.events, child.ending)).files;
    StoredLine(child, s, o.fs, o.log, o.output);
    WatchIsComplete(site.homeCacheDir, child.inherited, child.events, child.ending);
    forall p | Probed(s, o.log, p) && Exists(o.fs, p) && ShouldTrack(site.homeCacheDir, p)
      ensures exists q :: q in files && SamePath(q, p)
    {
      assert Covered(watched, p);
      var q :| q in watched && SamePath(q, p);
      assert q in files;
    }
  }

  lemma CollectedHasNoTwins(site: Site, child: Child, files: seq<Path>)
    requires Collects(site, LifeSeen(child.events, child.ending), files)
    ensures NoTwins(files)
  {
    WatchIsDistinct(site.homeCacheDir, child.events, child.ending);
    forall i, j | 0 <= i < j < |files| ensures !SamePath(files[i], files[j]) {
      assert files[i] in files && files[j] in files;
    }
  }

  lemma AddedRowJustified(site: Site, key: Key, child: Child, o: Origin, inputHash: Digest)
    requires KeyOf(site, o.fs, o.file, o.accessor) == Some(key)
    requires Genuine(Evaluator(site, o), o.fs, child, o.log, o.output) && LastOf(child).parent.Finished?
    requires Collects(site, LifeSeen(child.events, child.ending), o.files)
    requires o.cut <= |o.files| && HashOf(o.fs, o.files) == Some(inputHash)
    ensures Justified(site, OutputRow(key, inputHash, Trim(LastOf(child).parent.line)), o.files[..o.cut], o)
  {
    StoredLine(child, Evaluator(site, o), o.fs, o.log, o.output);
    CollectedTracksAll(site, child, o, o.files);
    CollectedHasNoTwins(site, child, o.files);
  }

  lemma SaneStep(site: Site, w: World, row: OutputRow, o: Origin, w': World)
    requires Sane(site, w) && o.cut <= |o.files| && Justified(site, row, o.files[..o.cut], o)
    requires w'.table == WithRow(w.table, row, o.files[..o.cut]) && w'.origins == w.origins + [o]
    ensures Sane(site, w')
  {
    var n := |w.table.outputs|;
    WithRowInputs(w.table, row, o.files[..o.cut], n);
    forall id: nat | id < |w'.origins|
      ensures Justified(site, w'.table.outputs[id], InputsOf(w'.table.inputs, id), w'.origins[id])
    {
      WithRowInputs(w.table, row, o.files[..o.cut], id);
    }
  }

  lemma StoreKeepsSane(site: Site, w: World, m: Miss, w': World)
    requires Sane(site, w) && Stores(site, w, m, w')
    ensures Sane(site, w')
  {
    var key := KeyOf(site, w.fs, m.file, m.accessor).value;
    StoreAdds(site, w, m, w', key);
    var inputHash := HashOf(w.fs, m.files).value;
    AddedRowJustified(site, key, m.child, OriginOf(w.fs, m), inputHash);
    SaneStep(site, w, OutputRow(key, inputHash, Trim(LastOf(m.child).parent.line)), OriginOf(w.fs, m), w');
  }

  lemma StepKeepsSane(site: Site, w: World, w': World)
    requires Sane(site, w) && Step(site, w, w')
    ensures Sane(site, w')
  {
    if StoresSome(site, w, w') {
      var m :| Stores(site, w, m, w');
      StoreKeepsSane(site, w, m, w');
    }
  }

  lemma {:induction false} RunsAreSane(site: Site, ws: seq<World>)
    requires RunOf(site, ws)
    ensures Sane(site, ws[|ws| - 1])
    decreases |ws|
  {
    var n := |ws| - 1;
    if n > 0 {
      RunsAreSane(site, ws[..n]);
      StepKeepsSane(site, ws[n - 1], ws[n]);
    }
  }

  // ---------- When a row may be trusted ----------

  /** What must not have happened since a row was stored, input by input: no tracked input
      changed its kind, the kinds of its entries or the length of what it feeds (deleting
      one is noticed, unless the row was cut short before recording it), no file that was
      missing has appeared, and nothing untracked has changed. */
  ghost predicate Undisturbed(site: Site, o: Origin, fs: FileSystem) {
    InputsKept(o, fs) && OthersKept(site, o, fs)
  }

  ghost predicate InputsKept(o: Origin, fs: FileSystem) {
    && (forall q | q in o.files && Exists(o.fs, q) && Exists(fs, q) :: SameShape(q, NodeAt(o.fs, q), NodeAt(fs, q)))
    && (o.cut < |o.files| ==> AllExist(fs, o.files))
  }

  ghost predicate OthersKept(site: Site, o: Origin, fs: FileSystem) {
    forall p | Probed(Evaluator(site, o), o.log, p) ::
      if Exists(o.fs, p) then ShouldTrack(site.homeCacheDir, p) || AgreeAt(o.fs, fs, p) else !Exists(fs, p)
  }

  lemma HittingInputsExist(stored: FileSystem, now: FileSystem, files: seq<Path>, cut: nat, inputHash: Digest)
    requires cut <= |files| && HashOf(stored, files) == Some(inputHash) && HashOf(now, files[..cut]) == Some(inputHash)
    requires cut < |files| ==> AllExist(now, files)
    ensures AllExist(stored, files) && AllExist(now, files)
  {
    HashDefined(stored, files);
    HashDefined(now, files[..cut]);
    if cut == |files| {
      assert files[..cut] == files;
    }
  }

  /** All the stored evaluation looked at is as it was. */
  ghost predicate ProbesAsStored(site: Site, o: Origin, fs: FileSystem) {
    forall p | Probed(Evaluator(site, o), o.log, p) :: AgreeAt(o.fs, fs, p)
  }

  /** All that was traced for it is. */
  ghost predicate FilesAsStored(o: Origin, fs: FileSystem) {
    forall q | q in o.files :: AgreeAt(o.fs, fs, q)
  }

  /** On an undisturbed file system a row that hits has its whole footprint unchanged. */
  lemma HittingFootprintUnchanged(site: Site, row: OutputRow, recorded: seq<Path>, o: Origin, fs: FileSystem)
    requires Justified(site, row, recorded, o) && Undisturbed(site, o, fs)
    requires HashOf(fs, recorded) == Some(row.inputHash)
    ensures ProbesAsStored(site, o, fs) && FilesAsStored(o, fs)
  {
    HittingInputsExist(o.fs, fs, o.files, o.cut, row.inputHash);
    ShapesKept(o, fs);
    HittingFilesUnchanged(o, fs);
    TrackedProbesUnchanged(site, o, fs);
  }

  lemma HittingFilesUnchanged(o: Origin, fs: FileSystem)
    requires o.cut <= |o.files| && HashOf(fs, o.files[..o.cut]) == HashOf(o.fs, o.files)
    requires AllExist(o.fs, o.files) && AllExist(fs, o.files) && SameShapes(o.fs, fs, o.files)
    ensures FilesAsStored(o, fs)
  {
    HalvesJoin(o.files, o.cut);
    CutFilesUnchanged(o, fs, o.files[..o.cut], o.files[o.cut..]);
  }

  lemma HalvesJoin(files: seq<Path>, cut: nat)
    requires cut <= |files|
    ensures files == files[..cut] + files[cut..]
  {
  }

  lemma ShapesKept(o: Origin, fs: FileSystem)
    requires AllExist(o.fs, o.files) && AllExist(fs, o.files) && InputsKept(o, fs)
    ensures SameShapes(o.fs, fs, o.files)
  {
  }

  lemma CutFilesUnchanged(o: Origin, fs: FileSystem, recorded: seq<Path>, missing: seq<Path>)
    requires o.files == recorded + missing && HashOf(fs, recorded) == HashOf(o.fs, o.files)
    requires AllExist(o.fs, o.files) && AllExist(fs, o.files) && SameShapes(o.fs, fs, o.files)
    ensures FilesAsStored(o, fs)
  {
    CutListUnchanged(o.fs, fs, recorded, missing);
  }

  lemma TrackedProbesUnchanged(site: Site, o: Origin, fs: FileSystem)
    requires TracksAll(site, o, o.files) && OthersKept(site, o, fs) && FilesAsStored(o, fs)
    ensures ProbesAsStored(site, o, fs)
  {
    forall p | Probed(Evaluator(site, o), o.log, p) ensures AgreeAt(o.fs, fs, p) {
      if Exists(o.fs, p) && ShouldTrack(site.homeCacheDir, p) {
        var q :| q in o.files && SamePath(q, p);
        assert AgreeAt(o.fs, fs, q);
      }
    }
  }

  /** Undisturbed is exact: for a row that hits it says no less and no more than that what
      its evaluation looked at, and what was traced for it, is as it was. */
  lemma UndisturbedIff(site: Site, row: OutputRow, recorded: seq<Path>, o: Origin, fs: FileSystem)
    requires Justified(site, row, recorded, o) && HashOf(fs, recorded) == Some(row.inputHash)
    ensures Undisturbed(site, o, fs) <==> ProbesAsStored(site, o, fs) && FilesAsStored(o, fs)
  {
    HashDefined(o.fs, o.files);
    if Undisturbed(site, o, fs) {
      HittingFootprintUnchanged(site, row, recorded, o, fs);
    }
    if ProbesAsStored(site, o, fs) && FilesAsStored(o, fs) {
      UnchangedIsUndisturbed(site, o, fs);
    }
  }

  lemma UnchangedIsUndisturbed(site: Site, o: Origin, fs: FileSystem)
    requires AllExist(o.fs, o.files) && ProbesAsStored(site, o, fs) && FilesAsStored(o, fs)
    ensures Undisturbed(site, o, fs)
  {
  }

  /** A row that hits on an undisturbed file system speaks for a fresh evaluation of it. */
  lemma HittingRowIsFresh(site: Site, row: OutputRow, recorded: seq<Path>, o: Origin, fs: FileSystem)
    requires Justified(site, row, recorded, o) && Undisturbed(site, o, fs)
    requires HashOf(fs, recorded) == Some(row.inputHash)
    ensures Evaluates(Evaluator(site, o), fs, o.log, o.output)
  {
    HittingFootprintUnchanged(site, row, recorded, o, fs);
    TraceSufficiency(Evaluator(site, o), o.fs, fs, o.log, o.output);
  }

  // ---------- Main theorems ----------

  ghost predicate SameStrategy(s: Strategy, s': Strategy) {
    forall log :: s(log) == s'(log)
  }

  /** The hypotheses of a lookup: every row that hits was stored by an evaluation of the same
      strategy and is undisturbed since. */
  ghost predicate Trustworthy(site: Site, w: World, key: Key, s: Strategy)
    requires |w.origins| == |w.table.outputs|
  {
    forall id: nat | id < |w.origins| && RowHits(w.fs, w.table, key, id) ::
      SameStrategy(Evaluator(site, w.origins[id]), s) && Undisturbed(site, w.origins[id], w.fs)
  }

  /** Rows with the same key come from the same strategy if they come from the same evaluator
      and their names are free of dots. */
  lemma SameKeySameStrategy(site: Site, o: Origin, program: Program, fs: FileSystem, file: Path, accessor: seq<string>)
    requires KeyOf(site, o.fs, o.file, o.accessor).Some?
    requires KeyOf(site, o.fs, o.file, o.accessor) == KeyOf(site, fs, file, accessor)
    requires o.program == program && Plain(o.accessor) && Plain(accessor)
    ensures SameStrategy(Evaluator(site, o), program(site.canonicalize(file), accessor))
  {
    JoinIsInjective(o.accessor, accessor);
  }

  /** The trimmed text is what a fresh evaluation would come to, and nothing else is. */
  ghost predicate IsFreshText(s: Strategy, fs: FileSystem, text: Text) {
    && (exists log, output :: Evaluates(s, fs, log, output) && text == Trim(Line(output)))
    && (forall log, output | Evaluates(s, fs, log, output) :: text == Trim(Line(output)))
  }

  lemma HitIsFresh(site: Site, w: World, s: Strategy, key: Key, id: nat)
    requires Sane(site, w) && Trustworthy(site, w, key, s)
    requires id < |w.table.outputs| && RowHits(w.fs, w.table, key, id)
    ensures IsFreshText(s, w.fs, w.table.outputs[id].output)
  {
    var o := w.origins[id];
    HittingRowIsFresh(site, w.table.outputs[id], InputsOf(w.table.inputs, id), o, w.fs);
    assert Evaluates(s, w.fs, o.log, o.output);
    forall log, output | Evaluates(s, w.fs, log, output) ensures w.table.outputs[id].output == Trim(Line(output)) {
      EvaluationIsDeterministic(s, w.fs, o.log, o.output, log, output);
    }
  }

  /** Whatever happened in between, a row that hits was stored when the main file led to the
      same place and had the content it has now. */
  lemma HitMeansSameMainFile(site: Site, ws: seq<World>, file: Path, accessor: seq<string>, key: Key, id: nat)
    requires RunOf(site, ws)
    requires var w := ws[|ws| - 1];
             && KeyOf(site, w.fs, file, accessor) == Some(key)
             && id < |w.table.outputs| && RowHits(w.fs, w.table, key, id)
    ensures var w := ws[|ws| - 1];
            && id < |w.origins|
            && site.canonicalize(w.origins[id].file) == site.canonicalize(file)
            && Exists(w.origins[id].fs, w.origins[id].file) && Exists(w.fs, file)
            && NodeAt(w.origins[id].fs, w.origins[id].file) == NodeAt(w.fs, file)
  {
    RunsAreSane(site, ws);
  }

  /** Cache transparency. In every run from an empty cache, with any writes, any calls of any
      evaluators and any interrupted insertions before, every hit returns exactly the trimmed
      line that evaluating the file and accessor afresh on the current file system would
      give. */
  lemma CacheTransparency(site: Site, ws: seq<World>, program: Program, file: Path, accessor: seq<string>, key: Key, ids: seq<nat>, text: Text)
    requires RunOf(site, ws)
    requires var w := ws[|ws| - 1];
             && |w.origins| == |w.table.outputs| && KeyOf(site, w.fs, file, accessor) == Some(key)
             && Trustworthy(site, w, key, program(site.canonicalize(file), accessor))
             && Visits(w.table, key, ids) && Scan(w.fs, w.table, key, ids) == Some(text)
    ensures IsFreshText(program(site.canonicalize(file), accessor), ws[|ws| - 1].fs, text)
  {
    var w := ws[|ws| - 1];
    RunsAreSane(site, ws);
    ScanMeaning(w.fs, w.table, key, ids);
    var id :| id in ids && RowHits(w.fs, w.table, key, id) && text == w.table.outputs[id].output;
    HitIsFresh(site, w, program(site.canonicalize(file), accessor), key, id);
  }

  /** Any two rows that hit hold the same output, so the answer does not depend on the order
      in which SQL returns the rows. */
  lemma RowOrderIndependence(site: Site, ws: seq<World>, s: Strategy, key: Key, ids: seq<nat>, other: seq<nat>)
    requires RunOf(site, ws)
    requires var w := ws[|ws| - 1];
             && |w.origins| == |w.table.outputs| && Trustworthy(site, w, key, s)
             && Visits(w.table, key, ids) && Visits(w.table, key, other)
    ensures var w := ws[|ws| - 1]; Scan(w.fs, w.table, key, ids) == Scan(w.fs, w.table, key, other)
  {
    var w := ws[|ws| - 1];
    RunsAreSane(site, ws);
    forall i: nat, j: nat | i < |w.table.outputs| && j < |w.table.outputs| && RowHits(w.fs, w.table, key, i) && RowHits(w.fs, w.table, key, j)
      ensures w.table.outputs[i].output == w.table.outputs[j].output
    {
      HitIsFresh(site, w, s, key, i);
      HitIsFresh(site, w, s, key, j);
      var log, output :| Evaluates(s, w.fs, log, output) && w.table.outputs[i].output == Trim(Line(output));
    }
    ScanIsOrderFree(w.fs, w.table, key, ids, other);
  }

  /** After a miss that ran to its end, the next call on the same files hits and returns the
      first answer, trimmed: whatever other rows there are, and whichever way its argument
      leads to the main file. */
  lemma HitAfterMiss(site: Site, w: World, m: Miss, w': World, key: Key, file: Path, ids: seq<nat>,
                     stops: seq<WaitStatus>, line: Text, files: seq<Path>, cut: nat)
    requires ForeignKeys(w.table) && Stores(site, w, m, w') && m.cut == |m.files|
    requires KeyOf(site, w.fs, m.file, m.accessor) == Some(key) && Visits(w'.table, key, ids) && cut <= |files|
    requires site.canonicalize(file) == site.canonicalize(m.file) && Exists(w.fs, file) && NodeAt(w.fs, file) == NodeAt(w.fs, m.file)
    ensures Scan(w.fs, w'.table, key, ids) == Some(Trim(LastOf(m.child).parent.line))
    ensures Attempt(site, w.fs, w'.table, file, m.accessor, stops, line, ids, files, cut) ==
            (w'.table, Returned(Trim(LastOf(m.child).parent.line)))
  {
    StoreAdds(site, w, m, w', key);
    assert m.files[..m.cut] == m.files;
    AddedRowAnswers(w.fs, w.table, key, m.ids, m.files, m.cut, Trim(LastOf(m.child).parent.line), w'.table, ids);
  }

  // ---------- Interrupted insertions ----------

  lemma CutListMisses(stored: FileSystem, now: FileSystem, files: seq<Path>, cut: nat, p: Path)
    requires cut <= |files| && HashOf(stored, files).Some?
    requires forall q | q in files[..cut] :: |Fed(stored, q)| == |Fed(now, q)|
    requires p in files[cut..] && Fed(stored, p) != []
    ensures HashOf(now, files[..cut]) != HashOf(stored, files)
  {
    HalvesJoin(files, cut);
    PartialListMisses(stored, now, files[..cut], files[cut..], p);
  }

  /** Crash safety: in every run, a row whose insertion was cut off cannot hit while the
      inputs recorded for it keep their lengths, if one of those missing fed anything. */
  lemma CutRowCannotHit(site: Site, ws: seq<World>, id: nat, p: Path)
    requires RunOf(site, ws) && id < |ws[|ws| - 1].origins| && ws[|ws| - 1].origins[id].cut <= |ws[|ws| - 1].origins[id].files|
    requires var o := ws[|ws| - 1].origins[id];
             && (forall q | q in o.files[..o.cut] :: |Fed(o.fs, q)| == |Fed(ws[|ws| - 1].fs, q)|)
             && p in o.files[o.cut..] && Fed(o.fs, p) != []
    ensures var w := ws[|ws| - 1];
            id < |w.table.outputs| && !RowHits(w.fs, w.table, w.table.outputs[id].key, id)
  {
    RunsAreSane(site, ws);
    var w := ws[|ws| - 1];
    var o := w.origins[id];
    CutListMisses(o.fs, w.fs, o.files, o.cut, p);
  }

  ghost predicate AllEmpty(fs: FileSystem, files: seq<Path>) {
    forall p | p in files :: Fed(fs, p) == []
  }

  lemma {:induction false} SameFeedSameStream(fs: FileSystem, fs': FileSystem, files: seq<Path>)
    requires forall p | p in files :: AgreeAt(fs, fs', p)
    ensures Stream(fs, files) == Stream(fs', files)
  {
    if files != [] {
      assert files[0] in files;
      SameFeedSameStream(fs, fs', files[1..]);
    }
  }

  lemma AgreeingFilesSameHash(fs: FileSystem, fs': FileSystem, files: seq<Path>)
    requires forall p | p in files :: AgreeAt(fs, fs', p)
    ensures HashOf(fs, files) == HashOf(fs', files)
  {
    forall p | p in SortPaths(files) ensures AgreeAt(fs, fs', p) { SortMembers(files, p); }
    SameFeedSameStream(fs, fs', SortPaths(files));
  }

  lemma CutListHitsIff(stored: FileSystem, now: FileSystem, files: seq<Path>, cut: nat)
    requires cut <= |files| && HashOf(stored, files).Some?
    requires forall p | p in files :: AgreeAt(stored, now, p)
    ensures HashOf(now, files[..cut]) == HashOf(stored, files) <==> AllEmpty(now, files[cut..])
  {
    AgreeingFilesSameHash(stored, now, files);
    if AllEmpty(now, files[cut..]) {
      HashDefined(now, files);
      HalvesJoin(files, cut);
      EmptyInputsInvisible(now, files[..cut], files[cut..]);
    } else {
      var p :| p in files[cut..] && Fed(now, p) != [];
      SameFed(stored, now, files);
      CutListMisses(stored, now, files, cut, p);
    }
  }

  lemma SameFed(stored: FileSystem, now: FileSystem, files: seq<Path>)
    requires forall p | p in files :: AgreeAt(stored, now, p)
    ensures forall p | p in files :: Fed(stored, p) == Fed(now, p)
  {
  }

  /** With the files as they were, a cut row hits exactly when all it lacks is empty. */
  lemma CutRowHitsIff(site: Site, ws: seq<World>, id: nat)
    requires RunOf(site, ws) && id < |ws[|ws| - 1].origins|
    requires FilesAsStored(ws[|ws| - 1].origins[id], ws[|ws| - 1].fs)
    ensures var w := ws[|ws| - 1]; var o := w.origins[id];
            && id < |w.table.outputs| && o.cut <= |o.files|
            && (RowHits(w.fs, w.table, w.table.outputs[id].key, id) <==> AllEmpty(w.fs, o.files[o.cut..]))
  {
    RunsAreSane(site, ws);
    var w := ws[|ws| - 1];
    var o := w.origins[id];
    CutListHitsIff(o.fs, w.fs, o.files, o.cut);
  }

  lemma BlockedAttempt(site: Site, fs: FileSystem, t: Table, file: Path, accessor: seq<string>, key: Key,
                       stops: seq<WaitStatus>, line: Text, ids: seq<nat>, files: seq<Path>)
    requires Ids(t, ids) && KeyOf(site, fs, file, accessor) == Some(key)
    requires WatchChild(site.homeCacheDir, stops).Files?
    requires HashOf(fs, files).Some? && Conflicts(t, key, HashOf(fs, files).value)
    ensures Attempt(site, fs, t, file, accessor, stops, line, ids, files, |files|) ==
            (t, if Scan(fs, t, key, ids).Some? then Returned(Scan(fs, t, key, ids).value) else CallError)
  {
  }

  lemma {:induction false} ListedMultiset(files: seq<Path>, s: set<Path>)
    requires Lists(files, s)
    ensures multiset(files) == multiset(s)
  {
    if files == [] {
      assert s == {};
    } else {
      var p, rest := files[0], files[1..];
      assert files == [p] + rest;
      forall q ensures q in rest <==> q in s - {p} {
        if q in rest { var i :| 0 <= i < |rest| && rest[i] == q; assert files[i + 1] == q; }
      }
      ListedMultiset(rest, s - {p});
      assert s == {p} + (s - {p});
    }
  }

  /** Two walks over one set of paths have the same digest. */
  lemma SameSetSameHash(fs: FileSystem, files: seq<Path>, other: seq<Path>, s: set<Path>)
    requires NoTwins(files) && Lists(files, s) && Lists(other, s)
    ensures HashOf(fs, other) == HashOf(fs, files)
  {
    ListedMultiset(files, s);
    ListedMultiset(other, s);
    forall p, q | p in files && q in files && SamePath(p, q) ensures p == q {
      var i :| 0 <= i < |files| && files[i] == p;
      var j :| 0 <= j < |files| && files[j] == q;
    }
    HashIsOrderFree(fs, files, other);
  }

  lemma NoTwinsListed(files: seq<Path>, other: seq<Path>, s: set<Path>)
    requires NoTwins(files) && Lists(other, s) && forall p :: p in other <==> p in files
    ensures Lists(files, s)
  {
    forall i, j | 0 <= i < j < |files| ensures files[i] != files[j] {
      assert !SamePath(files[i], files[j]);
    }
  }

  /** Safe but not live. As long as a cut row is in the table and its files are as they were,
      no call that traces the same set ever stores anything, however it gets its row order,
      its line and its walk: it returns what some row holds, or fails on the uniqueness
      constraint. It fails exactly when the cut row lacks an input that is not empty and no
      other row hits. */
  lemma CutRowWedgesKey(site: Site, ws: seq<World>, id: nat, file: Path, accessor: seq<string>, ids: seq<nat>,
                        stops: seq<WaitStatus>, line: Text, files: seq<Path>)
    requires RunOf(site, ws) && id < |ws[|ws| - 1].origins| && id < |ws[|ws| - 1].table.outputs|
    requires FilesAsStored(ws[|ws| - 1].origins[id], ws[|ws| - 1].fs)
    requires var w := ws[|ws| - 1];
             && KeyOf(site, w.fs, file, accessor) == Some(w.table.outputs[id].key)
             && Visits(w.table, w.table.outputs[id].key, ids)
             && Collects(site, stops, files) && (forall p :: p in files <==> p in w.origins[id].files)
    ensures var w := ws[|ws| - 1]; var o := w.origins[id]; var key := w.table.outputs[id].key;
            var answer := Scan(w.fs, w.table, key, ids);
            && Attempt(site, w.fs, w.table, file, accessor, stops, line, ids, files, |files|) ==
                 (w.table, if answer.Some? then Returned(answer.value) else CallError)
            && o.cut <= |o.files|
            && (answer.None? <==>
                  !AllEmpty(w.fs, o.files[o.cut..]) &&
                  forall other: nat | other < |w.table.outputs| && other != id :: !RowHits(w.fs, w.table, key, other))
  {
    RunsAreSane(site, ws);
    CutRowHitsIff(site, ws, id);
    var w := ws[|ws| - 1];
    var o, key := w.origins[id], w.table.outputs[id].key;
    var s := WatchChild(site.homeCacheDir, stops).files;
    NoTwinsListed(o.files, files, s);
    SameSetSameHash(w.fs, o.files, files, s);
    AgreeingFilesSameHash(o.fs, w.fs, o.files);
    BlockedAttempt(site, w.fs, w.table, file, accessor, key, stops, line, ids, files);
    VisitedScan(w.fs, w.table, key, ids);
  }

  lemma VisitedScan(fs: FileSystem, t: Table, key: Key, ids: seq<nat>)
    requires Visits(t, key, ids)
    ensures Scan(fs, t, key, ids).None? <==> forall id: nat | id < |t.outputs| :: !RowHits(fs, t, key, id)
  {
    ScanMeaning(fs, t, key, ids);
  }

  /** Right after the cut, on the same files, that comes to this: the next call that traces
      the same set returns the stored text if all the row lacks is empty, and fails
      otherwise; the tables stay as they are. */
  lemma NextCallAfterCut(site: Site, w: World, m: Miss, w': World, key: Key, ids: seq<nat>,
                         stops: seq<WaitStatus>, line: Text, files: seq<Path>)
    requires ForeignKeys(w.table) && Stores(site, w, m, w') && KeyOf(site, w.fs, m.file, m.accessor) == Some(key)
    requires WatchChild(site.homeCacheDir, stops) == WatchChild(site.homeCacheDir, StopsOf(m))
    requires Visits(w'.table, key, ids) && Collects(site, stops, files)
    ensures Attempt(site, w.fs, w'.table, m.file, m.accessor, stops, line, ids, files, |files|) ==
            (w'.table, if AllEmpty(w.fs, m.files[m.cut..]) then Returned(Trim(LastOf(m.child).parent.line)) else CallError)
  {
    var text := Trim(LastOf(m.child).parent.line);
    StoreAdds(site, w, m, w', key);
    CollectedHasNoTwins(site, m.child, m.files);
    SameSetSameHash(w.fs, m.files, files, WatchChild(site.homeCacheDir, stops).files);
    CutListHitsIff(w.fs, w.fs, m.files, m.cut);
    if AllEmpty(w.fs, m.files[m.cut..]) {
      AddedRowAnswers(w.fs, w.table, key, m.ids, m.files, m.cut, text, w'.table, ids);
      AddedRowConflicts(w.fs, w.table, key, m.ids, m.files, m.cut, text, w'.table, files);
    } else {
      CutRowBlocks(w.fs, w.table, key, m.ids, m.files, m.cut, text, w'.table, ids, files);
    }
    BlockedAttempt(site, w.fs, w'.table, m.file, m.accessor, key, stops, line, ids, files);
  }

  lemma AddedRowConflicts(fs: FileSystem, t: Table, key: Key, ids: seq<nat>, files: seq<Path>, cut: nat, output: Text, t': Table, other: seq<Path>)
    requires ForeignKeys(t) && Adds(fs, t, key, ids, files, cut, output, t') && HashOf(fs, other) == HashOf(fs, files)
    ensures HashOf(fs, other).Some? && Conflicts(t', key, HashOf(fs, other).value)
  {
    assert t'.outputs[|t.outputs|].key == key;
  }
}
