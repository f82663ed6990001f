/** `eval_attr_from_file`: lookup, and on a miss a traced evaluation whose result is stored. */
module EvalCache {
  import opened Options
  import opened Paths
  import opened InputHash
  import opened Utf8Text
  import opened AccessorKey
  import opened CacheDb
  import opened FileTracing

  /** What all calls have around them: where a file argument leads, and the tracer's cache
      directory. */
  datatype Site = Site(canonicalize: Path -> Path, homeCacheDir: Option<Path>)

  /** The ways a call comes to an end. (When it does not, see module PipeProtocol.) */
  datatype CallResult = Returned(text: Text) | CallError | CallPanic

  /** `FileAttribute::new` and the key it is stored under: none when the file cannot be read. */
  function KeyOf(site: Site, fs: FileSystem, file: Path, accessor: seq<string>): Option<Key> {
    if Exists(fs, file) && NodeAt(fs, file).File? then
      Some(Key(site.canonicalize(file), Digest(NodeAt(fs, file).content), JoinDots(accessor)))
    else None
  }

  /** A key can be had exactly for a file that can be read; two calls share one exactly when
      their arguments lead to one place with one content and their names join alike, however
      the arguments are spelled. */
  lemma KeyMeaning(site: Site, fs: FileSystem, file: Path, accessor: seq<string>, fs': FileSystem, file': Path, accessor': seq<string>)
    ensures KeyOf(site, fs, file, accessor).Some? <==> Exists(fs, file) && NodeAt(fs, file).File?
    ensures KeyOf(site, fs, file, accessor).Some? && KeyOf(site, fs', file', accessor').Some? ==>
              (KeyOf(site, fs, file, accessor) == KeyOf(site, fs', file', accessor') <==>
                 && site.canonicalize(file) == site.canonicalize(file')
                 && NodeAt(fs, file) == NodeAt(fs', file')
                 && JoinDots(accessor) == JoinDots(accessor'))
  {
  }

  /** `files` has the elements of `s` in some order. */
  ghost predicate Lists(files: seq<Path>, s: set<Path>) {
    && (forall i, j | 0 <= i < j < |files| :: files[i] != files[j])
    && (forall p :: p in files <==> p in s)
  }

  /** The rest of a call after a lookup in vain. */
  function AfterMiss(fs: FileSystem, t: Table, key: Key, watched: WatchResult, line: Text, files: seq<Path>, cut: nat): (Table, CallResult)
    requires cut <= |files|
  {
    match watched
    case WatchError => (t, CallError)
    case Panicked => (t, CallPanic)
    case Files(_) =>
      if Trim(line) == [] then (t, CallError)
      else
        match InsertUpTo(t, fs, key, files, Trim(line), cut)
        case (t', Inserted) => (t', Returned(line))
        case (t', _) => (t', CallError)
  }

  /** A call as a function of what it meets: the stops of the child it traces on a miss, the
      line it reads from the pipe, the order `ids` in which rows come back and the order
      `files` in which the traced set is walked. The process may be cut off after `cut`
      inputs are recorded. */
  function Attempt(site: Site, fs: FileSystem, t: Table, file: Path, accessor: seq<string>,
                   stops: seq<WaitStatus>, line: Text, ids: seq<nat>, files: seq<Path>, cut: nat): (Table, CallResult)
    requires Ids(t, ids) && cut <= |files|
  {
    match KeyOf(site, fs, file, accessor)
    case None => (t, CallError)
    case Some(key) =>
      match Scan(fs, t, key, ids)
      case Some(text) => (t, Returned(text))
      case None => AfterMiss(fs, t, key, WatchChild(site.homeCacheDir, stops), line, files, cut)
  }

  /** A call that returns after a lookup in vain has traced its child to the end, got a line
      with something in it, and added a row for it; only then do the tables change. */
  lemma AfterMissAdds(fs: FileSystem, t: Table, key: Key, watched: WatchResult, line: Text, ids: seq<nat>, files: seq<Path>, cut: nat)
    requires Visits(t, key, ids) && cut <= |files| && Scan(fs, t, key, ids).None?
    ensures var (t', r) := AfterMiss(fs, t, key, watched, line, files, cut);
            if r.Returned? then
              Trim(line) != [] && watched.Files? && r == Returned(line) && Adds(fs, t, key, ids, files, cut, Trim(line), t')
            else t' == t
  {
    InsertUpToAdds(fs, t, key, ids, files, cut, Trim(line));
  }

  /** A call on a main file that cannot be read is an error and nothing more. */
  lemma UnreadableMainFile(site: Site, fs: FileSystem, t: Table, file: Path, accessor: seq<string>,
                           stops: seq<WaitStatus>, line: Text, ids: seq<nat>, files: seq<Path>, cut: nat)
    requires Ids(t, ids) && cut <= |files| && !(Exists(fs, file) && NodeAt(fs, file).File?)
    ensures Attempt(site, fs, t, file, accessor, stops, line, ids, files, cut) == (t, CallError)
  {
  }

  /** How a call on a readable file ends, said of the rows, the child and the files: with the
      text of a row exactly when one hits; else in a panic exactly when the tracer panics,
      and in an error exactly when tracing fails, the line is blank, a traced file cannot be
      read, or some row has this key and this digest; else with the line as it came. The
      tables change in the last case only. */
  lemma CallOutcome(site: Site, fs: FileSystem, t: Table, file: Path, accessor: seq<string>, key: Key,
                    stops: seq<WaitStatus>, line: Text, ids: seq<nat>, files: seq<Path>, cut: nat)
    requires KeyOf(site, fs, file, accessor) == Some(key) && Visits(t, key, ids) && cut <= |files|
    ensures var (t', r) := Attempt(site, fs, t, file, accessor, stops, line, ids, files, cut);
            var watched := WatchChild(site.homeCacheDir, stops);
            if exists id: nat :: id < |t.outputs| && RowHits(fs, t, key, id) then
              t' == t && r.Returned? && exists id: nat :: id < |t.outputs| && RowHits(fs, t, key, id) && r.text == t.outputs[id].output
            else
              && (r.CallPanic? <==> watched.Panicked?)
              && (r.CallError? <==> watched.WatchError? || (watched.Files? && CannotStore(fs, t, key, line, files)))
              && (r.Returned? ==> r.text == line)
              && (!r.Returned? ==> t' == t)
  {
    ScanMeaning(fs, t, key, ids);
    InsertionOutcome(t, fs, key, files, Trim(line), cut);
    HashDefined(fs, files);
  }

  ghost predicate CannotStore(fs: FileSystem, t: Table, key: Key, line: Text, files: seq<Path>) {
    || Trim(line) == [] || (exists p :: p in files && !Exists(fs, p))
    || exists id: nat :: id < |t.outputs| && t.outputs[id].key == key && Some(t.outputs[id].inputHash) == HashOf(fs, files)
  }

  method Collected(s: set<Path>) returns (files: seq<Path>)
    ensures Lists(files, s)
  {
    files := [];
    var rest := s;
    while rest != {}
      invariant rest <= s
      invariant forall i, j | 0 <= i < j < |files| :: files[i] != files[j]
      invariant forall p :: p in files <==> p in s && p !in rest
      decreases rest
    {
      var p :| p in rest;
      files := files + [p];
      rest := rest - {p};
    }
  }

  /** The call itself, against the database and a fresh tracer. */
  method EvalAttrFromFile(site: Site, db: Db, fs: FileSystem, file: Path, accessor: seq<string>,
                          tracer: FileTracer, child: Tracee, line: Text)
      returns (r: CallResult, ghost files: seq<Path>)
    requires tracer.State() == NEW_TRACER && tracer.homeCacheDir == site.homeCacheDir
    modifies db, tracer, child
    ensures MissFiles(site, fs, old(db.Contents()), file, accessor, old(child.pending), files)
    ensures (db.Contents(), r) ==
            Attempt(site, fs, old(db.Contents()), file, accessor, old(child.pending), line,
                    RowsFor(site, fs, old(db.Contents()), file, accessor), files, |files|)
  {
    files := [];
    if !Exists(fs, file) || !NodeAt(fs, file).File? {
      return CallError, files;
    }
    var key := Key(site.canonicalize(file), Digest(NodeAt(fs, file).content), JoinDots(accessor));
    var cached := db.QueryEvaluationOutput(fs, key);
    if cached.Some? {
      return Returned(cached.value), files;
    }
    var watched := tracer.Watch(child);
    match watched {
      case WatchError =>
        return CallError, files;
      case Panicked =>
        return CallPanic, files;
      case Files(inputFiles) =>
        var collected := Collected(inputFiles);
        files := collected;
        var out := Trim(line);
        if out == [] {
          return CallError, files;
        }
        var inserted := db.InsertEvaluationOutput(fs, key, collected, out);
        return if inserted.Inserted? then Returned(line) else CallError, files;
    }
  }

  /** The rows a call looks through, in table order. */
  function RowsFor(site: Site, fs: FileSystem, t: Table, file: Path, accessor: seq<string>): (ids: seq<nat>)
    ensures Ids(t, ids)
    ensures forall key | KeyOf(site, fs, file, accessor) == Some(key) :: Visits(t, key, ids)
  {
    match KeyOf(site, fs, file, accessor)
    case None => []
    case Some(key) => RowsOf(t, key, |t.outputs|)
  }

  /** When the lookup is in vain and tracing succeeds, `files` is the traced set in some order. */
  ghost predicate MissFiles(site: Site, fs: FileSystem, t: Table, file: Path, accessor: seq<string>, stops: seq<WaitStatus>, files: seq<Path>) {
    var watched := WatchChild(site.homeCacheDir, stops);
    var key := KeyOf(site, fs, file, accessor);
    key.Some? && Lookup(fs, t, key.value).None? && watched.Files? ==> Lists(files, watched.files)
  }
}
