/** The two tables of the evaluation cache, lookup and insertion. */
module CacheDb {
  import opened Options
  import opened Paths
  import opened InputHash
  import opened Utf8Text

  datatype Key = Key(mainFilePath: Path, mainFileHash: Digest, accessorPath: string)

  /** A row of `evaluation_output`; its id is its position, as rows are never deleted. */
  datatype OutputRow = OutputRow(key: Key, inputHash: Digest, output: Text)

  /** A row of `evaluation_input`. */
  datatype InputRow = InputRow(evaluationId: nat, filePath: Path)

  datatype Table = Table(outputs: seq<OutputRow>, inputs: seq<InputRow>)

  datatype InsertResult = Inserted | UnreadableInput | UniqueViolation

  const EMPTY_TABLE: Table := Table([], [])

  /** `SELECT file_path FROM evaluation_input WHERE evaluation_id = ?` */
  function InputsOf(inputs: seq<InputRow>, id: nat): (files: seq<Path>) {
    if inputs == [] then []
    else (if inputs[0].evaluationId == id then [inputs[0].filePath] else []) + InputsOf(inputs[1..], id)
  }

  /** The foreign key of `evaluation_input`. */
  ghost predicate ForeignKeys(t: Table) {
    forall i | 0 <= i < |t.inputs| :: t.inputs[i].evaluationId < |t.outputs|
  }

  // ---------- Lookup ----------

  /** Row `id` is for this key and its recorded files hash now to what was stored. */
  predicate RowHits(fs: FileSystem, t: Table, key: Key, id: nat)
    requires id < |t.outputs|
  {
    t.outputs[id].key == key && HashOf(fs, InputsOf(t.inputs, id)) == Some(t.outputs[id].inputHash)
  }

  ghost predicate Ids(t: Table, ids: seq<nat>) {
    forall i | 0 <= i < |ids| :: ids[i] < |t.outputs|
  }

  /** The answer when the rows are visited in the given order. */
  function Scan(fs: FileSystem, t: Table, key: Key, ids: seq<nat>): Option<Text>
    requires Ids(t, ids)
  {
    if ids == [] then None
    else if RowHits(fs, t, key, ids[0]) then Some(t.outputs[ids[0]].output)
    else
      assert forall i | 0 <= i < |ids[1..]| :: ids[1..][i] == ids[i + 1];
      Scan(fs, t, key, ids[1..])
  }

  /** An order SQL may return the rows in: every row of the key is there. */
  ghost predicate Visits(t: Table, key: Key, ids: seq<nat>) {
    Ids(t, ids) && forall id: nat | id < |t.outputs| && t.outputs[id].key == key :: id in ids
  }

  /** The rows of a key among the first `n`, in table order. */
  function RowsOf(t: Table, key: Key, n: nat): (ids: seq<nat>)
    requires n <= |t.outputs|
    ensures Ids(t, ids)
    ensures forall id: nat :: id in ids <==> id < n && t.outputs[id].key == key
  {
    if n == 0 then [] else RowsOf(t, key, n - 1) + (if t.outputs[n - 1].key == key then [n - 1] else [])
  }

  /** The answer when the rows come in table order. */
  function Lookup(fs: FileSystem, t: Table, key: Key): Option<Text> {
    Scan(fs, t, key, RowsOf(t, key, |t.outputs|))
  }

  lemma {:induction false} ScanMeaning(fs: FileSystem, t: Table, key: Key, ids: seq<nat>)
    requires Ids(t, ids)
    ensures Scan(fs, t, key, ids).None? <==> forall id | id in ids :: !RowHits(fs, t, key, id)
    ensures Scan(fs, t, key, ids).Some? ==>
              exists id :: id in ids && RowHits(fs, t, key, id) && Scan(fs, t, key, ids) == Some(t.outputs[id].output)
  {
    if ids != [] {
      assert ids == [ids[0]] + ids[1..];
      assert ids[0] in ids;
      if !RowHits(fs, t, key, ids[0]) {
        ScanMeaning(fs, t, key, ids[1..]);
      }
    }
  }

  /** Of several rows that hit, the first one visited is the answer. */
  lemma {:induction false} FirstHitAnswers(fs: FileSystem, t: Table, key: Key, ids: seq<nat>, k: nat)
    requires Ids(t, ids) && k < |ids| && RowHits(fs, t, key, ids[k])
    requires forall j | 0 <= j < k :: !RowHits(fs, t, key, ids[j])
    ensures Scan(fs, t, key, ids) == Some(t.outputs[ids[k]].output)
    decreases k
  {
    if k > 0 {
      assert forall i | 0 <= i < |ids[1..]| :: ids[1..][i] == ids[i + 1];
      FirstHitAnswers(fs, t, key, ids[1..], k - 1);
    }
  }

  /** A lookup answers nothing exactly when no row matches the files as they are now, and
      otherwise the output of a row that does. */
  lemma LookupMeaning(fs: FileSystem, t: Table, key: Key)
    ensures Lookup(fs, t, key).None? <==> forall id: nat | id < |t.outputs| :: !RowHits(fs, t, key, id)
    ensures Lookup(fs, t, key).Some? ==>
              exists id: nat :: id < |t.outputs| && RowHits(fs, t, key, id) && Lookup(fs, t, key).value == t.outputs[id].output
  {
    var ids := RowsOf(t, key, |t.outputs|);
    ScanMeaning(fs, t, key, ids);
    forall id: nat | id < |t.outputs| && RowHits(fs, t, key, id) ensures id in ids {
    }
  }

  /** When the rows that hit agree on their output, the order of the rows does not matter. */
  lemma ScanIsOrderFree(fs: FileSystem, t: Table, key: Key, ids: seq<nat>, other: seq<nat>)
    requires Visits(t, key, ids) && Visits(t, key, other)
    requires forall i: nat, j: nat | i < |t.outputs| && j < |t.outputs| && RowHits(fs, t, key, i) && RowHits(fs, t, key, j) ::
               t.outputs[i].output == t.outputs[j].output
    ensures Scan(fs, t, key, ids) == Scan(fs, t, key, other)
  {
    ScanMeaning(fs, t, key, ids);
    ScanMeaning(fs, t, key, other);
  }

  // ---------- Insertion ----------

  predicate Conflicts(t: Table, key: Key, inputHash: Digest) {
    exists id :: 0 <= id < |t.outputs| && t.outputs[id].key == key && t.outputs[id].inputHash == inputHash
  }

  function InputRows(id: nat, files: seq<Path>): seq<InputRow> {
    seq(|files|, i requires 0 <= i < |files| => InputRow(id, files[i]))
  }

  /** The tables with a new output row and inputs recorded for it. */
  function WithRow(t: Table, row: OutputRow, files: seq<Path>): Table {
    Table(t.outputs + [row], t.inputs + InputRows(|t.outputs|, files))
  }

  /** Insertion interrupted after `cut` of its inputs, or run to its end when `cut` is
      their number: the row goes in first, then the inputs one at a time, each statement
      on its own. */
  function InsertUpTo(t: Table, fs: FileSystem, key: Key, files: seq<Path>, output: Text, cut: nat): (Table, InsertResult)
    requires cut <= |files|
  {
    match HashOf(fs, files)
    case None => (t, UnreadableInput)
    case Some(inputHash) =>
      if Conflicts(t, key, inputHash) then (t, UniqueViolation)
      else (WithRow(t, OutputRow(key, inputHash, output), files[..cut]), Inserted)
  }

  lemma {:induction false} InputsOfAppend(a: seq<InputRow>, b: seq<InputRow>, id: nat)
    ensures InputsOf(a + b, id) == InputsOf(a, id) + InputsOf(b, id)
  {
    if a == [] {
      assert a + b == b && InputsOf(a, id) + InputsOf(b, id) == InputsOf(b, id);
    } else {
      assert (a + b)[1..] == a[1..] + b;
      InputsOfAppend(a[1..], b, id);
    }
  }

  lemma {:induction false} InputsOfInputRows(id: nat, files: seq<Path>, q: nat)
    ensures InputsOf(InputRows(id, files), q) == if q == id then files else []
  {
    if files != [] {
      assert InputRows(id, files)[1..] == InputRows(id, files[1..]);
      InputsOfInputRows(id, files[1..], q);
      assert files == [files[0]] + files[1..];
    }
  }

  lemma {:induction false} NoInputsYet(inputs: seq<InputRow>, id: nat)
    requires forall i | 0 <= i < |inputs| :: inputs[i].evaluationId < id
    ensures InputsOf(inputs, id) == []
  {
    if inputs != [] {
      assert inputs[0].evaluationId < id;
      NoInputsYet(inputs[1..], id);
    }
  }

  lemma WithRowStep(t: Table, row: OutputRow, files: seq<Path>, i: nat)
    requires i < |files|
    ensures WithRow(t, row, files[..i + 1]).outputs == WithRow(t, row, files[..i]).outputs
    ensures WithRow(t, row, files[..i + 1]).inputs == WithRow(t, row, files[..i]).inputs + [InputRow(|t.outputs|, files[i])]
  {
    assert InputRows(|t.outputs|, files[..i + 1]) == InputRows(|t.outputs|, files[..i]) + [InputRow(|t.outputs|, files[i])];
  }

  /** A new row has exactly the inputs recorded for it and no old row gains or loses any. */
  lemma WithRowInputs(t: Table, row: OutputRow, files: seq<Path>, id: nat)
    requires ForeignKeys(t) && id <= |t.outputs|
    ensures ForeignKeys(WithRow(t, row, files))
    ensures InputsOf(WithRow(t, row, files).inputs, id) == if id == |t.outputs| then files else InputsOf(t.inputs, id)
  {
    InputsOfAppend(t.inputs, InputRows(|t.outputs|, files), id);
    InputsOfInputRows(|t.outputs|, files, id);
    if id == |t.outputs| {
      NoInputsYet(t.inputs, id);
    }
  }

  // ---------- A miss and what it leaves behind ----------

  /** After a lookup in vain, a row and the first `cut` of its inputs have been added. */
  ghost predicate Adds(fs: FileSystem, t: Table, key: Key, ids: seq<nat>, files: seq<Path>, cut: nat, output: Text, t': Table) {
    && Visits(t, key, ids) && Scan(fs, t, key, ids).None?
    && cut <= |files| && HashOf(fs, files).Some?
    && t' == WithRow(t, OutputRow(key, HashOf(fs, files).value, output), files[..cut])
  }

  lemma InsertUpToAdds(fs: FileSystem, t: Table, key: Key, ids: seq<nat>, files: seq<Path>, cut: nat, output: Text)
    requires Visits(t, key, ids) && Scan(fs, t, key, ids).None? && cut <= |files|
    ensures var (t', r) := InsertUpTo(t, fs, key, files, output, cut);
            if r.Inserted? then Adds(fs, t, key, ids, files, cut, output, t') else t' == t
  {
  }

  /** How an insertion ends, said of the rows: an error exactly when a file cannot be read;
      a uniqueness violation exactly when a row has this key, all of it, and this digest. */
  lemma InsertionOutcome(t: Table, fs: FileSystem, key: Key, files: seq<Path>, output: Text, cut: nat)
    requires cut <= |files|
    ensures var r := InsertUpTo(t, fs, key, files, output, cut).1;
            && (r.UnreadableInput? <==> exists p :: p in files && !Exists(fs, p))
            && (r.UniqueViolation? <==>
                  HashOf(fs, files).Some? &&
                  exists id: nat :: id < |t.outputs| && t.outputs[id] == OutputRow(key, HashOf(fs, files).value, t.outputs[id].output))
  {
    HashDefined(fs, files);
    if id: nat :| id < |t.outputs| && t.outputs[id].key == key && Some(t.outputs[id].inputHash) == HashOf(fs, files) {
      assert t.outputs[id] == OutputRow(key, HashOf(fs, files).value, t.outputs[id].output);
    }
  }

  /** A row never keeps the same files from being stored under another key: a second
      attribute, or the same one in another file, that reads just these files goes in. */
  lemma OtherKeyGoesIn(fs: FileSystem, t: Table, key: Key, ids: seq<nat>, files: seq<Path>, cut: nat, output: Text, t': Table,
                       other: Key, again: seq<Path>, text: Text)
    requires Adds(fs, t, key, ids, files, cut, output, t') && other != key
    requires HashOf(fs, again) == HashOf(fs, files)
    requires forall id: nat | id < |t.outputs| :: t.outputs[id].key != other
    ensures InsertUpTo(t', fs, other, again, text, |again|) ==
            (WithRow(t', OutputRow(other, HashOf(fs, files).value, text), again), Inserted)
  {
    InsertionOutcome(t', fs, other, again, text, |again|);
    assert again[..|again|] == again;
  }

  lemma OldRowsStillMiss(fs: FileSystem, t: Table, key: Key, ids: seq<nat>, files: seq<Path>, cut: nat, output: Text, t': Table, id: nat)
    requires ForeignKeys(t) && Adds(fs, t, key, ids, files, cut, output, t') && id < |t.outputs|
    ensures !RowHits(fs, t', key, id)
  {
    WithRowInputs(t, OutputRow(key, HashOf(fs, files).value, output), files[..cut], id);
    ScanMeaning(fs, t, key, ids);
    if t.outputs[id].key == key {
      assert id in ids;
    }
  }

  lemma NewRowHits(fs: FileSystem, now: FileSystem, t: Table, key: Key, ids: seq<nat>, files: seq<Path>, cut: nat, output: Text, t': Table)
    requires ForeignKeys(t) && Adds(fs, t, key, ids, files, cut, output, t')
    ensures |t'.outputs| == |t.outputs| + 1 && t'.outputs[|t.outputs|].output == output
    ensures RowHits(now, t', key, |t.outputs|) <==> HashOf(now, files[..cut]) == HashOf(fs, files)
  {
    WithRowInputs(t, OutputRow(key, HashOf(fs, files).value, output), files[..cut], |t.outputs|);
  }

  /** An added row answers the next lookup if what is recorded of it has the stored digest,
      whatever the other rows are and in whatever order they come. */
  lemma AddedRowAnswers(fs: FileSystem, t: Table, key: Key, ids: seq<nat>, files: seq<Path>, cut: nat, output: Text, t': Table, next: seq<nat>)
    requires ForeignKeys(t) && Adds(fs, t, key, ids, files, cut, output, t') && Visits(t', key, next)
    requires HashOf(fs, files[..cut]) == HashOf(fs, files)
    ensures Scan(fs, t', key, next) == Some(output)
  {
    NewRowHits(fs, fs, t, key, ids, files, cut, output, t');
    forall id | id in next && RowHits(fs, t', key, id) ensures id == |t.outputs| {
      if id < |t.outputs| {
        OldRowsStillMiss(fs, t, key, ids, files, cut, output, t', id);
      }
    }
    assert t'.outputs[|t.outputs|].key == key;
    ScanMeaning(fs, t', key, next);
  }

  /** While a cut row cannot hit, lookups fail and storing the same digest again violates
      the uniqueness constraint. */
  lemma CutRowBlocks(fs: FileSystem, t: Table, key: Key, ids: seq<nat>, files: seq<Path>, cut: nat, output: Text, t': Table, next: seq<nat>, other: seq<Path>)
    requires ForeignKeys(t) && Adds(fs, t, key, ids, files, cut, output, t') && Visits(t', key, next)
    requires HashOf(fs, files[..cut]) != HashOf(fs, files) && HashOf(fs, other) == HashOf(fs, files)
    ensures Scan(fs, t', key, next).None?
    ensures Conflicts(t', key, HashOf(fs, other).value)
  {
    NewRowHits(fs, fs, t, key, ids, files, cut, output, t');
    forall id | id in next ensures !RowHits(fs, t', key, id) {
      if id < |t.outputs| {
        OldRowsStillMiss(fs, t, key, ids, files, cut, output, t', id);
      }
    }
    ScanMeaning(fs, t', key, next);
    assert t'.outputs[|t.outputs|].key == key;
  }

  // ---------- The database object ----------

  class Db {
    var outputs: seq<OutputRow>
    var inputs: seq<InputRow>

    function Contents(): Table
      reads this
    {
      Table(outputs, inputs)
    }

    constructor ()
      ensures Contents() == EMPTY_TABLE
    {
      outputs, inputs := [], [];
    }

    /** `SELECT .. WHERE main_file_path = ? AND main_file_hash = ? AND accessor_path = ?` */
    method FetchAll(key: Key) returns (ids: seq<nat>)
      ensures ids == RowsOf(Contents(), key, |outputs|)
    {
      ids := [];
      for id := 0 to |outputs|
        invariant ids == RowsOf(Contents(), key, id)
      {
        if outputs[id].key == key {
          ids := ids + [id];
        }
      }
    }

    /** Nothing exactly when no row of the key matches the files as they are now; otherwise
        the output of a row that does, the first in the order the rows come. */
    method QueryEvaluationOutput(fs: FileSystem, key: Key) returns (r: Option<Text>)
      ensures r == Lookup(fs, Contents(), key)
      ensures r.None? <==> forall id: nat | id < |outputs| :: !RowHits(fs, Contents(), key, id)
      ensures r.Some? ==> exists id: nat :: id < |outputs| && RowHits(fs, Contents(), key, id) && r.value == outputs[id].output
    {
      var evalOutputs := FetchAll(key);
      LookupMeaning(fs, Contents(), key);
      assert evalOutputs[0..] == evalOutputs;
      for i := 0 to |evalOutputs|
        invariant Ids(Contents(), evalOutputs[i..])
        invariant Scan(fs, Contents(), key, evalOutputs[i..]) == Scan(fs, Contents(), key, evalOutputs)
      {
        var id := evalOutputs[i];
        assert evalOutputs[i..][1..] == evalOutputs[i + 1..];
        var files := InputsOf(inputs, id);
        var hash := HashFiles(fs, files);
        if hash == Some(outputs[id].inputHash) {
          return Some(outputs[id].output);
        }
      }
      return None;
    }

    /** Every state on the way is the table with the row and a prefix of its inputs. */
    method InsertEvaluationOutput(fs: FileSystem, key: Key, inputFiles: seq<Path>, output: Text) returns (r: InsertResult)
      modifies this
      ensures (Contents(), r) == InsertUpTo(old(Contents()), fs, key, inputFiles, output, |inputFiles|)
      ensures r.UniqueViolation? <==>
                HashOf(fs, inputFiles).Some? &&
                exists id: nat :: id < |old(outputs)| && old(outputs)[id].key == key && Some(old(outputs)[id].inputHash) == HashOf(fs, inputFiles)
    {
      var inputHash := HashFiles(fs, inputFiles);
      if inputHash.None? {
        return UnreadableInput;
      }
      if exists id :: 0 <= id < |outputs| && outputs[id].key == key && outputs[id].inputHash == inputHash.value {
        return UniqueViolation;
      }
      var evaluationId := |outputs|;
      ghost var before := Contents();
      var row := OutputRow(key, inputHash.value, output);
      outputs := outputs + [row];
      assert inputs == inputs + InputRows(evaluationId, inputFiles[..0]);
      for i := 0 to |inputFiles|
        invariant Contents() == WithRow(before, row, inputFiles[..i])
      {
        WithRowStep(before, row, inputFiles, i);
        inputs := inputs + [InputRow(evaluationId, inputFiles[i])];
      }
      assert inputFiles[..|inputFiles|] == inputFiles;
      return Inserted;
    }
  }
}
