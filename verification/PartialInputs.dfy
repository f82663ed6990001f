/** Digests of incomplete input lists, as an interrupted insertion leaves them. */
module PartialInputs {
  import opened Options
  import opened Paths
  import opened InputHash

  /** What a path feeds, nothing when it is missing. */
  function Fed(fs: FileSystem, p: Path): seq<Byte> {
    if Exists(fs, p) then Contribution(p, NodeAt(fs, p)) else []
  }

  function TotalLength(fs: FileSystem, files: seq<Path>): nat {
    if files == [] then 0 else |Fed(fs, files[0])| + TotalLength(fs, files[1..])
  }

  lemma {:induction false} StreamLength(fs: FileSystem, files: seq<Path>)
    requires Stream(fs, files).Some?
    ensures |Stream(fs, files).value| == TotalLength(fs, files)
  {
    if files != [] {
      StreamLength(fs, files[1..]);
    }
  }

  lemma {:induction false} InsertLength(fs: FileSystem, p: Path, s: seq<Path>)
    ensures TotalLength(fs, Insert(p, s)) == |Fed(fs, p)| + TotalLength(fs, s)
  {
    if s == [] || PathLeq(p, s[0]) {
      assert ([p] + s)[1..] == s;
    } else {
      InsertLength(fs, p, s[1..]);
      assert Insert(p, s)[1..] == Insert(p, s[1..]);
    }
  }

  lemma {:induction false} SortLength(fs: FileSystem, files: seq<Path>)
    ensures TotalLength(fs, SortPaths(files)) == TotalLength(fs, files)
  {
    if files != [] {
      SortLength(fs, files[1..]);
      InsertLength(fs, files[0], SortPaths(files[1..]));
    }
  }

  lemma {:induction false} AppendLength(fs: FileSystem, a: seq<Path>, b: seq<Path>)
    ensures TotalLength(fs, a + b) == TotalLength(fs, a) + TotalLength(fs, b)
  {
    if a == [] {
      assert a + b == b;
    } else {
      assert (a + b)[1..] == a[1..] + b;
      AppendLength(fs, a[1..], b);
    }
  }

  /** A digest fixes the total length of what its inputs feed. */
  lemma HashLength(fs: FileSystem, files: seq<Path>)
    requires HashOf(fs, files).Some?
    ensures |HashOf(fs, files).value.stream| == TotalLength(fs, files)
  {
    StreamLength(fs, SortPaths(files));
    SortLength(fs, files);
  }

  lemma {:induction false} LengthsAddUp(fs: FileSystem, fs': FileSystem, files: seq<Path>)
    requires forall p | p in files :: |Fed(fs, p)| == |Fed(fs', p)|
    ensures TotalLength(fs, files) == TotalLength(fs', files)
  {
    if files != [] {
      assert files[0] in files;
      LengthsAddUp(fs, fs', files[1..]);
    }
  }

  lemma {:induction false} MemberLength(fs: FileSystem, files: seq<Path>, p: Path)
    requires p in files
    ensures TotalLength(fs, files) >= |Fed(fs, p)|
  {
    if files[0] != p {
      MemberLength(fs, files[1..], p);
    }
  }

  // ---------- Inputs that feed nothing ----------

  function NonEmpty(fs: FileSystem, files: seq<Path>): seq<Path> {
    if files == [] then []
    else (if Fed(fs, files[0]) == [] then [] else [files[0]]) + NonEmpty(fs, files[1..])
  }

  lemma {:induction false} StreamOfNonEmpty(fs: FileSystem, files: seq<Path>)
    requires AllExist(fs, files)
    ensures Stream(fs, files) == Stream(fs, NonEmpty(fs, files))
  {
    if files != [] {
      StreamOfNonEmpty(fs, files[1..]);
      StreamDefined(fs, files[1..]);
      var rest := NonEmpty(fs, files[1..]);
      if Fed(fs, files[0]) == [] {
        assert [] + rest == rest;
        PrependNothing(Stream(fs, rest));
      } else {
        assert ([files[0]] + rest)[1..] == rest;
      }
    }
  }

  lemma {:induction false} NonEmptyMembers(fs: FileSystem, files: seq<Path>, p: Path)
    ensures p in NonEmpty(fs, files) <==> p in files && Fed(fs, p) != []
  {
    if files != [] {
      NonEmptyMembers(fs, files[1..], p);
    }
  }

  lemma InsertFront(p: Path, s: seq<Path>)
    requires forall q | q in s :: PathLeq(p, q)
    ensures Insert(p, s) == [p] + s
  {
  }

  lemma NonEmptyCons(fs: FileSystem, p: Path, s: seq<Path>)
    ensures NonEmpty(fs, [p] + s) == if Fed(fs, p) == [] then NonEmpty(fs, s) else [p] + NonEmpty(fs, s)
  {
    assert ([p] + s)[1..] == s;
    assert [] + NonEmpty(fs, s) == NonEmpty(fs, s);
  }

  lemma InsertBeforeAll(fs: FileSystem, p: Path, s: seq<Path>)
    requires Ascending(s) && (s == [] || PathLeq(p, s[0]))
    ensures Insert(p, NonEmpty(fs, s)) == [p] + NonEmpty(fs, s)
  {
    forall q | q in NonEmpty(fs, s) ensures PathLeq(p, q) {
      NonEmptyMembers(fs, s, q);
      FirstIsLeast(s, q);
      PathOrder(p, s[0], q);
    }
    InsertFront(p, NonEmpty(fs, s));
  }

  lemma InsertAfterHead(p: Path, q: Path, s: seq<Path>)
    requires !PathLeq(p, q)
    ensures Insert(p, [q] + s) == [q] + Insert(p, s)
  {
    assert ([q] + s)[1..] == s;
  }

  lemma {:induction false} NonEmptyOfInsert(fs: FileSystem, p: Path, s: seq<Path>)
    requires Ascending(s)
    ensures NonEmpty(fs, Insert(p, s)) == if Fed(fs, p) == [] then NonEmpty(fs, s) else Insert(p, NonEmpty(fs, s))
    decreases |s|
  {
    if s == [] || PathLeq(p, s[0]) {
      NonEmptyCons(fs, p, s);
      InsertBeforeAll(fs, p, s);
    } else {
      var q, rest := s[0], s[1..];
      assert s == [q] + rest;
      NonEmptyOfInsert(fs, p, rest);
      InsertAfterHead(p, q, rest);
      NonEmptyCons(fs, q, rest);
      NonEmptyCons(fs, q, Insert(p, rest));
      InsertAfterHead(p, q, NonEmpty(fs, rest));
    }
  }

  lemma {:induction false} NonEmptyOfSort(fs: FileSystem, files: seq<Path>)
    ensures NonEmpty(fs, SortPaths(files)) == SortPaths(NonEmpty(fs, files))
  {
    if files != [] {
      NonEmptyOfSort(fs, files[1..]);
      SortAscending(files[1..]);
      NonEmptyOfInsert(fs, files[0], SortPaths(files[1..]));
      var rest := NonEmpty(fs, files[1..]);
      if Fed(fs, files[0]) == [] {
        assert [] + rest == rest;
      } else {
        SortCons(files[0], rest);
      }
    }
  }

  lemma {:induction false} NonEmptyOfAppend(fs: FileSystem, a: seq<Path>, b: seq<Path>)
    requires forall p | p in b :: Fed(fs, p) == []
    ensures NonEmpty(fs, a + b) == NonEmpty(fs, a)
  {
    if a == [] {
      assert a + b == b;
      if b != [] {
        NonEmptyOfAppend(fs, a, b[1..]);
        assert a + b[1..] == b[1..];
      }
    } else {
      assert (a + b)[1..] == a[1..] + b;
      NonEmptyOfAppend(fs, a[1..], b);
    }
  }

  lemma HashOfNonEmpty(fs: FileSystem, files: seq<Path>)
    requires AllExist(fs, files)
    ensures Stream(fs, SortPaths(files)) == Stream(fs, SortPaths(NonEmpty(fs, files)))
  {
    NonEmptyOfSort(fs, files);
    forall p | p in SortPaths(files) ensures Exists(fs, p) { SortMembers(files, p); }
    StreamOfNonEmpty(fs, SortPaths(files));
  }

  /** Empty inputs do not show in a digest. */
  lemma EmptyInputsInvisible(fs: FileSystem, a: seq<Path>, b: seq<Path>)
    requires AllExist(fs, a + b) && forall p | p in b :: Fed(fs, p) == []
    ensures HashOf(fs, a + b) == HashOf(fs, a)
  {
    assert forall p | p in a :: p in a + b;
    HashOfNonEmpty(fs, a + b);
    HashOfNonEmpty(fs, a);
    NonEmptyOfAppend(fs, a, b);
  }

  // ---------- Interrupted insertions ----------

  /** A row cut short cannot hit while its recorded inputs keep their lengths, if any of the
      inputs it lacks fed something when it was stored. */
  lemma PartialListMisses(stored: FileSystem, now: FileSystem, recorded: seq<Path>, missing: seq<Path>, p: Path)
    requires HashOf(stored, recorded + missing).Some?
    requires forall q | q in recorded :: |Fed(stored, q)| == |Fed(now, q)|
    requires p in missing && Fed(stored, p) != []
    ensures HashOf(now, recorded) != HashOf(stored, recorded + missing)
  {
    if HashOf(now, recorded).Some? {
      HashLength(now, recorded);
      HashLength(stored, recorded + missing);
      LengthsAddUp(stored, now, recorded);
      AppendLength(stored, recorded, missing);
      MemberLength(stored, missing, p);
    }
  }

  /** When lengths are kept and a cut list does hit, what it lacks is empty then and now, so
      the full list would hit as well. */
  lemma PartialHitIsFullHit(stored: FileSystem, now: FileSystem, recorded: seq<Path>, missing: seq<Path>)
    requires AllExist(stored, recorded + missing) && AllExist(now, recorded + missing)
    requires SameLengths(stored, now, recorded + missing)
    requires HashOf(now, recorded) == HashOf(stored, recorded + missing)
    ensures HashOf(now, recorded + missing) == HashOf(stored, recorded + missing)
  {
    HashDefined(stored, recorded + missing);
    forall q | q in recorded + missing ensures |Fed(stored, q)| == |Fed(now, q)| {
    }
    forall q | q in missing ensures Fed(now, q) == [] {
      assert q in recorded + missing;
      if Fed(stored, q) != [] {
        PartialListMisses(stored, now, recorded, missing, q);
      }
    }
    EmptyInputsInvisible(now, recorded, missing);
  }

  /** A cut list that hits on files of unchanged shape has all its inputs unchanged, the
      ones it lacks included. */
  lemma CutListUnchanged(stored: FileSystem, now: FileSystem, recorded: seq<Path>, missing: seq<Path>)
    requires AllExist(stored, recorded + missing) && AllExist(now, recorded + missing)
    requires SameShapes(stored, now, recorded + missing)
    requires HashOf(now, recorded) == HashOf(stored, recorded + missing)
    ensures SameNodes(stored, now, recorded + missing)
  {
    PartialHitIsFullHit(stored, now, recorded, missing);
    EqualDigestMeaning(stored, now, recorded + missing);
  }
}
