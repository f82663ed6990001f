/** File systems, and the digest `hash_files` takes of a list of inputs. */
module InputHash {
  import opened Options
  import opened Paths

  /** What a listing says an entry is (`d_type` of getdents64). */
  datatype EntryKind = Regular | Directory | Symlink | OtherKind

  datatype Entry = Entry(name: Name, kind: EntryKind)

  datatype Node = File(content: seq<Byte>) | Dir(entries: seq<Entry>)

  /** What each path leads to. Spellings of one path lead to one node; the empty path
      leads nowhere. */
  type FileSystem = fs: map<seq<Component>, Node> | [] !in fs witness map[]

  predicate Exists(fs: FileSystem, p: Path) {
    Components(p) in fs
  }

  function NodeAt(fs: FileSystem, p: Path): Node
    requires Exists(fs, p)
  {
    fs[Components(p)]
  }

  /** The digest is treated as an injective function of the bytes fed to the hasher. */
  datatype Digest = Digest(stream: seq<Byte>)

  // ---------- What is fed to the hasher ----------

  /** The entry paths of a directory, in listing order, nothing between them. The kinds of
      the entries are not fed. */
  function EntryStream(dir: Path, entries: seq<Entry>): seq<Byte> {
    if entries == [] then [] else Join(dir, entries[0].name) + EntryStream(dir, entries[1..])
  }

  function Contribution(p: Path, n: Node): seq<Byte> {
    match n
    case File(content) => content
    case Dir(entries) => EntryStream(p, entries)
  }

  function FedBefore(fed: seq<Byte>, r: Option<seq<Byte>>): Option<seq<Byte>> {
    if r.Some? then Some(fed + r.value) else None
  }

  /** The contributions one after the other, without names, lengths or separators; nothing
      at all when some file is missing. */
  function Stream(fs: FileSystem, files: seq<Path>): Option<seq<Byte>> {
    if files == [] then Some([])
    else if !Exists(fs, files[0]) then None
    else FedBefore(Contribution(files[0], NodeAt(fs, files[0])), Stream(fs, files[1..]))
  }

  function HashOf(fs: FileSystem, files: seq<Path>): Option<Digest> {
    match Stream(fs, SortPaths(files))
    case None => None
    case Some(stream) => Some(Digest(stream))
  }

  method HashFiles(fs: FileSystem, files: seq<Path>) returns (r: Option<Digest>)
    ensures r == HashOf(fs, files)
  {
    var hasher: seq<Byte> := [];
    var sorted := SortPaths(files);
    assert sorted[0..] == sorted;
    PrependNothing(Stream(fs, sorted));
    for i := 0 to |sorted|
      invariant Stream(fs, sorted) == FedBefore(hasher, Stream(fs, sorted[i..]))
    {
      var file := sorted[i];
      if !Exists(fs, file) {
        return None;
      }
      assert sorted[i..][1..] == sorted[i + 1..];
      PrependTwice(hasher, Contribution(file, NodeAt(fs, file)), Stream(fs, sorted[i + 1..]));
      match NodeAt(fs, file) {
        case Dir(entries) =>
          var entryPaths := FeedEntries(hasher, file, entries);
          hasher := entryPaths;
        case File(content) =>
          hasher := hasher + content;
      }
    }
    assert Stream(fs, sorted[|sorted|..]) == Some([]);
    assert hasher + [] == hasher;
    return Some(Digest(hasher));
  }

  /** The inner loop over `read_dir`. */
  method FeedEntries(hasher: seq<Byte>, dir: Path, entries: seq<Entry>) returns (fed: seq<Byte>)
    ensures fed == hasher + EntryStream(dir, entries)
  {
    fed := hasher;
    assert entries[0..] == entries;
    for j := 0 to |entries|
      invariant fed + EntryStream(dir, entries[j..]) == hasher + EntryStream(dir, entries)
    {
      assert entries[j..][1..] == entries[j + 1..];
      assert fed + (Join(dir, entries[j].name) + EntryStream(dir, entries[j + 1..])) ==
             fed + Join(dir, entries[j].name) + EntryStream(dir, entries[j + 1..]);
      fed := fed + Join(dir, entries[j].name);
    }
    assert fed + [] == fed;
  }

  lemma PrependNothing(r: Option<seq<Byte>>)
    ensures FedBefore([], r) == r
  {
    if r.Some? {
      assert [] + r.value == r.value;
    }
  }

  lemma PrependTwice(a: seq<Byte>, b: seq<Byte>, r: Option<seq<Byte>>)
    ensures FedBefore(a, FedBefore(b, r)) == FedBefore(a + b, r)
  {
    if r.Some? {
      assert a + (b + r.value) == a + b + r.value;
    }
  }

  // ---------- Order of the list ----------

  /** The digest of a list that names no path twice is the same for every order of the
      list, so neither set iteration at insert nor row order at lookup matters. */
  lemma HashIsOrderFree(fs: FileSystem, files: seq<Path>, other: seq<Path>)
    requires Unambiguous(files) && multiset(other) == multiset(files)
    ensures HashOf(fs, other) == HashOf(fs, files)
  {
    SortOfPermutation(files, other);
  }

  lemma {:induction false} StreamDefined(fs: FileSystem, files: seq<Path>)
    ensures Stream(fs, files).Some? <==> forall p | p in files :: Exists(fs, p)
  {
    if files != [] {
      StreamDefined(fs, files[1..]);
      assert files == [files[0]] + files[1..];
    }
  }

  lemma SortMembers(files: seq<Path>, p: Path)
    ensures p in SortPaths(files) <==> p in files
  {
    assert p in files <==> p in multiset(files);
    assert p in SortPaths(files) <==> p in multiset(SortPaths(files));
  }

  lemma HashDefined(fs: FileSystem, files: seq<Path>)
    ensures HashOf(fs, files).Some? <==> forall p | p in files :: Exists(fs, p)
  {
    StreamDefined(fs, SortPaths(files));
    forall p ensures p in SortPaths(files) <==> p in files { SortMembers(files, p); }
  }

  // ---------- Directories decode ----------

  lemma {:induction false} EntryStreamSnoc(dir: Path, entries: seq<Entry>, last: Entry)
    ensures EntryStream(dir, entries + [last]) == EntryStream(dir, entries) + Join(dir, last.name)
  {
    if entries == [] {
      assert entries + [last] == [last] && [last][1..] == [];
    } else {
      EntryStreamSnoc(dir, entries[1..], last);
      assert (entries + [last])[1..] == entries[1..] + [last];
      assert Join(dir, entries[0].name) + (EntryStream(dir, entries[1..]) + Join(dir, last.name)) ==
             Join(dir, entries[0].name) + EntryStream(dir, entries[1..]) + Join(dir, last.name);
    }
  }

  /** What follows the last slash is determined by the whole. */
  lemma LastName(a: seq<Byte>, m: Name, b: seq<Byte>, n: Name, sep: seq<Byte>)
    requires sep != [] && sep[|sep| - 1] == SLASH
    requires a + (sep + m) == b + (sep + n)
    ensures m == n && a == b
  {
    var s := a + (sep + m);
    var t := b + (sep + n);
    var i, j := |a| + |sep| - 1, |b| + |sep| - 1;
    assert s[i] == SLASH && t[j] == SLASH;
    assert s[i + 1..] == m && t[j + 1..] == n;
    assert a == s[..|a|] && b == t[..|b|];
  }

  ghost predicate SameNames(es: seq<Entry>, ds: seq<Entry>) {
    |es| == |ds| && forall i | 0 <= i < |es| :: es[i].name == ds[i].name
  }

  /** The undelimited stream of a directory's entry paths decodes uniquely into names. */
  lemma {:induction false} EntryStreamInjective(dir: Path, es: seq<Entry>, ds: seq<Entry>)
    requires dir != []
    ensures EntryStream(dir, es) == EntryStream(dir, ds) <==> SameNames(es, ds)
    decreases |es|
  {
    if es != [] && ds != [] {
      var e, f := es[|es| - 1], ds[|ds| - 1];
      var es', ds' := es[..|es| - 1], ds[..|ds| - 1];
      assert es == es' + [e] && ds == ds' + [f];
      EntryStreamSnoc(dir, es', e);
      EntryStreamSnoc(dir, ds', f);
      EntryStreamInjective(dir, es', ds');
      if EntryStream(dir, es) == EntryStream(dir, ds) {
        LastName(EntryStream(dir, es'), e.name, EntryStream(dir, ds'), f.name, WithSeparator(dir));
      }
      assert SameNames(es, ds) ==> SameNames(es', ds');
    } else {
      EntryStreamEmpty(dir, es);
      EntryStreamEmpty(dir, ds);
    }
  }

  lemma EntryStreamEmpty(dir: Path, es: seq<Entry>)
    ensures EntryStream(dir, es) == [] <==> es == []
  {
    if es != [] {
      assert |Join(dir, es[0].name)| >= |es[0].name| > 0;
    }
  }

  // ---------- Lists of inputs ----------

  /** A file is still a file and a directory a directory, and so are its entries in turn. */
  predicate SameKind(m: Node, n: Node) {
    match (m, n)
    case (File(_), File(_)) => true
    case (Dir(es), Dir(ds)) => |es| == |ds| && forall i | 0 <= i < |es| :: es[i].kind == ds[i].kind
    case _ => false
  }

  predicate SameShape(p: Path, m: Node, n: Node) {
    SameKind(m, n) && |Contribution(p, m)| == |Contribution(p, n)|
  }

  lemma ContributionInjective(p: Path, m: Node, n: Node)
    requires p != [] && SameKind(m, n) && Contribution(p, m) == Contribution(p, n)
    ensures m == n
  {
    if m.Dir? {
      EntryStreamInjective(p, m.entries, n.entries);
      assert forall i | 0 <= i < |m.entries| :: m.entries[i] == n.entries[i];
    }
  }

  ghost predicate AllExist(fs: FileSystem, files: seq<Path>) {
    forall p | p in files :: Exists(fs, p)
  }

  ghost predicate SameLengths(fs: FileSystem, fs': FileSystem, files: seq<Path>)
    requires AllExist(fs, files) && AllExist(fs', files)
  {
    forall p | p in files :: |Contribution(p, NodeAt(fs, p))| == |Contribution(p, NodeAt(fs', p))|
  }

  ghost predicate SameContributions(fs: FileSystem, fs': FileSystem, files: seq<Path>)
    requires AllExist(fs, files) && AllExist(fs', files)
  {
    forall p | p in files :: Contribution(p, NodeAt(fs, p)) == Contribution(p, NodeAt(fs', p))
  }

  ghost predicate SameShapes(fs: FileSystem, fs': FileSystem, files: seq<Path>)
    requires AllExist(fs, files) && AllExist(fs', files)
  {
    forall p | p in files :: SameShape(p, NodeAt(fs, p), NodeAt(fs', p))
  }

  ghost predicate SameNodes(fs: FileSystem, fs': FileSystem, files: seq<Path>)
    requires AllExist(fs, files) && AllExist(fs', files)
  {
    forall p | p in files :: NodeAt(fs, p) == NodeAt(fs', p)
  }

  lemma {:induction false} StreamPieces(fs: FileSystem, fs': FileSystem, files: seq<Path>)
    requires AllExist(fs, files) && AllExist(fs', files)
    requires SameLengths(fs, fs', files) && Stream(fs, files) == Stream(fs', files)
    ensures SameContributions(fs, fs', files)
  {
    StreamDefined(fs, files);
    StreamDefined(fs', files);
    if files != [] {
      var p, rest := files[0], files[1..];
      assert files == [p] + rest;
      var a, b := Contribution(p, NodeAt(fs, p)), Contribution(p, NodeAt(fs', p));
      var x, y := Stream(fs, rest).value, Stream(fs', rest).value;
      assert a + x == b + y && |a| == |b|;
      assert a == (a + x)[..|a|] && b == (b + y)[..|b|];
      assert x == (a + x)[|a|..] && y == (b + y)[|b|..];
      StreamPieces(fs, fs', rest);
    }
  }

  /** When a digest is unchanged, the inputs are unchanged exactly when each of them kept
      its kind, the kinds of its entries, and the length of what it feeds. */
  lemma EqualDigestMeaning(fs: FileSystem, fs': FileSystem, files: seq<Path>)
    requires AllExist(fs, files) && AllExist(fs', files)
    requires HashOf(fs, files) == HashOf(fs', files)
    ensures SameNodes(fs, fs', files) <==> SameShapes(fs, fs', files)
  {
    if SameShapes(fs, fs', files) {
      var sorted := SortPaths(files);
      forall p ensures p in sorted <==> p in files { SortMembers(files, p); }
      StreamDefined(fs, sorted);
      StreamDefined(fs', sorted);
      StreamPieces(fs, fs', sorted);
      forall p | p in files ensures NodeAt(fs, p) == NodeAt(fs', p) {
        assert p in sorted;
        ContributionInjective(p, NodeAt(fs, p), NodeAt(fs', p));
      }
    }
  }

  /** A single input needs only to keep its kind: nothing can shift past its ends. */
  lemma SingleInputDigest(fs: FileSystem, fs': FileSystem, p: Path)
    requires Exists(fs, p) && Exists(fs', p) && HashOf(fs, [p]) == HashOf(fs', [p])
    requires SameKind(NodeAt(fs, p), NodeAt(fs', p))
    ensures NodeAt(fs, p) == NodeAt(fs', p)
  {
    assert SortPaths([p]) == [p];
    PrependAll(fs, p);
    PrependAll(fs', p);
    ContributionInjective(p, NodeAt(fs, p), NodeAt(fs', p));
  }

  lemma PrependAll(fs: FileSystem, p: Path)
    requires Exists(fs, p)
    ensures Stream(fs, [p]) == Some(Contribution(p, NodeAt(fs, p)))
  {
    assert [p][1..] == [];
    assert Contribution(p, NodeAt(fs, p)) + [] == Contribution(p, NodeAt(fs, p));
  }

  /** With two files the digest does not see bytes move from the end of one to the start of
      the next: for every such pair of files and every non-empty `moved`, the contents
      differ and the digest does not. */
  lemma BoundaryShiftUnseen(p: Path, q: Path, x: seq<Byte>, moved: seq<Byte>, z: seq<Byte>, before: FileSystem, after: FileSystem)
    requires Exists(before, p) && Exists(before, q) && Exists(after, p) && Exists(after, q)
    requires !SamePath(p, q) && PathLeq(p, q) && moved != []
    requires NodeAt(before, p) == File(x + moved) && NodeAt(before, q) == File(z)
    requires NodeAt(after, p) == File(x) && NodeAt(after, q) == File(moved + z)
    ensures HashOf(before, [p, q]) == HashOf(after, [p, q])
    ensures !SameNodes(before, after, [p, q])
  {
    SortCons(p, [q]);
    assert [p] + [q] == [p, q] && SortPaths([q]) == [q];
    PrependAll(before, q);
    PrependAll(after, q);
    assert [p, q][1..] == [q];
    assert x + moved + z == x + (moved + z);
    assert p in [p, q];
    assert NodeAt(before, p) != NodeAt(after, p) by { assert |x + moved| != |x|; }
  }

  /** The digest does not see an entry of a listed directory turn from one kind into another,
      a file into a directory say. */
  lemma EntryKindUnseen(d: Path, entries: seq<Entry>, i: nat, kind: EntryKind, before: FileSystem, after: FileSystem)
    requires i < |entries| && entries[i].kind != kind
    requires Exists(before, d) && NodeAt(before, d) == Dir(entries)
    requires Exists(after, d) && NodeAt(after, d) == Dir(entries[i := Entry(entries[i].name, kind)])
    ensures HashOf(before, [d]) == HashOf(after, [d])
    ensures !SameNodes(before, after, [d])
  {
    PrependAll(before, d);
    PrependAll(after, d);
    var entries' := entries[i := Entry(entries[i].name, kind)];
    EntryStreamInjective(d, entries, entries');
    assert SortPaths([d]) == [d];
    assert d in [d] && entries'[i] != entries[i];
  }

  /** Nor a file that spells out the entry path of the directory put in its place. */
  lemma FileForDirectoryUnseen(p: Path, entry: Entry, before: FileSystem, after: FileSystem)
    requires Exists(before, p) && NodeAt(before, p) == File(Join(p, entry.name))
    requires Exists(after, p) && NodeAt(after, p) == Dir([entry])
    ensures HashOf(before, [p]) == HashOf(after, [p])
    ensures !SameNodes(before, after, [p])
  {
    PrependAll(before, p);
    PrependAll(after, p);
    EntryStreamSnoc(p, [], entry);
    assert [] + [entry] == [entry] && [] + Join(p, entry.name) == Join(p, entry.name);
    assert SortPaths([p]) == [p];
    assert p in [p];
  }
}
