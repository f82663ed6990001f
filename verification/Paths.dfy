/** Unix paths as Rust's `std::path` sees them: raw bytes, compared component by component.
    `PathBuf` equality, hashing and ordering all go through components, so `a//b`, `a/./b`
    and `a/b/` are one and the same key. */
module Paths {

  type Byte = b: int | 0 <= b < 256

  type Path = seq<Byte>

  const SLASH: Byte := 47
  const DOT: Byte := 46

  /** A file name inside a directory: not empty and without a slash. */
  type Name = n: Path | n != [] && SLASH !in n witness [DOT]

  datatype Component = RootDir | CurDir | ParentDir | Normal(name: Path)

  /** The pieces between slashes. */
  function Segments(p: Path): (r: seq<Path>)
    ensures r != []
  {
    if p == [] then [[]]
    else if p[0] == SLASH then [[]] + Segments(p[1..])
    else
      var rest := Segments(p[1..]);
      [[p[0]] + rest[0]] + rest[1..]
  }

  /** Empty and `.` segments vanish, except for a leading `.`, handled by `Components`. */
  function BodyComponents(segments: seq<Path>): seq<Component> {
    if segments == [] then []
    else
      var rest := BodyComponents(segments[1..]);
      if segments[0] == [] || segments[0] == [DOT] then rest
      else if segments[0] == [DOT, DOT] then [ParentDir] + rest
      else [Normal(segments[0])] + rest
  }

  function Components(p: Path): seq<Component> {
    var segments := Segments(p);
    if p != [] && p[0] == SLASH then [RootDir] + BodyComponents(segments)
    else if segments[0] == [DOT] then [CurDir] + BodyComponents(segments)
    else BodyComponents(segments)
  }

  /** `PathBuf::eq` */
  predicate SamePath(p: Path, q: Path) {
    Components(p) == Components(q)
  }

  /** `Path::starts_with` */
  predicate StartsWith(p: Path, base: Path) {
    Components(base) <= Components(p)
  }

  /** `dir.join("")`: the directory with a separator after it, unless it has one or is empty. */
  function WithSeparator(dir: Path): Path {
    if dir == [] || dir[|dir| - 1] == SLASH then dir else dir + [SLASH]
  }

  /** `Path::join` with a file name. */
  function Join(dir: Path, name: Path): Path {
    WithSeparator(dir) + name
  }

  lemma {:induction false} SegmentsOfJoin(p: Path, name: Path)
    requires SLASH !in name
    ensures Segments(p + [SLASH] + name) == Segments(p) + [name]
  {
    var all := p + [SLASH] + name;
    if p == [] {
      assert all[0] == SLASH && all[1..] == name;
      SegmentsOfName(name);
    } else {
      assert all[1..] == p[1..] + [SLASH] + name;
      SegmentsOfJoin(p[1..], name);
      var rest := Segments(p[1..]);
      assert (rest + [name])[1..] == rest[1..] + [name];
    }
  }

  lemma {:induction false} SegmentsOfName(name: Path)
    requires SLASH !in name
    ensures Segments(name) == [name]
  {
    if name != [] {
      SegmentsOfName(name[1..]);
      assert name == [name[0]] + name[1..];
    }
  }

  lemma {:induction false} BodyAppend(a: seq<Path>, b: seq<Path>)
    ensures BodyComponents(a + b) == BodyComponents(a) + BodyComponents(b)
  {
    if a == [] {
      assert a + b == b;
    } else {
      assert (a + b)[1..] == a[1..] + b;
      BodyAppend(a[1..], b);
    }
  }

  lemma NoSegment()
    ensures BodyComponents([[]]) == []
  {
    var none: seq<Path> := [[]];
    assert none[1..] == [];
  }

  /** A trailing separator makes no difference to a path. */
  lemma SeparatorIgnored(dir: Path)
    ensures Components(WithSeparator(dir)) == Components(dir)
  {
    if WithSeparator(dir) != dir {
      assert dir + [SLASH] + [] == dir + [SLASH];
      SegmentsOfJoin(dir, []);
      BodyAppend(Segments(dir), [[]]);
      NoSegment();
      assert (Segments(dir) + [[]])[0] == Segments(dir)[0];
    }
  }

  /** What any name adds to a directory's components: `.` nothing, unless it stands alone. */
  function Added(dir: Path, name: Name): seq<Component> {
    if name == [46, 46] then [ParentDir]
    else if name != [46] then [Normal(name)]
    else if dir == [] then [CurDir]
    else []
  }

  lemma BodyOfName(name: Name)
    ensures BodyComponents([name]) == if name == [46, 46] then [ParentDir] else if name == [46] then [] else [Normal(name)]
  {
    assert [name][1..] == [];
  }

  lemma ComponentsOfNameAlone(name: Name)
    ensures Components(name) == Added([], name)
  {
    BodyOfName(name);
    SegmentsOfName(name);
    assert name[0] != SLASH;
  }

  lemma ComponentsBeforeSlash(d: Path)
    ensures Components(d + [SLASH]) == if d == [] then [RootDir] else Components(d)
  {
    assert d + [SLASH] + [] == d + [SLASH];
    SegmentsOfJoin(d, []);
    BodyAppend(Segments(d), [[]]);
    NoSegment();
    assert (Segments(d) + [[]])[0] == Segments(d)[0];
    assert d == [] ==> Segments(d) == [[]];
  }

  lemma ComponentsBehindSlash(d: Path, name: Name)
    ensures Components(d + [SLASH] + name) == Components(d + [SLASH]) + Added([SLASH], name)
  {
    SegmentsOfJoin(d, name);
    BodyAppend(Segments(d), [name]);
    BodyOfName(name);
    ComponentsBeforeSlash(d);
    assert (Segments(d) + [name])[0] == Segments(d)[0];
    assert d == [] ==> Segments(d) == [[]];
    NoSegment();
  }

  /** Joining a name: `..` is a component of its own and is not resolved, `.` adds nothing
      unless it stands alone, any other name adds itself. */
  lemma ComponentsOfAnyJoin(dir: Path, name: Name)
    ensures Components(Join(dir, name)) == Components(dir) + Added(dir, name)
  {
    if dir == [] {
      ComponentsOfRoots();
      ComponentsOfNameAlone(name);
      assert Join(dir, name) == name && [] + Added(dir, name) == Added(dir, name);
    } else {
      var d := if dir[|dir| - 1] == SLASH then dir[..|dir| - 1] else dir;
      assert Join(dir, name) == d + [SLASH] + name;
      assert dir == d || dir == d + [SLASH];
      ComponentsBehindSlash(d, name);
      ComponentsBeforeSlash(d);
    }
  }

  /** An entry of a directory has the directory's components and its own name after them. */
  lemma ComponentsOfJoin(dir: Path, name: Name)
    requires name != [DOT] && name != [DOT, DOT]
    ensures Components(Join(dir, name)) == Components(dir) + [Normal(name)]
  {
    ComponentsOfAnyJoin(dir, name);
  }

  /** The two paths without a name in them. */
  lemma ComponentsOfRoots()
    ensures Components([]) == [] && Components([SLASH]) == [RootDir]
  {
    NoSegment();
    SegmentsOfName([]);
    ComponentsBeforeSlash([]);
    assert [] + [SLASH] == [SLASH];
  }

  // ---------- Path order ----------

  predicate BytesLeq(a: Path, b: Path) {
    a == [] || (b != [] && (a[0] < b[0] || (a[0] == b[0] && BytesLeq(a[1..], b[1..]))))
  }

  function Rank(c: Component): nat {
    match c
    case RootDir => 0
    case CurDir => 1
    case ParentDir => 2
    case Normal(_) => 3
  }

  predicate ComponentLeq(a: Component, b: Component) {
    if a.Normal? && b.Normal? then BytesLeq(a.name, b.name) else Rank(a) <= Rank(b)
  }

  predicate ComponentsLeq(a: seq<Component>, b: seq<Component>) {
    a == [] || (b != [] && (if a[0] == b[0] then ComponentsLeq(a[1..], b[1..]) else ComponentLeq(a[0], b[0])))
  }

  /** `PathBuf::cmp` */
  predicate PathLeq(p: Path, q: Path) {
    ComponentsLeq(Components(p), Components(q))
  }

  lemma {:induction false} BytesOrder(a: Path, b: Path, c: Path)
    ensures BytesLeq(a, b) || BytesLeq(b, a)
    ensures BytesLeq(a, b) && BytesLeq(b, a) ==> a == b
    ensures BytesLeq(a, b) && BytesLeq(b, c) ==> BytesLeq(a, c)
  {
    if a != [] && b != [] {
      BytesOrder(a[1..], b[1..], if c == [] then [] else c[1..]);
      assert a == [a[0]] + a[1..] && b == [b[0]] + b[1..];
    }
  }

  lemma ComponentOrder(a: Component, b: Component, c: Component)
    ensures ComponentLeq(a, b) || ComponentLeq(b, a)
    ensures ComponentLeq(a, b) && ComponentLeq(b, a) ==> a == b
    ensures ComponentLeq(a, b) && ComponentLeq(b, c) ==> ComponentLeq(a, c)
  {
    if a.Normal? && b.Normal? {
      BytesOrder(a.name, b.name, if c.Normal? then c.name else []);
    }
  }

  lemma {:induction false} ComponentsOrder(a: seq<Component>, b: seq<Component>, c: seq<Component>)
    ensures ComponentsLeq(a, b) || ComponentsLeq(b, a)
    ensures ComponentsLeq(a, b) && ComponentsLeq(b, a) ==> a == b
    ensures ComponentsLeq(a, b) && ComponentsLeq(b, c) ==> ComponentsLeq(a, c)
  {
    if a != [] && b != [] {
      ComponentOrder(a[0], b[0], if c == [] then RootDir else c[0]);
      ComponentsOrder(a[1..], b[1..], if c == [] then [] else c[1..]);
      assert a == [a[0]] + a[1..] && b == [b[0]] + b[1..];
      if c != [] { ComponentOrder(b[0], c[0], a[0]); }
    }
  }

  /** The order on paths is total and transitive, and ties are exactly the equal paths. */
  lemma PathOrder(p: Path, q: Path, r: Path)
    ensures PathLeq(p, q) || PathLeq(q, p)
    ensures PathLeq(p, q) && PathLeq(q, p) <==> SamePath(p, q)
    ensures PathLeq(p, q) && PathLeq(q, r) ==> PathLeq(p, r)
  {
    ComponentsOrder(Components(p), Components(q), Components(r));
    ComponentsOrder(Components(p), Components(p), Components(p));
  }

  /** The shorter one of two texts that begin alike first, else the one with the smaller
      byte at the first difference. */
  ghost predicate FirstDifferenceSmaller(a: Path, b: Path) {
    a <= b || exists i :: 0 <= i < |a| && i < |b| && a[..i] == b[..i] && a[i] < b[i]
  }

  lemma {:induction false} BytesLeqMeaning(a: Path, b: Path)
    ensures BytesLeq(a, b) <==> FirstDifferenceSmaller(a, b)
  {
    if a != [] && b != [] && a[0] == b[0] {
      BytesLeqMeaning(a[1..], b[1..]);
      assert a <= b <==> a[1..] <= b[1..];
      if i :| 0 <= i < |a| && i < |b| && a[..i] == b[..i] && a[i] < b[i] {
        assert a[1..][..i - 1] == a[..i][1..] && b[1..][..i - 1] == b[..i][1..];
        assert a[1..][i - 1] < b[1..][i - 1];
      }
      if i :| 0 <= i < |a[1..]| && i < |b[1..]| && a[1..][..i] == b[1..][..i] && a[1..][i] < b[1..][i] {
        assert a[..i + 1] == [a[0]] + a[1..][..i] && b[..i + 1] == [b[0]] + b[1..][..i];
        assert a[i + 1] < b[i + 1];
      }
    } else if a != [] && b != [] && a[0] < b[0] {
      assert a[..0] == b[..0];
    }
  }

  lemma {:induction false} ComponentsLeqBehind(front: seq<Component>, a: seq<Component>, b: seq<Component>)
    ensures ComponentsLeq(front + a, front + b) <==> ComponentsLeq(a, b)
  {
    if front == [] {
      assert front + a == a && front + b == b;
    } else {
      assert (front + a)[1..] == front[1..] + a && (front + b)[1..] == front[1..] + b;
      ComponentsLeqBehind(front[1..], a, b);
    }
  }

  /** Which way the order goes: a directory before its entries, `..` before names, and the
      entries of one directory by the bytes of their names. */
  lemma EntryOrder(dir: Path, m: Name, n: Name)
    requires m != [DOT] && n != [DOT] && m != [DOT, DOT] && n != [DOT, DOT]
    ensures PathLeq(dir, Join(dir, n)) && !PathLeq(Join(dir, n), dir)
    ensures PathLeq(Join(dir, [DOT, DOT]), Join(dir, n)) && !PathLeq(Join(dir, n), Join(dir, [DOT, DOT]))
    ensures PathLeq(Join(dir, m), Join(dir, n)) <==> FirstDifferenceSmaller(m, n)
  {
    var cs := Components(dir);
    ComponentsOfAnyJoin(dir, m);
    ComponentsOfAnyJoin(dir, n);
    ComponentsOfAnyJoin(dir, [DOT, DOT]);
    assert cs + [] == cs;
    ComponentsLeqBehind(cs, [], [Normal(n)]);
    ComponentsLeqBehind(cs, [Normal(n)], []);
    ComponentsLeqBehind(cs, [ParentDir], [Normal(n)]);
    ComponentsLeqBehind(cs, [Normal(n)], [ParentDir]);
    ComponentsLeqBehind(cs, [Normal(m)], [Normal(n)]);
    BytesLeqMeaning(m, n);
    BytesLeqMeaning(n, n);
    assert [Normal(m)][1..] == [];
  }

  /** Absolute paths go before relative ones. */
  lemma AbsoluteFirst(p: Path, q: Path)
    requires p != [] && p[0] == SLASH && q != [] && q[0] != SLASH
    ensures PathLeq(p, q) && !PathLeq(q, p)
  {
    assert Segments(q)[0][0] == q[0];
    assert Components(p)[0] == RootDir && Components(q) != [] && Components(q)[0] != RootDir;
  }

  // ---------- Sorting ----------

  /** A path goes before the first one that is not smaller, as in a stable sort taking
      its input from the back. */
  function Insert(p: Path, sorted: seq<Path>): (r: seq<Path>)
    ensures multiset(r) == multiset([p]) + multiset(sorted)
  {
    if sorted == [] || PathLeq(p, sorted[0]) then [p] + sorted
    else
      assert sorted == [sorted[0]] + sorted[1..];
      [sorted[0]] + Insert(p, sorted[1..])
  }

  /** `files.sort()`, a stable sort. */
  function SortPaths(files: seq<Path>): (r: seq<Path>)
    ensures multiset(r) == multiset(files)
  {
    if files == [] then []
    else
      assert files == [files[0]] + files[1..];
      Insert(files[0], SortPaths(files[1..]))
  }

  ghost predicate Ascending(s: seq<Path>) {
    forall i, j | 0 <= i < j < |s| :: PathLeq(s[i], s[j])
  }

  lemma {:induction false} InsertAscending(p: Path, s: seq<Path>)
    requires Ascending(s)
    ensures Ascending(Insert(p, s))
  {
    if s == [] {
    } else if PathLeq(p, s[0]) {
      forall i | 0 <= i < |s| ensures PathLeq(p, s[i]) {
        PathOrder(p, s[0], s[i]);
        PathOrder(s[0], s[0], s[0]);
      }
    } else {
      var r := Insert(p, s[1..]);
      InsertAscending(p, s[1..]);
      forall i | 0 <= i < |r| ensures PathLeq(s[0], r[i]) {
        PathOrder(p, s[0], s[0]);
        assert r[i] in multiset(r);
        if r[i] != p {
          assert r[i] in multiset(s[1..]);
          var j :| 0 <= j < |s[1..]| && s[1..][j] == r[i];
          assert s[j + 1] == r[i];
        }
      }
    }
  }

  lemma {:induction false} SortAscending(files: seq<Path>)
    ensures Ascending(SortPaths(files))
  {
    if files != [] {
      SortAscending(files[1..]);
      InsertAscending(files[0], SortPaths(files[1..]));
    }
  }

  /** No two spellings of one path. What a `HashSet<PathBuf>` holds is always such. */
  ghost predicate Unambiguous(files: seq<Path>) {
    forall p, q | p in files && q in files && SamePath(p, q) :: p == q
  }

  lemma FirstIsLeast(s: seq<Path>, p: Path)
    requires Ascending(s) && p in s
    ensures PathLeq(s[0], p)
  {
    var i :| 0 <= i < |s| && s[i] == p;
    if i == 0 {
      PathOrder(p, p, p);
    }
  }

  lemma HeadsAgree(s: seq<Path>, t: seq<Path>)
    requires Ascending(s) && Ascending(t) && multiset(s) == multiset(t) && Unambiguous(s) && s != [] && t != []
    ensures s[0] == t[0]
  {
    assert s[0] in multiset(t) && t[0] in multiset(s);
    FirstIsLeast(s, t[0]);
    FirstIsLeast(t, s[0]);
    PathOrder(s[0], t[0], t[0]);
  }

  lemma TailMultiset(s: seq<Path>)
    requires s != []
    ensures multiset(s[1..]) == multiset(s) - multiset{s[0]}
  {
    assert s == [s[0]] + s[1..];
  }

  lemma {:induction false} SortedUnique(s: seq<Path>, t: seq<Path>)
    requires Ascending(s) && Ascending(t) && multiset(s) == multiset(t) && Unambiguous(s)
    ensures s == t
  {
    assert |multiset(s)| == |s| && |multiset(t)| == |t|;
    if s != [] {
      HeadsAgree(s, t);
      TailMultiset(s);
      TailMultiset(t);
      TailKeeps(s);
      TailKeeps(t);
      SortedUnique(s[1..], t[1..]);
      assert s == [s[0]] + s[1..] && t == [t[0]] + t[1..];
    }
  }

  lemma TailKeeps(s: seq<Path>)
    requires s != []
    ensures Ascending(s) ==> Ascending(s[1..])
    ensures Unambiguous(s) ==> Unambiguous(s[1..])
  {
    assert forall i | 0 <= i < |s[1..]| :: s[1..][i] == s[i + 1];
  }

  lemma {:induction false} InsertedTwinsDiffer(p: Path, q: Path, s: seq<Path>)
    requires SamePath(p, q) && p != q
    ensures Insert(p, Insert(q, s)) != Insert(q, Insert(p, s))
  {
    PathOrder(p, q, q);
    if s == [] || PathLeq(p, s[0]) {
      assert Insert(p, Insert(q, s))[0] == p;
      assert Insert(q, Insert(p, s))[0] == q;
    } else {
      InsertedTwinsDiffer(p, q, s[1..]);
      var a, b := Insert(p, s[1..]), Insert(q, s[1..]);
      assert Insert(p, Insert(q, s))[1..] == Insert(p, b);
      assert Insert(q, Insert(p, s))[1..] == Insert(q, a);
    }
  }

  lemma SortOfPermutation(files: seq<Path>, other: seq<Path>)
    requires Unambiguous(files) && multiset(other) == multiset(files)
    ensures SortPaths(other) == SortPaths(files)
  {
    var s := SortPaths(files);
    SortAscending(files);
    SortAscending(other);
    forall p, q | p in s && q in s && SamePath(p, q) ensures p == q {
      assert p in multiset(s) && q in multiset(s);
      assert p in multiset(files) && q in multiset(files);
    }
    SortedUnique(s, SortPaths(other));
  }

  lemma SortCons(p: Path, rest: seq<Path>)
    ensures SortPaths([p] + rest) == Insert(p, SortPaths(rest))
  {
    assert ([p] + rest)[1..] == rest;
  }

  lemma SortOfTwins(p: Path, q: Path, rest: seq<Path>)
    requires SamePath(p, q) && p != q
    ensures SortPaths([p] + ([q] + rest)) != SortPaths([q] + ([p] + rest))
  {
    SortCons(p, rest);
    SortCons(q, rest);
    SortCons(p, [q] + rest);
    SortCons(q, [p] + rest);
    InsertedTwinsDiffer(p, q, SortPaths(rest));
  }

  ghost predicate OrderFree(files: seq<Path>) {
    forall other | multiset(other) == multiset(files) :: SortPaths(other) == SortPaths(files)
  }

  lemma AmbiguousOrders(files: seq<Path>) returns (a: seq<Path>, b: seq<Path>)
    requires !Unambiguous(files)
    ensures multiset(a) == multiset(files) == multiset(b)
    ensures SortPaths(a) != SortPaths(b)
  {
    var p, q :| p in files && q in files && SamePath(p, q) && p != q;
    var rest := PickTwo(files, p, q);
    SortOfTwins(p, q, rest);
    a, b := [p] + ([q] + rest), [q] + ([p] + rest);
  }

  /** Sorting forgets the order of its input exactly when no path is spelled two ways. */
  lemma SortIsOrderFree(files: seq<Path>)
    ensures Unambiguous(files) <==> OrderFree(files)
  {
    if Unambiguous(files) {
      forall other | multiset(other) == multiset(files) ensures SortPaths(other) == SortPaths(files) {
        SortOfPermutation(files, other);
      }
    } else {
      var a, b := AmbiguousOrders(files);
    }
  }

  lemma PickTwo(files: seq<Path>, p: Path, q: Path) returns (rest: seq<Path>)
    requires p in files && q in files && p != q
    ensures multiset([p] + ([q] + rest)) == multiset(files)
    ensures multiset([q] + ([p] + rest)) == multiset(files)
  {
    var some := RemoveOne(files, p);
    assert q in multiset(files) && q in multiset([p] + some);
    rest := RemoveOne(some, q);
  }

  lemma RemoveOne(files: seq<Path>, p: Path) returns (rest: seq<Path>)
    requires p in files
    ensures multiset([p] + rest) == multiset(files)
  {
    var i :| 0 <= i < |files| && files[i] == p;
    rest := files[..i] + files[i + 1..];
    assert files == files[..i] + ([files[i]] + files[i + 1..]);
  }
}
