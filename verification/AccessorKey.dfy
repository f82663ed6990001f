/** The accessor part of a cache key: attribute names joined with dots. */
module AccessorKey {

  /** `accessor_path.join(".")` */
  function JoinDots(names: seq<string>): string {
    if names == [] then ""
    else if |names| == 1 then names[0]
    else names[0] + "." + JoinDots(names[1..])
  }

  /** The names a key reads as: what lies between its dots; none for the empty key. */
  function Names(key: string): seq<string> {
    if key == "" then [] else SplitDots(key)
  }

  function SplitDots(key: string): (names: seq<string>)
    ensures names != []
  {
    if key == "" then [""]
    else if key[0] == '.' then [""] + SplitDots(key[1..])
    else
      var rest := SplitDots(key[1..]);
      [[key[0]] + rest[0]] + rest[1..]
  }

  ghost predicate DotFree(names: seq<string>) {
    forall i | 0 <= i < |names| :: '.' !in names[i]
  }

  lemma {:induction false} SplitOfName(name: string, rest: string)
    requires '.' !in name
    ensures SplitDots(name) == [name]
    ensures SplitDots(name + "." + rest) == [name] + SplitDots(rest)
  {
    var key := name + "." + rest;
    if name == "" {
      assert key[0] == '.' && key[1..] == rest;
    } else {
      SplitOfName(name[1..], rest);
      assert key[1..] == name[1..] + "." + rest;
      assert [name[0]] + name[1..] == name;
      var tail := SplitDots(rest);
      assert ([name[1..]] + tail)[1..] == tail;
      assert SplitDots(key[1..]) == [name[1..]] + tail;
    }
  }

  lemma {:induction false} SplitOfJoin(names: seq<string>)
    requires names != [] && DotFree(names)
    ensures SplitDots(JoinDots(names)) == names
  {
    if |names| == 1 {
      SplitOfName(names[0], "");
      assert names == [names[0]];
    } else {
      SplitOfJoin(names[1..]);
      SplitOfName(names[0], JoinDots(names[1..]));
      assert names == [names[0]] + names[1..];
    }
  }

  lemma {:induction false} SplitIsDotFree(key: string)
    ensures DotFree(SplitDots(key))
    ensures SplitDots(key) == [""] ==> key == ""
    ensures JoinDots(SplitDots(key)) == key
  {
    if key != "" {
      SplitIsDotFree(key[1..]);
      var rest := SplitDots(key[1..]);
      assert key == [key[0]] + key[1..];
      if key[0] == '.' {
        assert ([""] + rest)[1..] == rest;
      } else {
        var names := SplitDots(key);
        assert names[1..] == rest[1..];
        if |rest| == 1 {
          assert rest == [rest[0]];
        } else {
          assert [key[0]] + (rest[0] + "." + JoinDots(rest[1..])) == [key[0]] + rest[0] + "." + JoinDots(rest[1..]);
        }
      }
    }
  }

  /** The names a key can be recovered from. */
  ghost predicate Plain(names: seq<string>) {
    DotFree(names) && names != [""]
  }

  /** Joining loses nothing exactly for the plain lists. */
  lemma JoinIsReversible(names: seq<string>)
    ensures Names(JoinDots(names)) == names <==> Plain(names)
  {
    var key := JoinDots(names);
    if Plain(names) && names != [] {
      SplitOfJoin(names);
    }
    SplitIsDotFree(key);
  }

  /** Equal keys mean equal accessor paths, in every insert and lookup with plain names. */
  lemma JoinIsInjective(a: seq<string>, b: seq<string>)
    requires Plain(a) && Plain(b) && JoinDots(a) == JoinDots(b)
    ensures a == b
  {
    JoinIsReversible(a);
    JoinIsReversible(b);
  }

  /** Every key is the key of exactly the names it reads as. */
  lemma KeysAreJoins(key: string)
    ensures JoinDots(Names(key)) == key
  {
    SplitIsDotFree(key);
  }

  /** A dotted name and the path it looks like share a key, whatever the two halves are. */
  lemma DottedNameCollides(a: string, b: string)
    ensures JoinDots([a + "." + b]) == JoinDots([a, b])
    ensures [a + "." + b] != [a, b]
  {
    assert [a, b][1..] == [b];
  }
}
