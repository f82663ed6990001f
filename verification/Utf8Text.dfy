/** Output text as UTF-8 bytes, and `str::trim`. */
module Utf8Text {
  import opened Paths

  type Text = seq<Byte>

  // The characters with the Unicode White_Space property, by the length of their encoding.

  predicate IsAsciiSpace(a: Byte) {
    9 <= a <= 13 || a == 32
  }

  predicate IsTwoByteSpace(a: Byte, b: Byte) {
    a == 0xC2 && (b == 0x85 || b == 0xA0)
  }

  predicate IsWideSpace(a: Byte, b: Byte, c: Byte) {
    || (a == 0xE1 && b == 0x9A && c == 0x80)
    || (a == 0xE2 && b == 0x80 && (0x80 <= c <= 0x8A || c == 0xA8 || c == 0xA9 || c == 0xAF))
    || (a == 0xE2 && b == 0x81 && c == 0x9F)
    || (a == 0xE3 && b == 0x80 && c == 0x80)
  }

  /** Length of the white-space character these bytes start with, 0 when there is none. */
  function SpaceAt(s: Text): (n: nat)
    ensures n <= 3 && n <= |s|
  {
    if |s| >= 1 && IsAsciiSpace(s[0]) then 1
    else if |s| >= 2 && IsTwoByteSpace(s[0], s[1]) then 2
    else if |s| >= 3 && IsWideSpace(s[0], s[1], s[2]) then 3
    else 0
  }

  /** The same at the end. */
  function SpaceBefore(s: Text): (n: nat)
    ensures n <= 3 && n <= |s|
  {
    var m := |s|;
    if m >= 1 && IsAsciiSpace(s[m - 1]) then 1
    else if m >= 2 && IsTwoByteSpace(s[m - 2], s[m - 1]) then 2
    else if m >= 3 && IsWideSpace(s[m - 3], s[m - 2], s[m - 1]) then 3
    else 0
  }

  function TrimStart(s: Text): (r: Text)
    ensures SpaceAt(r) == 0 && |r| <= |s|
  {
    if SpaceAt(s) == 0 then s else TrimStart(s[SpaceAt(s)..])
  }

  function TrimEnd(s: Text): (r: Text)
    ensures SpaceBefore(r) == 0 && r <= s
  {
    if SpaceBefore(s) == 0 then s else TrimEnd(s[..|s| - SpaceBefore(s)])
  }

  function Trim(s: Text): Text {
    TrimEnd(TrimStart(s))
  }

  /** White space and nothing else. */
  ghost predicate AllSpace(s: Text) {
    s == [] || (SpaceAt(s) > 0 && AllSpace(s[SpaceAt(s)..]))
  }

  lemma NoSpaceInPrefix(r: Text, s: Text)
    requires r <= s && SpaceAt(s) == 0
    ensures SpaceAt(r) == 0
  {
  }

  lemma SpaceAlone(s: Text)
    requires SpaceAt(s) > 0
    ensures SpaceAt(s[..SpaceAt(s)]) == SpaceAt(s)
  {
  }

  lemma SpaceThenSpace(space: Text, rest: Text)
    requires SpaceAt(space) == |space| > 0 && AllSpace(rest)
    ensures AllSpace(space + rest)
  {
    assert SpaceAt(space + rest) == |space|;
    assert (space + rest)[|space|..] == rest;
  }

  lemma {:induction false} TrimStartTakes(s: Text) returns (a: Text)
    ensures s == a + TrimStart(s) && AllSpace(a)
  {
    var n := SpaceAt(s);
    if n == 0 {
      a := [];
    } else {
      var a' := TrimStartTakes(s[n..]);
      SpaceAlone(s);
      SpaceThenSpace(s[..n], a');
      a := s[..n] + a';
      JoinsUp(s, s[..n], a', TrimStart(s));
    }
  }

  lemma JoinsUp(s: Text, x: Text, y: Text, z: Text)
    requires |x| <= |s| && x == s[..|x|] && s[|x|..] == y + z
    ensures s == x + y + z
  {
  }

  lemma LastSpace(s: Text)
    requires SpaceBefore(s) > 0
    ensures SpaceAt(s[|s| - SpaceBefore(s)..]) == SpaceBefore(s)
  {
  }

  lemma MoveOver(s: Text, n: nat, taken: Text)
    requires n <= |s|
    ensures s[..|s| - n] + (s[|s| - n..] + taken) == s + taken
  {
  }

  lemma {:induction false} TrimEndTakes(s: Text, taken: Text) returns (b: Text)
    requires AllSpace(taken)
    ensures s + taken == TrimEnd(s) + b && AllSpace(b)
    decreases |s|
  {
    var n := SpaceBefore(s);
    if n == 0 {
      b := taken;
    } else {
      var front, space := s[..|s| - n], s[|s| - n..];
      LastSpace(s);
      SpaceThenSpace(space, taken);
      b := TrimEndTakes(front, space + taken);
      MoveOver(s, n, taken);
    }
  }

  ghost predicate PaddedWithSpace(s: Text, core: Text) {
    exists a, b :: AllSpace(a) && AllSpace(b) && s == a + (core + b)
  }

  /** Trimming takes white space off both ends, and nothing else. */
  lemma TrimMeaning(s: Text)
    ensures PaddedWithSpace(s, Trim(s))
  {
    var a := TrimStartTakes(s);
    var b := TrimEndTakes(TrimStart(s), []);
    assert TrimStart(s) + [] == TrimStart(s);
  }

  /** It takes off all of it. */
  lemma TrimLeavesNone(s: Text)
    ensures SpaceAt(Trim(s)) == 0 && SpaceBefore(Trim(s)) == 0
  {
    NoSpaceInPrefix(Trim(s), TrimStart(s));
  }

  /** A trimmed text stays as it is, so a hit and the miss it repeats agree up to `trim`. */
  lemma TrimIsIdempotent(s: Text)
    ensures Trim(Trim(s)) == Trim(s)
  {
    NoSpaceInPrefix(Trim(s), TrimStart(s));
  }

  // ---------- In code points ----------

  /** A Unicode scalar value. */
  type Scalar = c: int | 0 <= c < 0xD800 || 0xE000 <= c < 0x11_0000

  /** The White_Space property (Unicode Character Database, PropList). */
  predicate IsWhiteSpace(c: Scalar) {
    || 9 <= c <= 13 || c == 32 || c == 0x85 || c == 0xA0 || c == 0x1680 || 0x2000 <= c <= 0x200A
    || c == 0x2028 || c == 0x2029 || c == 0x202F || c == 0x205F || c == 0x3000
  }

  /** UTF-8 (RFC 3629, section 3). */
  function Utf8(c: Scalar): Text {
    if c < 0x80 then [c]
    else if c < 0x800 then [0xC0 + c / 64, 0x80 + c % 64]
    else if c < 0x1_0000 then [0xE0 + c / 4096, 0x80 + c / 64 % 64, 0x80 + c % 64]
    else [0xF0 + c / 262144, 0x80 + c / 4096 % 64, 0x80 + c / 64 % 64, 0x80 + c % 64]
  }

  function Encode(cs: seq<Scalar>): Text {
    if cs == [] then [] else Utf8(cs[0]) + Encode(cs[1..])
  }

  lemma {:induction false} EncodeAppend(cs: seq<Scalar>, ds: seq<Scalar>)
    ensures Encode(cs + ds) == Encode(cs) + Encode(ds)
  {
    if cs == [] {
      assert cs + ds == ds && Encode(cs) + Encode(ds) == Encode(ds);
    } else {
      assert (cs + ds)[1..] == cs[1..] + ds;
      EncodeAppend(cs[1..], ds);
      assert Utf8(cs[0]) + (Encode(cs[1..]) + Encode(ds)) == Utf8(cs[0]) + Encode(cs[1..]) + Encode(ds);
    }
  }

  lemma EncodeOne(c: Scalar)
    ensures Encode([c]) == Utf8(c)
  {
    assert [c][1..] == [] && Utf8(c) + [] == Utf8(c);
  }

  lemma TwoBytes(c: Scalar)
    requires 0x80 <= c < 0x800
    ensures IsTwoByteSpace(Utf8(c)[0], Utf8(c)[1]) <==> IsWhiteSpace(c)
  {
    assert c == 64 * (c / 64) + c % 64;
  }

  lemma ThreeBytes(c: Scalar)
    requires 0x800 <= c < 0x1_0000
    ensures IsWideSpace(Utf8(c)[0], Utf8(c)[1], Utf8(c)[2]) <==> IsWhiteSpace(c)
  {
    var high, middle, low := c / 4096, c / 64 % 64, c % 64;
    assert c == 4096 * high + 64 * middle + low;
  }

  /** A text starts with white space exactly when its first character is of the property. */
  lemma SpaceAtPoint(c: Scalar, rest: Text)
    ensures SpaceAt(Utf8(c) + rest) == if IsWhiteSpace(c) then |Utf8(c)| else 0
  {
    var s := Utf8(c) + rest;
    assert s[0] == Utf8(c)[0];
    if 0x80 <= c { assert s[1] == Utf8(c)[1]; }
    if 0x800 <= c { assert s[2] == Utf8(c)[2]; }
    if 0x80 <= c < 0x800 { TwoBytes(c); }
    if 0x800 <= c < 0x1_0000 { ThreeBytes(c); }
  }

  /** And ends with it exactly when its last one is. */
  lemma SpaceBeforePoint(front: Text, c: Scalar)
    ensures SpaceBefore(front + Utf8(c)) == if IsWhiteSpace(c) then |Utf8(c)| else 0
  {
    var s, n, k := front + Utf8(c), |front|, |Utf8(c)|;
    assert s[|s| - 1] == Utf8(c)[k - 1];
    if 0x80 <= c { assert s[|s| - 2] == Utf8(c)[k - 2]; }
    if 0x800 <= c { assert s[|s| - 3] == Utf8(c)[k - 3]; }
    if 0x80 <= c < 0x800 { TwoBytes(c); }
    if 0x800 <= c < 0x1_0000 { ThreeBytes(c); }
  }

  ghost predicate AllWhiteSpace(cs: seq<Scalar>) {
    forall i | 0 <= i < |cs| :: IsWhiteSpace(cs[i])
  }

  lemma {:induction false} TrimStartSkips(a: seq<Scalar>, rest: Text)
    requires AllWhiteSpace(a)
    ensures TrimStart(Encode(a) + rest) == TrimStart(rest)
  {
    if a == [] {
      assert Encode(a) + rest == rest;
    } else {
      var after := Encode(a[1..]) + rest;
      assert Encode(a) + rest == Utf8(a[0]) + after;
      SpaceAtPoint(a[0], after);
      assert (Utf8(a[0]) + after)[|Utf8(a[0])|..] == after;
      TrimStartSkips(a[1..], rest);
    }
  }

  lemma {:induction false} TrimEndSkips(front: Text, b: seq<Scalar>)
    requires AllWhiteSpace(b)
    ensures TrimEnd(front + Encode(b)) == TrimEnd(front)
    decreases |b|
  {
    if b == [] {
      assert front + Encode(b) == front;
    } else {
      var before, c := b[..|b| - 1], b[|b| - 1];
      var s := front + Encode(before);
      assert b == before + [c];
      EncodeAppend(before, [c]);
      EncodeOne(c);
      assert front + Encode(b) == s + Utf8(c);
      SpaceBeforePoint(s, c);
      assert (s + Utf8(c))[..|s|] == s;
      TrimEndSkips(front, before);
    }
  }

  /** Neither end of the core is white space. */
  ghost predicate Bare(core: seq<Scalar>) {
    core != [] ==> !IsWhiteSpace(core[0]) && !IsWhiteSpace(core[|core| - 1])
  }

  lemma BareStays(core: seq<Scalar>, rest: Text)
    requires Bare(core) && core != []
    ensures TrimStart(Encode(core) + rest) == Encode(core) + rest
    ensures TrimEnd(Encode(core)) == Encode(core)
  {
    var after := Encode(core[1..]) + rest;
    assert Encode(core) + rest == Utf8(core[0]) + after;
    SpaceAtPoint(core[0], after);
    var before, c := core[..|core| - 1], core[|core| - 1];
    assert core == before + [c];
    EncodeAppend(before, [c]);
    EncodeOne(c);
    SpaceBeforePoint(Encode(before), c);
  }

  lemma EncodeParts(a: seq<Scalar>, core: seq<Scalar>, b: seq<Scalar>)
    ensures Encode(a + core + b) == Encode(a) + (Encode(core) + Encode(b))
  {
    EncodeAppend(a, core);
    EncodeAppend(a + core, b);
  }

  lemma AllSpaceTrimmed(b: seq<Scalar>)
    requires AllWhiteSpace(b)
    ensures Trim(Encode(b)) == []
  {
    TrimStartSkips(b, []);
    assert Encode(b) + [] == Encode(b);
  }

  /** What trimming is, character by character: of every text it leaves what lies between
      the leading and the trailing characters of the White_Space property. */
  lemma TrimOfPoints(a: seq<Scalar>, core: seq<Scalar>, b: seq<Scalar>)
    requires AllWhiteSpace(a) && AllWhiteSpace(b) && Bare(core)
    ensures Trim(Encode(a + core + b)) == Encode(core)
  {
    EncodeParts(a, core, b);
    TrimStartSkips(a, Encode(core) + Encode(b));
    if core == [] {
      assert Encode(core) + Encode(b) == Encode(b);
      AllSpaceTrimmed(b);
    } else {
      BareStays(core, Encode(b));
      TrimEndSkips(Encode(core), b);
    }
  }

  /** Every text in code points has such parts. */
  lemma {:induction false} PartsExist(cs: seq<Scalar>) returns (a: seq<Scalar>, core: seq<Scalar>, b: seq<Scalar>)
    ensures cs == a + core + b && AllWhiteSpace(a) && AllWhiteSpace(b) && Bare(core)
    decreases |cs|
  {
    if cs != [] && IsWhiteSpace(cs[0]) {
      a, core, b := PartsExist(cs[1..]);
      assert cs == [cs[0]] + a + core + b;
      a := [cs[0]] + a;
    } else if cs != [] && IsWhiteSpace(cs[|cs| - 1]) {
      a, core, b := PartsExist(cs[..|cs| - 1]);
      assert cs == a + core + (b + [cs[|cs| - 1]]);
      b := b + [cs[|cs| - 1]];
    } else {
      a, core, b := [], cs, [];
    }
  }

  /** In particular printable ASCII at the ends stays, as in a store path, and the newline
      behind an answer goes. */
  lemma PrintableStays(s: Text)
    requires s != [] && 33 <= s[0] <= 126 && 33 <= s[|s| - 1] <= 126
    ensures Trim(s) == s && Trim(s + [10]) == s
  {
    var line := s + [10];
    assert line[0] == s[0] && line[|line| - 1] == 10 && line[..|line| - 1] == s;
    assert SpaceBefore(line) == 1 && SpaceBefore(s) == 0;
    assert TrimEnd(line) == TrimEnd(s) == s;
  }
}
