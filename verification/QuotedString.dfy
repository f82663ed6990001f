/** Quoted strings of the ATerm format: the `string` parser with nom's
    `escaped_transform` inside, and the printer Nix uses for them. */
module QuotedString {
  import opened Nom
  import opened Options

  /** The five `value(.., tag(..))` alternatives, tried on the character after a backslash. */
  function EscapeCode(c: char): Option<char> {
    match c
    case '\\' => Some('\\')
    case '\"' => Some('\"')
    case 'n' => Some('\n')
    case 'r' => Some('\r')
    case 't' => Some('\t')
    case _ => None
  }

  /** `none_of("\"\\")` */
  predicate IsPlain(c: char) {
    c != '\"' && c != '\\'
  }

  // ---------- The decoder ----------

  /** The result of decoding, with `out` already decoded before it. */
  function Prepended(out: string, r: ParseResult<string>): ParseResult<string> {
    if r.Ok? then Ok(r.rest, out + r.value) else r
  }

  lemma PrependedTwice(out: string, c: char, r: ParseResult<string>)
    ensures Prepended(out, Prepended([c], r)) == Prepended(out + [c], r)
  {
    if r.Ok? {
      assert out + ([c] + r.value) == out + [c] + r.value;
    }
  }

  /** Decodes from `s` up to a quote or the end; fails on a backslash with no known code. */
  function Unescape(s: string): (r: ParseResult<string>)
    ensures !r.Panic?
    ensures r.Ok? ==> |r.rest| <= |s| && (r.rest == "" || r.rest[0] == '\"')
  {
    if s == "" || s[0] == '\"' then Ok(s, "")
    else if s[0] == '\\' then
      if |s| == 1 then Error
      else
        match EscapeCode(s[1])
        case None => Error
        case Some(c) => Prepended([c], Unescape(s[2..]))
    else Prepended([s[0]], Unescape(s[1..]))
  }

  /** What `escaped_transform` returns: the decoder's answer, except that a quote in
      first position is an error (nothing was transformed). */
  function EscapedTransform(s: string): ParseResult<string> {
    if s != "" && s[0] == '\"' then Error else Unescape(s)
  }

  /** nom's loop over an index into the input, with its early returns. */
  method EscapedTransformLoop(input: string) returns (r: ParseResult<string>)
    ensures r == EscapedTransform(input)
  {
    var index := 0;
    var res := "";
    assert input[0..] == input;
    assert Unescape(input).Ok? ==> "" + Unescape(input).value == Unescape(input).value;
    while index < |input|
      invariant 0 <= index <= |input|
      invariant index == 0 ==> res == ""
      invariant index > 0 ==> input[0] != '\"'
      invariant Unescape(input) == Prepended(res, Unescape(input[index..]))
    {
      var remainder := input[index..];
      if IsPlain(remainder[0]) {
        PrependedTwice(res, remainder[0], Unescape(remainder[1..]));
        res := res + [remainder[0]];
        if |remainder| == 1 {
          assert remainder[1..] == "" && res + "" == res;
          return Ok("", res);
        }
        assert remainder[1..] == input[index + 1..];
        index := index + 1;
      } else if remainder[0] == '\\' {
        var next := index + 1;
        if next >= |input| {
          return Error;
        }
        match EscapeCode(input[next]) {
          case None => return Error;
          case Some(c) =>
            PrependedTwice(res, c, Unescape(remainder[2..]));
            res := res + [c];
            assert remainder[2..] == input[index + 2..];
            assert remainder[0] == input[index] && Unescape(remainder) == Prepended([c], Unescape(remainder[2..]));
            if |input[next..]| == 1 {
              assert remainder[2..] == "" && res + "" == res;
              return Ok("", res);
            }
            index := index + 2;
        }
      } else {
        if index == 0 {
          return Error;
        }
        assert res + "" == res;
        return Ok(remainder, res);
      }
    }
    assert input[index..] == "" && res + "" == res;
    return Ok("", res);
  }

  /** `char('"')`, `opt(escaped_transform(..))`, `char('"')`: a decoder error leaves the
      input where it was and yields the empty string. */
  function ParseString(s: string): (r: ParseResult<string>)
    ensures !r.Panic?
    ensures r.Ok? ==> |r.rest| < |s|
  {
    var (s, _) :- Tag("\"", s);
    var (s, v) := match EscapedTransform(s)
      case Ok(rest, out) => (rest, out)
      case _ => (s, "");
    var (s, _) :- Tag("\"", s);
    Ok(s, v)
  }

  // ---------- The printer ----------

  function EscapeChar(c: char): string {
    match c
    case '\\' => "\\\\"
    case '\"' => "\\\""
    case '\n' => "\\n"
    case '\r' => "\\r"
    case '\t' => "\\t"
    case _ => [c]
  }

  function Escape(v: string): string {
    if v == "" then "" else EscapeChar(v[0]) + Escape(v[1..])
  }

  function PrintString(v: string): string {
    "\"" + Escape(v) + "\""
  }

  // ---------- The grammar ----------

  /** The escapes of the format: code and character. */
  predicate IsEscape(code: char, c: char) {
    || (code == '\\' && c == '\\') || (code == '\"' && c == '\"')
    || (code == 'n' && c == '\n') || (code == 'r' && c == '\r') || (code == 't' && c == '\t')
  }

  /** `body` spells `v`: character by character, plain or by an escape code. */
  ghost predicate Spells(body: string, v: string) {
    if body == "" then v == ""
    else if body[0] == '\\' then
      |body| >= 2 && v != "" && IsEscape(body[1], v[0]) && Spells(body[2..], v[1..])
    else
      body[0] != '\"' && v != "" && body[0] == v[0] && Spells(body[1..], v[1..])
  }

  ghost predicate StringText(text: string, v: string) {
    |text| >= 2 && text == "\"" + text[1..|text| - 1] + "\"" && Spells(text[1..|text| - 1], v)
  }

  lemma {:induction false} UnescapeComplete(body: string, v: string, t: string)
    requires Spells(body, v)
    ensures Unescape(body + "\"" + t) == Ok("\"" + t, v)
  {
    var s := body + "\"" + t;
    if body == "" {
      assert s == "\"" + t;
    } else if body[0] == '\\' {
      UnescapeComplete(body[2..], v[1..], t);
      assert s[2..] == body[2..] + "\"" + t;
      assert v == [v[0]] + v[1..];
    } else {
      UnescapeComplete(body[1..], v[1..], t);
      assert s[1..] == body[1..] + "\"" + t;
      assert v == [v[0]] + v[1..];
    }
  }

  lemma {:induction false} UnescapeSound(s: string)
    requires Unescape(s).Ok?
    ensures var r := Unescape(s);
            s[|s| - |r.rest|..] == r.rest && Spells(s[..|s| - |r.rest|], r.value)
  {
    var r := Unescape(s);
    if s == "" || s[0] == '\"' {
      assert s[..0] == "" && s[0..] == s;
    } else {
      var n := if s[0] == '\\' then 2 else 1;
      UnescapeSound(s[n..]);
      var body := s[..|s| - |r.rest|];
      var q := Unescape(s[n..]);
      assert r == Prepended([if n == 2 then EscapeCode(s[1]).value else s[0]], q);
      assert body[n..] == s[n..][..|s[n..]| - |q.rest|];
      assert s[|s| - |q.rest|..] == s[n..][|s[n..]| - |q.rest|..];
      assert r.value[1..] == q.value;
    }
  }

  /** The string parser accepts exactly the quoted spellings and decodes each correctly;
      with `PrefixCode`, no quoted spelling is a proper prefix of another. */
  lemma StringExact()
    ensures Sound(ParseString, StringText) && Complete(ParseString, StringText)
  {
    forall s | ParseString(s).Ok?
      ensures Splits(StringText, s, ParseString(s).rest, ParseString(s).value)
    {
      var body := s[1..];
      var r := ParseString(s);
      if EscapedTransform(body).Ok? {
        UnescapeSound(body);
        var q := Unescape(body).rest;
        assert q == "\"" + r.rest;
        var text := s[..|s| - |r.rest|];
        assert text[1..|text| - 1] == body[..|body| - |q|];
        assert s[|s| - |r.rest|..] == q[1..];
        assert s == "\"" + body[..|body| - |q|] + q;
        assert text == "\"" + text[1..|text| - 1] + "\"";
      } else {
        assert body[0] == '\"';
        assert s[..|s| - |r.rest|] == "\"\"";
        assert "\"\""[1..1] == "";
      }
    }
    forall text, t, v | StringText(text, v) ensures ParseString(text + t) == Ok(t, v) {
      StringComplete(text, v, t);
    }
  }

  lemma StringComplete(text: string, v: string, t: string)
    requires StringText(text, v)
    ensures ParseString(text + t) == Ok(t, v)
  {
    var body := text[1..|text| - 1];
    UnescapeComplete(body, v, t);
    var s := (text + t)[1..];
    assert s == body + "\"" + t;
    if body == "" {
      assert v == "";
      assert s == "\"" + t;
    } else {
      assert s[0] == body[0];
      assert EscapedTransform(s) == Ok("\"" + t, v);
    }
    assert ("\"" + t)[1..] == t;
  }

  lemma {:induction false} EscapeSpells(v: string)
    ensures Spells(Escape(v), v)
  {
    if v != "" {
      EscapeSpells(v[1..]);
      var n := |EscapeChar(v[0])|;
      assert Escape(v)[n..] == Escape(v[1..]);
    }
  }

  /** Printing then parsing a string gives it back, whatever follows it. */
  lemma StringRoundTrip(v: string, t: string)
    ensures StringText(PrintString(v), v)
    ensures ParseString(PrintString(v) + t) == Ok(t, v)
  {
    EscapeSpells(v);
    var text := PrintString(v);
    assert text[1..|text| - 1] == Escape(v);
    StringComplete(text, v, t);
  }

  /** No printed string is a proper prefix of another, and none stands for two texts. */
  lemma PrintedStringsArePrefixFree(v: string, t: string, w: string, u: string)
    requires PrintString(v) + t == PrintString(w) + u
    ensures v == w && t == u
  {
    StringRoundTrip(v, t);
    StringRoundTrip(w, u);
  }

  /** A backslash with an unknown code is never papered over by `opt`: the string as a
      whole is rejected, wherever in it the bad code stands. */
  lemma BadEscapeRejected(body: string, v: string, tail: string)
    requires Spells(body, v)
    requires |tail| >= 1 ==> tail[0] !in "\\\"nrt"
    ensures ParseString("\"" + body + "\\" + tail) == Error
  {
    BadEscapeFails(body, v, tail);
    var s := "\"" + body + "\\" + tail;
    assert s[1..] == body + "\\" + tail;
    assert s[1..][0] == if body == "" then '\\' else body[0];
  }

  lemma {:induction false} BadEscapeFails(body: string, v: string, tail: string)
    requires Spells(body, v)
    requires |tail| >= 1 ==> tail[0] !in "\\\"nrt"
    ensures Unescape(body + "\\" + tail) == Error
  {
    var s := body + "\\" + tail;
    if body == "" {
      assert s == "\\" + tail;
    } else {
      var n := if body[0] == '\\' then 2 else 1;
      BadEscapeFails(body[n..], v[1..], tail);
      assert s[n..] == body[n..] + "\\" + tail;
    }
  }
}
