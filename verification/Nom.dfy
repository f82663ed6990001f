/** The part of nom 7 that the `.drv` parser is built from, over complete input.
    `Error` is nom's recoverable error, which `opt` and `separated_list0` swallow;
    `Panic` stands for a Rust panic (a reached `todo!()`), which nothing recovers from. */
module Nom {

  datatype ParseResult<+T> = Ok(rest: string, value: T) | Error | Panic {
    predicate IsFailure() { !Ok? }

    function PropagateFailure<U>(): ParseResult<U>
      requires IsFailure()
    {
      if Error? then Error else Panic
    }

    function Extract(): (string, T)
      requires Ok?
    {
      (rest, value)
    }
  }

  function Tag(t: string, s: string): (r: ParseResult<()>)
    ensures r.Ok? <==> t <= s
    ensures r.Ok? ==> s == t + r.rest
    ensures !r.Panic?
  {
    if t <= s then Ok(s[|t|..], ()) else Error
  }

  /** No parser here ever returns more text than it was given. */
  ghost predicate Shrinks<T(!new)>(p: string -> ParseResult<T>) {
    forall s :: p(s).Ok? ==> |p(s).rest| <= |s|
  }

  ghost predicate NeverPanics<T(!new)>(p: string -> ParseResult<T>) {
    forall s :: !p(s).Panic?
  }

  /** `separated_list0(char(','), p)`: stops before a comma that no element follows. */
  function SeparatedList0<T(!new)>(p: string -> ParseResult<T>, s: string): (r: ParseResult<seq<T>>)
    requires Shrinks(p)
    ensures r.Ok? ==> |r.rest| <= |s|
  {
    match p(s)
    case Error => Ok(s, [])
    case Panic => Panic
    case Ok(rest, v) =>
      var (rest, vs) :- MoreElements(p, rest);
      Ok(rest, [v] + vs)
  }

  function MoreElements<T(!new)>(p: string -> ParseResult<T>, s: string): (r: ParseResult<seq<T>>)
    requires Shrinks(p)
    ensures r.Ok? ==> |r.rest| <= |s|
    decreases |s|
  {
    if !("," <= s) then Ok(s, [])
    else
      match p(s[1..])
      case Error => Ok(s, [])
      case Panic => Panic
      case Ok(rest, v) =>
        var (rest, vs) :- MoreElements(p, rest);
        Ok(rest, [v] + vs)
  }

  /** `delimited(char('['), separated_list0(char(','), p), char(']'))` */
  function List<T(!new)>(p: string -> ParseResult<T>, s: string): (r: ParseResult<seq<T>>)
    requires Shrinks(p)
    ensures r.Ok? ==> |r.rest| <= |s|
  {
    var (s, _) :- Tag("[", s);
    var (s, vs) :- SeparatedList0(p, s);
    var (s, _) :- Tag("]", s);
    Ok(s, vs)
  }

  lemma {:induction false} MoreElementsNeverPanics<T(!new)>(p: string -> ParseResult<T>, s: string)
    requires Shrinks(p) && NeverPanics(p)
    ensures !MoreElements(p, s).Panic?
    decreases |s|
  {
    if "," <= s && p(s[1..]).Ok? {
      MoreElementsNeverPanics(p, p(s[1..]).rest);
    }
  }

  lemma ListNeverPanics<T(!new)>(p: string -> ParseResult<T>, s: string)
    requires Shrinks(p) && NeverPanics(p)
    ensures !List(p, s).Panic?
  {
    if "[" <= s && p(s[1..]).Ok? {
      MoreElementsNeverPanics(p, p(s[1..]).rest);
    }
  }

  // ---------- Grammars: which texts stand for which values ----------

  /** On success, what was taken off the front of the input is a text for the value. */
  ghost predicate Splits<T>(g: (string, T) -> bool, s: string, rest: string, v: T) {
    |rest| <= |s| && s[|s| - |rest|..] == rest && g(s[..|s| - |rest|], v)
  }

  ghost predicate Sound<T(!new)>(p: string -> ParseResult<T>, g: (string, T) -> bool) {
    forall s :: p(s).Ok? ==> Splits(g, s, p(s).rest, p(s).value)
  }

  ghost predicate Complete<T(!new)>(p: string -> ParseResult<T>, g: (string, T) -> bool) {
    forall text, t, v | g(text, v) :: p(text + t) == Ok(t, v)
  }

  /** Element parsers fail at a closing bracket; the empty list relies on it. */
  ghost predicate RejectsBracket<T(!new)>(p: string -> ParseResult<T>) {
    forall t :: p("]" + t) == Error
  }

  function Commas(pieces: seq<string>): string {
    if pieces == [] then ""
    else if |pieces| == 1 then pieces[0]
    else pieces[0] + "," + Commas(pieces[1..])
  }

  ghost predicate Matches<T>(g: (string, T) -> bool, pieces: seq<string>, vs: seq<T>) {
    |pieces| == |vs| && forall i | 0 <= i < |vs| :: g(pieces[i], vs[i])
  }

  /** A bracketed list: every element's own text, single commas between, nothing else. */
  ghost predicate ListText<T>(g: (string, T) -> bool, text: string, vs: seq<T>) {
    exists pieces: seq<string> :: Matches(g, pieces, vs) && text == "[" + Commas(pieces) + "]"
  }

  ghost function ListGrammar<T>(g: (string, T) -> bool): (string, seq<T>) -> bool {
    (text, vs) => ListText(g, text, vs)
  }

  /** What both halves together say: parsing is reading off the grammar, and the
      grammar is a prefix code. */
  lemma PrefixCode<T(!new)>(p: string -> ParseResult<T>, g: (string, T) -> bool, a: string, v: T, b: string, w: T, t: string, u: string)
    requires Complete(p, g)
    requires g(a, v) && g(b, w) && a + t == b + u
    ensures a == b && v == w
  {
    assert p(a + t) == Ok(t, v);
    assert p(b + u) == Ok(u, w);
    assert a == (a + t)[..|a + t| - |t|];
    assert b == (b + u)[..|b + u| - |u|];
  }

  // ---------- Completeness of lists ----------

  /** The elements after the first one, each with its leading comma. */
  function Tail(pieces: seq<string>): string {
    if pieces == [] then "" else "," + pieces[0] + Tail(pieces[1..])
  }

  lemma {:induction false} CommasIsHeadAndTail(pieces: seq<string>)
    requires pieces != []
    ensures Commas(pieces) == pieces[0] + Tail(pieces[1..])
  {
    if |pieces| > 1 {
      CommasIsHeadAndTail(pieces[1..]);
      assert pieces[0] + "," + (pieces[1..][0] + Tail(pieces[1..][1..])) == pieces[0] + ("," + pieces[1..][0] + Tail(pieces[1..][1..]));
    }
  }

  lemma TailSplits(pieces: seq<string>, rest: string)
    requires pieces != []
    ensures var s := Tail(pieces) + rest; "," <= s && s[1..] == pieces[0] + (Tail(pieces[1..]) + rest)
  {
    assert Tail(pieces) + rest == "," + (pieces[0] + (Tail(pieces[1..]) + rest));
  }

  /** The loop takes every element it is given and stops where it would stop anyway. */
  lemma {:induction false} MoreElementsTaken<T(!new)>(p: string -> ParseResult<T>, g: (string, T) -> bool, pieces: seq<string>, vs: seq<T>, rest: string)
    requires Shrinks(p) && Complete(p, g) && Matches(g, pieces, vs)
    requires MoreElements(p, rest) == Ok(rest, [])
    ensures MoreElements(p, Tail(pieces) + rest) == Ok(rest, vs)
    decreases |pieces|
  {
    if pieces == [] {
      assert Tail(pieces) + rest == rest && vs == [];
    } else {
      TailSplits(pieces, rest);
      MoreElementsTaken(p, g, pieces[1..], vs[1..], rest);
      assert p(pieces[0] + (Tail(pieces[1..]) + rest)) == Ok(Tail(pieces[1..]) + rest, vs[0]);
      assert vs == [vs[0]] + vs[1..];
    }
  }

  lemma SeparatedList0Complete<T(!new)>(p: string -> ParseResult<T>, g: (string, T) -> bool, pieces: seq<string>, vs: seq<T>, t: string)
    requires Shrinks(p) && Complete(p, g) && RejectsBracket(p) && Matches(g, pieces, vs)
    ensures SeparatedList0(p, Commas(pieces) + ("]" + t)) == Ok("]" + t, vs)
  {
    if pieces == [] {
      assert Commas(pieces) + ("]" + t) == "]" + t;
      assert vs == [];
    } else {
      var more := pieces[1..];
      CommasStep(pieces[0], more, "]" + t);
      assert [pieces[0]] + more == pieces;
      assert ("]" + t)[0] == ']';
      MoreElementsTaken(p, g, more, vs[1..], "]" + t);
      assert p(pieces[0] + (Tail(more) + ("]" + t))) == Ok(Tail(more) + ("]" + t), vs[0]);
      assert vs == [vs[0]] + vs[1..];
    }
  }

  lemma ListComplete<T(!new)>(p: string -> ParseResult<T>, g: (string, T) -> bool, text: string, vs: seq<T>, t: string)
    requires Shrinks(p) && Complete(p, g) && RejectsBracket(p)
    requires ListText(g, text, vs)
    ensures List(p, text + t) == Ok(t, vs)
  {
    var pieces :| Matches(g, pieces, vs) && text == "[" + Commas(pieces) + "]";
    SeparatedList0Complete(p, g, pieces, vs, t);
    BracketsJoin(Commas(pieces), t);
  }

  lemma BracketsJoin(body: string, t: string)
    ensures Tag("[", "[" + body + "]" + t) == Ok(body + ("]" + t), ())
    ensures Tag("]", "]" + t) == Ok(t, ())
  {
    assert "[" + body + "]" + t == "[" + (body + ("]" + t));
  }

  lemma CommasStep(piece: string, more: seq<string>, rest: string)
    ensures Commas([piece] + more) + rest == piece + (Tail(more) + rest)
  {
    CommasIsHeadAndTail([piece] + more);
    assert ([piece] + more)[1..] == more;
  }

  // ---------- Soundness of lists ----------

  lemma PieceOf<T(!new)>(p: string -> ParseResult<T>, g: (string, T) -> bool, s: string) returns (piece: string)
    requires Sound(p, g) && p(s).Ok?
    ensures s == piece + p(s).rest && g(piece, p(s).value)
  {
    var r := p(s);
    assert Splits(g, s, r.rest, r.value);
    piece := s[..|s| - |r.rest|];
  }

  lemma CommaStep(s: string, piece: string, tail: string, rest: string)
    requires "," <= s && s[1..] == piece + (tail + rest)
    ensures s == "," + piece + tail + rest
  {
  }

  lemma TailStep(piece: string, more: seq<string>)
    ensures Tail([piece] + more) == "," + piece + Tail(more)
  {
    assert ([piece] + more)[1..] == more;
  }

  lemma {:induction false} MoreElementsSound<T(!new)>(p: string -> ParseResult<T>, g: (string, T) -> bool, s: string)
      returns (pieces: seq<string>)
    requires Shrinks(p) && Sound(p, g) && MoreElements(p, s).Ok?
    ensures Matches(g, pieces, MoreElements(p, s).value)
    ensures s == Tail(pieces) + MoreElements(p, s).rest
    decreases |s|
  {
    if !("," <= s) || p(s[1..]).Error? {
      pieces := [];
    } else {
      var piece := PieceOf(p, g, s[1..]);
      var more := MoreElementsSound(p, g, p(s[1..]).rest);
      pieces := [piece] + more;
      CommaStep(s, piece, Tail(more), MoreElements(p, s).rest);
      TailStep(piece, more);
    }
  }

  lemma SeparatedList0Sound<T(!new)>(p: string -> ParseResult<T>, g: (string, T) -> bool, s: string)
      returns (pieces: seq<string>)
    requires Shrinks(p) && Sound(p, g) && SeparatedList0(p, s).Ok?
    ensures Matches(g, pieces, SeparatedList0(p, s).value)
    ensures s == Commas(pieces) + SeparatedList0(p, s).rest
  {
    if p(s).Error? {
      pieces := [];
    } else {
      var piece := PieceOf(p, g, s);
      var more := MoreElementsSound(p, g, p(s).rest);
      pieces := [piece] + more;
      CommasStep(piece, more, SeparatedList0(p, s).rest);
    }
  }

  lemma ListSound<T(!new)>(p: string -> ParseResult<T>, g: (string, T) -> bool, s: string)
    requires Shrinks(p) && Sound(p, g) && List(p, s).Ok?
    ensures Splits(ListGrammar(g), s, List(p, s).rest, List(p, s).value)
  {
    var rest := List(p, s).rest;
    var pieces := SeparatedList0Sound(p, g, s[1..]);
    var text := "[" + Commas(pieces) + "]";
    BracketsSplit(s, Commas(pieces), rest);
    assert ListText(g, text, List(p, s).value);
    assert s[..|s| - |rest|] == text;
  }

  lemma BracketsSplit(s: string, body: string, rest: string)
    requires "[" <= s && s[1..] == body + ("]" + rest)
    ensures s == "[" + body + "]" + rest
  {
  }
}
