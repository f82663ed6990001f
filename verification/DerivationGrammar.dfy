/** The ATerm derivation format as a grammar (Nix Reference Manual, "Derivation ATerm
    file format"), and the proof that the parsers of module Derivation read exactly it. */
module DerivationGrammar {
  import opened Nom
  import opened QuotedString
  import opened Derivation

  // ---------- Texts of the parts ----------

  ghost predicate PairText(text: string, kv: (string, string)) {
    exists a, b :: StringText(a, kv.0) && StringText(b, kv.1) && text == "(" + a + "," + b + ")"
  }

  /** A triple of output fields, as written: path, hash algorithm with method, hash. */
  datatype OutputFields = OutputFields(path: string, hashAlgo: string, hash: string)

  ghost predicate FieldsText(text: string, name: string, f: OutputFields) {
    exists a, b, c, d ::
      StringText(a, name) && StringText(b, f.path) && StringText(c, f.hashAlgo) && StringText(d, f.hash) &&
      text == "(" + a + "," + b + "," + c + "," + d + ")"
  }

  ghost predicate OutputText(store: Store, text: string, kv: (string, DerivationOutput)) {
    exists f :: FieldsText(text, kv.0, f) && NewOutput(store, f.path, f.hashAlgo, f.hash) == Valid(kv.1)
  }

  ghost function OutputGrammar(store: Store): (string, (string, DerivationOutput)) -> bool {
    (text, kv) => OutputText(store, text, kv)
  }

  ghost predicate StringsText(text: string, vs: seq<string>) {
    ListText(StringText, text, vs)
  }

  /** The outputs of an input are those listed, no more and no fewer, in any order. */
  ghost predicate ListsOutputs(drv: InputDrv, vs: seq<string>) {
    drv.Paths? && forall x :: x in drv.paths <==> x in vs
  }

  ghost predicate InputText(text: string, kv: (string, InputDrv)) {
    exists a, b, vs ::
      StringText(a, kv.0) && StringsText(b, vs) && ListsOutputs(kv.1, vs) && text == "(" + a + "," + b + ")"
  }

  /** The eight fields of a derivation as they stand in the file, lists unsorted and
      possibly with repeated keys. */
  datatype Fields = Fields(
    outputs: seq<(string, DerivationOutput)>,
    inputDrvs: seq<(string, InputDrv)>,
    inputSrcs: seq<string>,
    platform: string,
    builder: string,
    args: seq<string>,
    env: seq<(string, string)>)

  function CollectFields(name: string, version: DerivationVersion, f: Fields): Derivation {
    Derivation(version, name, ToMap(f.outputs), (set x | x in f.inputSrcs), ToMap(f.inputDrvs),
               f.platform, f.builder, f.args, ToMap(f.env))
  }

  datatype Texts = Texts(outputs: string, inputDrvs: string, inputSrcs: string, platform: string, builder: string, args: string, env: string)

  /** The inputs of a dynamic derivation can only be the empty list. */
  ghost predicate InputsText(version: DerivationVersion, text: string, kvs: seq<(string, InputDrv)>) {
    match version
    case Traditional => ListText(InputText, text, kvs)
    case Dynamic => text == "[]" && kvs == []
  }

  ghost predicate FieldTexts(store: Store, version: DerivationVersion, x: Texts, f: Fields) {
    && ListText(OutputGrammar(store), x.outputs, f.outputs)
    && InputsText(version, x.inputDrvs, f.inputDrvs)
    && StringsText(x.inputSrcs, f.inputSrcs)
    && StringText(x.platform, f.platform)
    && StringText(x.builder, f.builder)
    && StringsText(x.args, f.args)
    && ListText(PairText, x.env, f.env)
  }

  function Assemble(x: Texts): string {
    x.outputs + "," + x.inputDrvs + "," + x.inputSrcs + "," + x.platform + "," +
    x.builder + "," + x.args + "," + x.env + ")"
  }

  /** What a text starts with. After a dynamic version there is no comma. */
  ghost predicate HeaderText(version: DerivationVersion, h: string) {
    match version
    case Traditional => h == "Derive("
    case Dynamic => exists v :: StringText(v, "xp-dyn-drv") && h == "DrvWithVersion(" + v
  }

  ghost predicate DerivationText(store: Store, version: DerivationVersion, text: string, f: Fields) {
    exists h, x :: HeaderText(version, h) && FieldTexts(store, version, x, f) && text == h + Assemble(x)
  }

  // ---------- Steps shared by the proofs ----------

  lemma TakeString(s: string) returns (piece: string)
    requires ParseString(s).Ok?
    ensures s == piece + ParseString(s).rest && StringText(piece, ParseString(s).value)
  {
    StringExact();
    var r := ParseString(s);
    assert Splits(StringText, s, r.rest, r.value);
    piece := s[..|s| - |r.rest|];
  }

  lemma GiveString(piece: string, v: string, t: string)
    requires StringText(piece, v)
    ensures ParseString(piece + t) == Ok(t, v)
  {
    StringExact();
  }

  lemma GiveTag(tag: string, t: string)
    ensures Tag(tag, tag + t) == Ok(t, ())
  {
    assert (tag + t)[|tag|..] == t;
  }

  lemma SplitsFrom<T>(g: (string, T) -> bool, s: string, piece: string, rest: string, v: T)
    requires s == piece + rest && g(piece, v)
    ensures Splits(g, s, rest, v)
  {
    assert s[..|s| - |rest|] == piece;
  }

  /** Concatenations the way the parsers take them apart. */
  lemma PairSplits(a: string, b: string, t: string)
    ensures "(" + a + "," + b + ")" + t == "(" + (a + ("," + (b + (")" + t))))
  {
  }

  lemma QuadSplits(a: string, b: string, c: string, d: string, t: string)
    ensures "(" + a + "," + b + "," + c + "," + d + ")" + t ==
            "(" + (a + ("," + (b + ("," + (c + ("," + (d + (")" + t))))))))
  {
    var front, back := "(" + a + "," + b + ",", c + "," + d + ")";
    assert "(" + a + "," + b + "," + c + "," + d + ")" == front + back;
    assert back + t == c + ("," + (d + (")" + t)));
    assert front + (back + t) == "(" + (a + ("," + (b + ("," + (back + t)))));
  }

  // ---------- Pairs ----------

  lemma PairSound(s: string)
    requires ParsePair(s).Ok?
    ensures Splits(PairText, s, ParsePair(s).rest, ParsePair(s).value)
  {
    var r := ParsePair(s);
    var s1 := Tag("(", s).rest;
    var a := TakeString(s1);
    var s2 := Tag(",", ParseString(s1).rest).rest;
    var b := TakeString(s2);
    var piece := "(" + a + "," + b + ")";
    PairSplits(a, b, r.rest);
    SplitsFrom(PairText, s, piece, r.rest, r.value);
  }

  lemma PairComplete(text: string, kv: (string, string), t: string)
    requires PairText(text, kv)
    ensures ParsePair(text + t) == Ok(t, kv)
  {
    var a, b :| StringText(a, kv.0) && StringText(b, kv.1) && text == "(" + a + "," + b + ")";
    var s3 := ")" + t;
    var s2 := b + s3;
    var s1 := a + ("," + s2);
    PairSplits(a, b, t);
    GiveTag("(", s1); GiveString(a, kv.0, "," + s2); GiveTag(",", s2); GiveString(b, kv.1, s3); GiveTag(")", t);
  }

  lemma PairExact()
    ensures Sound(ParsePair, PairText) && Complete(ParsePair, PairText)
  {
    forall s | ParsePair(s).Ok? ensures Splits(PairText, s, ParsePair(s).rest, ParsePair(s).value) {
      PairSound(s);
    }
    forall text, t, kv | PairText(text, kv) ensures ParsePair(text + t) == Ok(t, kv) {
      PairComplete(text, kv, t);
    }
  }

  // ---------- Outputs ----------

  lemma TakeQuad(store: Store, s: string) returns (a: string, b: string, c: string, d: string, f: OutputFields)
    requires ParseDrvOutput(store, s).Ok?
    ensures s == "(" + (a + ("," + (b + ("," + (c + ("," + (d + (")" + ParseDrvOutput(store, s).rest))))))))
    ensures StringText(a, ParseDrvOutput(store, s).value.0)
    ensures StringText(b, f.path) && StringText(c, f.hashAlgo) && StringText(d, f.hash)
    ensures NewOutput(store, f.path, f.hashAlgo, f.hash) == Valid(ParseDrvOutput(store, s).value.1)
  {
    var s1 := Tag("(", s).rest;
    a := TakeString(s1);
    var s2 := Tag(",", ParseString(s1).rest).rest;
    b := TakeString(s2);
    var s3 := Tag(",", ParseString(s2).rest).rest;
    c := TakeString(s3);
    var s4 := Tag(",", ParseString(s3).rest).rest;
    d := TakeString(s4);
    f := OutputFields(ParseString(s2).value, ParseString(s3).value, ParseString(s4).value);
  }

  lemma QuadText(store: Store, a: string, b: string, c: string, d: string, f: OutputFields, kv: (string, DerivationOutput))
    requires StringText(a, kv.0) && StringText(b, f.path) && StringText(c, f.hashAlgo) && StringText(d, f.hash)
    requires NewOutput(store, f.path, f.hashAlgo, f.hash) == Valid(kv.1)
    ensures OutputText(store, "(" + a + "," + b + "," + c + "," + d + ")", kv)
  {
    assert FieldsText("(" + a + "," + b + "," + c + "," + d + ")", kv.0, f);
  }

  lemma QuadIsOutput(store: Store, a: string, b: string, c: string, d: string, f: OutputFields, s: string, rest: string, kv: (string, DerivationOutput))
    requires s == "(" + (a + ("," + (b + ("," + (c + ("," + (d + (")" + rest))))))))
    requires StringText(a, kv.0) && StringText(b, f.path) && StringText(c, f.hashAlgo) && StringText(d, f.hash)
    requires NewOutput(store, f.path, f.hashAlgo, f.hash) == Valid(kv.1)
    ensures Splits(OutputGrammar(store), s, rest, kv)
  {
    QuadSplits(a, b, c, d, rest);
    QuadText(store, a, b, c, d, f, kv);
    SplitsFrom(OutputGrammar(store), s, "(" + a + "," + b + "," + c + "," + d + ")", rest, kv);
  }

  lemma OutputSound(store: Store, s: string)
    requires ParseDrvOutput(store, s).Ok?
    ensures Splits(OutputGrammar(store), s, ParseDrvOutput(store, s).rest, ParseDrvOutput(store, s).value)
  {
    var a, b, c, d, f := TakeQuad(store, s);
    QuadIsOutput(store, a, b, c, d, f, s, ParseDrvOutput(store, s).rest, ParseDrvOutput(store, s).value);
  }

  lemma OutputComplete(store: Store, text: string, kv: (string, DerivationOutput), t: string)
    requires OutputText(store, text, kv)
    ensures ParseDrvOutput(store, text + t) == Ok(t, kv)
  {
    var f :| FieldsText(text, kv.0, f) && NewOutput(store, f.path, f.hashAlgo, f.hash) == Valid(kv.1);
    var a, b, c, d :|
      StringText(a, kv.0) && StringText(b, f.path) && StringText(c, f.hashAlgo) && StringText(d, f.hash) &&
      text == "(" + a + "," + b + "," + c + "," + d + ")";
    var s5 := ")" + t;
    var s4 := d + s5;
    var s3 := c + ("," + s4);
    var s2 := b + ("," + s3);
    var s1 := a + ("," + s2);
    QuadSplits(a, b, c, d, t);
    GiveTag("(", s1); GiveString(a, kv.0, "," + s2);
    GiveTag(",", s2); GiveString(b, f.path, "," + s3);
    GiveTag(",", s3); GiveString(c, f.hashAlgo, "," + s4);
    GiveTag(",", s4); GiveString(d, f.hash, s5);
    GiveTag(")", t);
  }

  lemma OutputExact(store: Store)
    ensures Sound(OutputParser(store), OutputGrammar(store)) && Complete(OutputParser(store), OutputGrammar(store))
  {
    var p, g := OutputParser(store), OutputGrammar(store);
    forall s | p(s).Ok? ensures Splits(g, s, p(s).rest, p(s).value) {
      OutputSound(store, s);
    }
    forall text, t, kv | g(text, kv) ensures p(text + t) == Ok(t, kv) {
      OutputComplete(store, text, kv, t);
    }
  }

  // ---------- Lists of strings ----------

  lemma StringsExact()
    ensures Sound(ParseStrings, StringsText) && Complete(ParseStrings, StringsText)
  {
    StringExact();
    forall s | ParseStrings(s).Ok? ensures Splits(StringsText, s, ParseStrings(s).rest, ParseStrings(s).value) {
      ListSound(ParseString, StringText, s);
    }
    forall text, t, vs | StringsText(text, vs) ensures ParseStrings(text + t) == Ok(t, vs) {
      ListComplete(ParseString, StringText, text, vs, t);
    }
  }

  lemma TakeStrings(s: string) returns (piece: string)
    requires ParseStrings(s).Ok?
    ensures s == piece + ParseStrings(s).rest && StringsText(piece, ParseStrings(s).value)
  {
    StringsExact();
    var r := ParseStrings(s);
    assert Splits(StringsText, s, r.rest, r.value);
    piece := s[..|s| - |r.rest|];
  }

  lemma GiveStrings(piece: string, vs: seq<string>, t: string)
    requires StringsText(piece, vs)
    ensures ParseStrings(piece + t) == Ok(t, vs)
  {
    StringsExact();
  }

  /** A set of strings is read off a list of them and has exactly the strings listed. */
  lemma StringSetExact(s: string, t: string, v: set<string>)
    ensures ParseStringSet(s) == Ok(t, v) <==>
            exists text, vs :: s == text + t && StringsText(text, vs) && forall x :: x in v <==> x in vs
  {
    if ParseStringSet(s) == Ok(t, v) {
      var text := TakeStrings(s);
    }
    if text, vs :| s == text + t && StringsText(text, vs) && forall x :: x in v <==> x in vs {
      GiveStringSet(text, vs, v, t);
    }
  }

  lemma GiveStringSet(piece: string, vs: seq<string>, v: set<string>, t: string)
    requires StringsText(piece, vs) && forall x :: x in v <==> x in vs
    ensures ParseStringSet(piece + t) == Ok(t, v)
  {
    GiveStrings(piece, vs, t);
    assert v == ToSet(vs);
  }

  lemma GiveOutputNames(piece: string, vs: seq<string>, drv: InputDrv, t: string)
    requires StringsText(piece, vs) && ListsOutputs(drv, vs)
    ensures ParseInputDrv(piece + t, Traditional) == Ok(t, drv)
  {
    GiveStringSet(piece, vs, drv.paths, t);
  }

  // ---------- Inputs ----------

  lemma WriteInput(a: string, b: string, vs: seq<string>, kv: (string, InputDrv))
    requires StringText(a, kv.0) && StringsText(b, vs) && ListsOutputs(kv.1, vs)
    ensures InputText("(" + a + "," + b + ")", kv)
  {
  }

  lemma InputSound(s: string)
    requires ParseInput(s, Traditional).Ok?
    ensures Splits(InputText, s, ParseInput(s, Traditional).rest, ParseInput(s, Traditional).value)
  {
    var r := ParseInput(s, Traditional);
    var s1 := Tag("(", s).rest;
    var a := TakeString(s1);
    var s2 := Tag(",", ParseString(s1).rest).rest;
    var b := TakeStrings(s2);
    var piece := "(" + a + "," + b + ")";
    PairSplits(a, b, r.rest);
    WriteInput(a, b, ParseStrings(s2).value, r.value);
    SplitsFrom(InputText, s, piece, r.rest, r.value);
  }

  lemma InputComplete(text: string, kv: (string, InputDrv), t: string)
    requires InputText(text, kv)
    ensures ParseInput(text + t, Traditional) == Ok(t, kv)
  {
    var a, b, vs :| StringText(a, kv.0) && StringsText(b, vs) && ListsOutputs(kv.1, vs) && text == "(" + a + "," + b + ")";
    var s3 := ")" + t;
    var s2 := b + s3;
    var s1 := a + ("," + s2);
    PairSplits(a, b, t);
    GiveTag("(", s1); GiveString(a, kv.0, "," + s2); GiveTag(",", s2); GiveOutputNames(b, vs, kv.1, s3); GiveTag(")", t);
  }

  lemma InputExact()
    ensures Sound(InputParser(Traditional), InputText) && Complete(InputParser(Traditional), InputText)
  {
    var p := InputParser(Traditional);
    forall s | p(s).Ok? ensures Splits(InputText, s, p(s).rest, p(s).value) {
      InputSound(s);
    }
    forall text, t, kv | InputText(text, kv) ensures p(text + t) == Ok(t, kv) {
      InputComplete(text, kv, t);
    }
  }

  // ---------- Input lists of either version ----------

  lemma TakeDynamicInputs(s: string)
    requires ParseInputs(Dynamic, s).Ok?
    ensures s == "[]" + ParseInputs(Dynamic, s).rest && ParseInputs(Dynamic, s).value == []
  {
    var s1 := Tag("[", s).rest;
    assert InputParser(Dynamic)(s1) == ParseInput(s1, Dynamic);
    var t := ParseInputs(Dynamic, s).rest;
    assert s == "[" + ("]" + t);
  }

  lemma TakeInputs(version: DerivationVersion, s: string) returns (piece: string)
    requires ParseInputs(version, s).Ok?
    ensures s == piece + ParseInputs(version, s).rest && InputsText(version, piece, ParseInputs(version, s).value)
  {
    match version
    case Traditional =>
      InputExact();
      ListSound(InputParser(Traditional), InputText, s);
      piece := s[..|s| - |ParseInputs(Traditional, s).rest|];
    case Dynamic =>
      TakeDynamicInputs(s);
      piece := "[]";
  }

  lemma GiveInputs(version: DerivationVersion, piece: string, vs: seq<(string, InputDrv)>, t: string)
    requires InputsText(version, piece, vs)
    ensures ParseInputs(version, piece + t) == Ok(t, vs)
  {
    match version
    case Traditional =>
      InputExact();
      ListComplete(InputParser(Traditional), InputText, piece, vs, t);
    case Dynamic =>
      assert piece + t == "[" + ("]" + t);
      GiveTag("[", "]" + t);
      assert InputParser(Dynamic)("]" + t) == ParseInput("]" + t, Dynamic);
      assert ("]" + t)[0] == ']';
      GiveTag("]", t);
  }

  lemma TraditionalInputsNeverPanic(s: string)
    ensures !ParseInputs(Traditional, s).Panic?
  {
    ListNeverPanics(InputParser(Traditional), s);
  }

  /** Where a dynamic derivation's first input reaches its `todo!()`: behind its name and a
      comma. */
  ghost predicate ReachesTodo(s: string, rest: string) {
    exists a, v :: StringText(a, v) && s == "[" + ("(" + (a + ("," + rest)))
  }

  lemma DynamicInputsPanicIff(s: string)
    ensures ParseInputs(Dynamic, s).Panic? <==> exists rest :: ReachesTodo(s, rest)
  {
    var p := InputParser(Dynamic);
    if ParseInputs(Dynamic, s).Panic? {
      var s1 := Tag("[", s).rest;
      assert p(s1) == ParseInput(s1, Dynamic);
      assert p(s1).Panic?;
      var s2 := Tag("(", s1).rest;
      var a := TakeString(s2);
      var rest := Tag(",", ParseString(s2).rest).rest;
      assert s == "[" + ("(" + (a + ("," + rest)));
      assert ReachesTodo(s, rest);
    }
    if rest :| ReachesTodo(s, rest) {
      var a, v :| StringText(a, v) && s == "[" + ("(" + (a + ("," + rest)));
      var s2 := a + ("," + rest);
      GiveTag("[", "(" + s2);
      GiveTag("(", s2);
      GiveString(a, v, "," + rest);
      GiveTag(",", rest);
      assert p("(" + s2) == ParseInput("(" + s2, Dynamic);
    }
  }

  // ---------- Whole derivations ----------

  lemma TakeOutputs(store: Store, s: string) returns (piece: string)
    requires ParseOutputs(store, s).Ok?
    ensures s == piece + ParseOutputs(store, s).rest && ListText(OutputGrammar(store), piece, ParseOutputs(store, s).value)
  {
    OutputExact(store);
    ListSound(OutputParser(store), OutputGrammar(store), s);
    piece := s[..|s| - |ParseOutputs(store, s).rest|];
  }

  lemma TakePairs(s: string) returns (piece: string)
    requires ParsePairs(s).Ok?
    ensures s == piece + ParsePairs(s).rest && ListText(PairText, piece, ParsePairs(s).value)
  {
    PairExact();
    ListSound(ParsePair, PairText, s);
    piece := s[..|s| - |ParsePairs(s).rest|];
  }

  /** The fields behind the inputs, and the text that is left of `Assemble` for them. */
  function AssembleLater(x: Texts): string {
    x.inputSrcs + "," + x.platform + "," + x.builder + "," + x.args + "," + x.env + ")"
  }

  lemma AssembleLaterSplits(x: Texts, t: string)
    ensures AssembleLater(x) + t ==
            x.inputSrcs + ("," + (x.platform + ("," + (x.builder + ("," + (x.args + ("," + (x.env + (")" + t)))))))))
  {
    var s7 := x.env + (")" + t);
    var a := x.inputSrcs + "," + x.platform + "," + x.builder + ",";
    var b := x.args + "," + x.env + ")";
    assert AssembleLater(x) == a + b && b + t == x.args + ("," + s7);
    assert a + (b + t) == x.inputSrcs + ("," + (x.platform + ("," + (x.builder + ("," + (b + t))))));
  }

  lemma AssembleSplits(x: Texts, t: string)
    ensures Assemble(x) + t == x.outputs + ("," + (x.inputDrvs + ("," + (AssembleLater(x) + t))))
  {
    var a := x.outputs + "," + x.inputDrvs + ",";
    assert Assemble(x) == a + AssembleLater(x);
    assert a + (AssembleLater(x) + t) == x.outputs + ("," + (x.inputDrvs + ("," + (AssembleLater(x) + t))));
  }

  ghost predicate LaterTexts(x: Texts, f: Fields) {
    && StringsText(x.inputSrcs, f.inputSrcs)
    && StringText(x.platform, f.platform)
    && StringText(x.builder, f.builder)
    && StringsText(x.args, f.args)
    && ListText(PairText, x.env, f.env)
  }

  lemma TakeLater(name: string, version: DerivationVersion, xo: string, outputs: seq<(string, DerivationOutput)>,
                  xi: string, inputDrvs: seq<(string, InputDrv)>, s: string) returns (x: Texts, f: Fields)
    requires ParseLaterFields(name, version, outputs, inputDrvs, s).Ok?
    ensures LaterTexts(x, f) && x.outputs == xo && x.inputDrvs == xi && f.outputs == outputs && f.inputDrvs == inputDrvs
    ensures ParseLaterFields(name, version, outputs, inputDrvs, s).value == CollectFields(name, version, f)
    ensures s == AssembleLater(x) + ParseLaterFields(name, version, outputs, inputDrvs, s).rest
  {
    var xs := TakeStrings(s);
    var s4 := Tag(",", ParseStrings(s).rest).rest;
    var xp := TakeString(s4);
    var s5 := Tag(",", ParseString(s4).rest).rest;
    var xb := TakeString(s5);
    var s6 := Tag(",", ParseString(s5).rest).rest;
    var xa := TakeStrings(s6);
    var s7 := Tag(",", ParseStrings(s6).rest).rest;
    var xe := TakePairs(s7);
    x := Texts(xo, xi, xs, xp, xb, xa, xe);
    f := Fields(outputs, inputDrvs, ParseStrings(s).value, ParseString(s4).value, ParseString(s5).value,
                ParseStrings(s6).value, ParsePairs(s7).value);
    AssembleLaterSplits(x, ParseLaterFields(name, version, outputs, inputDrvs, s).rest);
  }

  lemma GiveLater(name: string, version: DerivationVersion, x: Texts, f: Fields, t: string)
    requires LaterTexts(x, f)
    ensures ParseLaterFields(name, version, f.outputs, f.inputDrvs, AssembleLater(x) + t) == Ok(t, CollectFields(name, version, f))
  {
    var s7 := x.env + (")" + t);
    var s6 := x.args + ("," + s7);
    var s5 := x.builder + ("," + s6);
    var s4 := x.platform + ("," + s5);
    AssembleLaterSplits(x, t);
    GiveStrings(x.inputSrcs, f.inputSrcs, "," + s4); GiveTag(",", s4);
    GiveString(x.platform, f.platform, "," + s5); GiveTag(",", s5);
    GiveString(x.builder, f.builder, "," + s6); GiveTag(",", s6);
    GiveStrings(x.args, f.args, "," + s7); GiveTag(",", s7);
    GivePairs(x.env, f.env, ")" + t); GiveTag(")", t);
  }

  lemma TakeVersion(s: string) returns (h: string)
    requires ParseVersion(s).Ok?
    ensures s == h + ParseVersion(s).rest && HeaderText(ParseVersion(s).value, h)
  {
    if "Derive(" <= s {
      h := "Derive(";
      assert s == "Derive(" + s[7..];
    } else {
      var s1 := Tag("DrvWithVersion(", s).rest;
      var v := TakeString(s1);
      h := "DrvWithVersion(" + v;
      assert s == "DrvWithVersion(" + s1;
      HeaderSplits(v, ParseVersion(s).rest);
    }
  }

  lemma HeaderSplits(v: string, t: string)
    ensures "DrvWithVersion(" + v + t == "DrvWithVersion(" + (v + t)
  {
  }

  lemma GiveVersion(version: DerivationVersion, h: string, t: string)
    requires HeaderText(version, h)
    ensures ParseVersion(h + t) == Ok(t, version)
  {
    match version
    case Traditional => GiveTag("Derive(", t);
    case Dynamic =>
      var v :| StringText(v, "xp-dyn-drv") && h == "DrvWithVersion(" + v;
      HeaderSplits(v, t);
      GiveVersionString(v, "xp-dyn-drv", t);
  }

  lemma GiveVersionString(a: string, v: string, t: string)
    requires StringText(a, v)
    ensures ParseVersion("DrvWithVersion(" + (a + t)) == if v == "xp-dyn-drv" then Ok(t, Dynamic) else Error
  {
    GiveTag("DrvWithVersion(", a + t);
    assert ("DrvWithVersion(" + (a + t))[1] == 'r' && "Derive("[1] == 'e';
    GiveString(a, v, t);
  }

  lemma FieldsSound(store: Store, name: string, version: DerivationVersion, s: string) returns (x: Texts, f: Fields)
    requires ParseFields(store, name, version, s).Ok?
    ensures s == Assemble(x) + ParseFields(store, name, version, s).rest
    ensures FieldTexts(store, version, x, f)
    ensures ParseFields(store, name, version, s).value == CollectFields(name, version, f)
  {
    var ro := ParseOutputs(store, s);
    var xo := TakeOutputs(store, s);
    var s2 := Tag(",", ro.rest).rest;
    var ri := ParseInputs(version, s2);
    var xi := TakeInputs(version, s2);
    x, f := TakeLater(name, version, xo, ro.value, xi, ri.value, Tag(",", ri.rest).rest);
    AssembleSplits(x, ParseFields(store, name, version, s).rest);
  }

  /** Acceptance is membership in the grammar: the consumed text is well-formed in full,
      and the result collects its fields. */
  lemma DerivationSound(store: Store, name: string, s: string) returns (text: string, f: Fields)
    requires ParseDerivation(store, name, s).Ok?
    ensures var r := ParseDerivation(store, name, s);
            && s == text + r.rest
            && DerivationText(store, r.value.version, text, f)
            && r.value == CollectFields(name, r.value.version, f)
  {
    var version, s1 := ParseVersion(s).value, ParseVersion(s).rest;
    var h := TakeVersion(s);
    var x;
    x, f := FieldsSound(store, name, version, s1);
    text := h + Assemble(x);
    Reassociate(h, Assemble(x), ParseFields(store, name, version, s1).rest);
  }

  lemma GiveOutputs(store: Store, piece: string, vs: seq<(string, DerivationOutput)>, t: string)
    requires ListText(OutputGrammar(store), piece, vs)
    ensures ParseOutputs(store, piece + t) == Ok(t, vs)
  {
    OutputExact(store);
    ListComplete(OutputParser(store), OutputGrammar(store), piece, vs, t);
  }

  lemma GivePairs(piece: string, vs: seq<(string, string)>, t: string)
    requires ListText(PairText, piece, vs)
    ensures ParsePairs(piece + t) == Ok(t, vs)
  {
    PairExact();
    ListComplete(ParsePair, PairText, piece, vs, t);
  }

  lemma FieldsComplete(store: Store, name: string, version: DerivationVersion, x: Texts, f: Fields, t: string)
    requires FieldTexts(store, version, x, f)
    ensures ParseFields(store, name, version, Assemble(x) + t) == Ok(t, CollectFields(name, version, f))
  {
    var s3 := AssembleLater(x) + t;
    var s2 := x.inputDrvs + ("," + s3);
    AssembleSplits(x, t);
    GiveOutputs(store, x.outputs, f.outputs, "," + s2); GiveTag(",", s2);
    GiveInputs(version, x.inputDrvs, f.inputDrvs, "," + s3); GiveTag(",", s3);
    GiveLater(name, version, x, f, t);
  }

  lemma TextsComplete(store: Store, name: string, version: DerivationVersion, h: string, x: Texts, f: Fields, t: string)
    requires HeaderText(version, h) && FieldTexts(store, version, x, f)
    ensures ParseDerivation(store, name, h + (Assemble(x) + t)) == Ok(t, CollectFields(name, version, f))
  {
    GiveVersion(version, h, Assemble(x) + t);
    FieldsComplete(store, name, version, x, f, t);
  }

  lemma Reassociate(a: string, b: string, c: string)
    ensures a + b + c == a + (b + c)
  {
  }

  lemma DerivationComplete(store: Store, name: string, version: DerivationVersion, text: string, f: Fields, t: string)
    requires DerivationText(store, version, text, f)
    ensures ParseDerivation(store, name, text + t) == Ok(t, CollectFields(name, version, f))
  {
    var h, x :| HeaderText(version, h) && FieldTexts(store, version, x, f) && text == h + Assemble(x);
    Reassociate(h, Assemble(x), t);
    TextsComplete(store, name, version, h, x, f, t);
  }

  /** The parser accepts exactly the grammar, on every input, whatever the header. */
  lemma DerivationExact(store: Store, name: string, s: string, t: string, d: Derivation)
    ensures ParseDerivation(store, name, s) == Ok(t, d) <==>
            exists text, f :: s == text + t && DerivationText(store, d.version, text, f) && d == CollectFields(name, d.version, f)
  {
    if ParseDerivation(store, name, s) == Ok(t, d) {
      var text, f := DerivationSound(store, name, s);
    }
    if text, f :| s == text + t && DerivationText(store, d.version, text, f) && d == CollectFields(name, d.version, f) {
      DerivationComplete(store, name, d.version, text, f, t);
    }
  }

  // ---------- Panics ----------

  /** A dynamic header, readable outputs, and a first input with a name and a comma. */
  ghost predicate PanicText(store: Store, s: string) {
    exists h, o, kvs, s2, rest ::
      HeaderText(Dynamic, h) && ListText(OutputGrammar(store), o, kvs) && ReachesTodo(s2, rest) &&
      s == h + (o + ("," + s2))
  }

  lemma PanicInFields(store: Store, name: string, version: DerivationVersion, s: string)
      returns (o: string, kvs: seq<(string, DerivationOutput)>, s2: string, rest: string)
    requires ParseFields(store, name, version, s).Panic?
    ensures version.Dynamic? && ListText(OutputGrammar(store), o, kvs) && ReachesTodo(s2, rest) && s == o + ("," + s2)
  {
    o := TakeOutputs(store, s);
    kvs := ParseOutputs(store, s).value;
    s2 := Tag(",", ParseOutputs(store, s).rest).rest;
    TraditionalInputsNeverPanic(s2);
    DynamicInputsPanicIff(s2);
    rest :| ReachesTodo(s2, rest);
  }

  lemma PanicFound(store: Store, name: string, s: string)
    requires ParseDerivation(store, name, s).Panic?
    ensures PanicText(store, s)
  {
    var version, s1 := ParseVersion(s).value, ParseVersion(s).rest;
    var h := TakeVersion(s);
    var o, kvs, s2, rest := PanicInFields(store, name, version, s1);
  }

  lemma PanicCaused(store: Store, name: string, s: string)
    requires PanicText(store, s)
    ensures ParseDerivation(store, name, s).Panic?
  {
    var h, o, kvs, s2, rest :|
      HeaderText(Dynamic, h) && ListText(OutputGrammar(store), o, kvs) && ReachesTodo(s2, rest) &&
      s == h + (o + ("," + s2));
    GiveVersion(Dynamic, h, o + ("," + s2));
    GiveOutputs(store, o, kvs, "," + s2);
    GiveTag(",", s2);
    DynamicInputsPanicIff(s2);
  }

  /** The parser panics on exactly the dynamic derivations whose first input gets as far as
      a name and a comma. With `DerivationExact` this decides every input: accepted as the
      grammar says, a panic here, an error otherwise. */
  lemma PanicsIff(store: Store, name: string, s: string)
    ensures ParseDerivation(store, name, s).Panic? <==> PanicText(store, s)
  {
    if ParseDerivation(store, name, s).Panic? {
      PanicFound(store, name, s);
    }
    if PanicText(store, s) {
      PanicCaused(store, name, s);
    }
  }
}
