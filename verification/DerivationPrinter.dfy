/** The canonical `.drv` printer, and that parsing undoes it. */
module DerivationPrinter {
  import opened Nom
  import opened Options
  import opened QuotedString
  import opened Derivation
  import opened DerivationGrammar

  // ---------- Output fields ----------

  function AlgorithmName(a: HashAlgorithm): string {
    match a
    case Md5 => "md5"
    case Sha1 => "sha1"
    case Sha256 => "sha256"
    case Sha512 => "sha512"
  }

  function MethodPrefix(m: ContentAddressedMethod): string {
    match m
    case NixArchive => "r:"
    case Git => "git:"
    case Text => "text:"
    case Flat => ""
  }

  /** An output as written in the file. A fixed output's path is written too, though the
      parsed value does not keep it; `fixedPath` is that path. */
  function FieldsOf(o: DerivationOutput, fixedPath: string): OutputFields {
    match o
    case Deferred => OutputFields("", "", "")
    case InputAddressed(path) => OutputFields(path, "", "")
    case Impure(m, a) => OutputFields("", MethodPrefix(m) + AlgorithmName(a), "impure")
    case CAFixed(m, a, hash) => OutputFields(fixedPath, MethodPrefix(m) + AlgorithmName(a), hash)
    case CAFloating(m, a) => OutputFields("", MethodPrefix(m) + AlgorithmName(a), "")
  }

  predicate WellFormed(store: Store, o: DerivationOutput) {
    match o
    case InputAddressed(path) => path != "" && store.isStorePath(path)
    case CAFixed(_, _, hash) => hash != "" && hash != "impure"
    case _ => true
  }

  lemma MethodOfPrinted(m: ContentAddressedMethod, a: HashAlgorithm)
    ensures ParseMethod(MethodPrefix(m) + AlgorithmName(a)) == (AlgorithmName(a), m)
    ensures ParseHashAlgorithm(AlgorithmName(a)) == Some(a)
    ensures MethodPrefix(m) + AlgorithmName(a) != ""
  {
    var s := MethodPrefix(m) + AlgorithmName(a);
    assert AlgorithmName(a)[0] == 'm' || AlgorithmName(a)[0] == 's';
    match m
    case NixArchive => assert s[2..] == AlgorithmName(a);
    case Git => assert s[0] == 'g' && s[4..] == AlgorithmName(a);
    case Text => assert s[0] == 't' && s[5..] == AlgorithmName(a);
    case Flat => assert s == AlgorithmName(a);
  }

  lemma PrintedOfMethod(s: string, a: HashAlgorithm)
    requires ParseHashAlgorithm(ParseMethod(s).0) == Some(a)
    ensures s == MethodPrefix(ParseMethod(s).1) + AlgorithmName(a)
  {
    assert ParseMethod(s).0 == AlgorithmName(a);
    assert s == MethodPrefix(ParseMethod(s).1) + ParseMethod(s).0;
  }

  /** What is left of a triple's hash: without an algorithm it is never looked at. */
  function EffectiveHash(hashAlgo: string, hash: string): string {
    if hashAlgo == "" then "" else hash
  }

  /** Classification and writing are inverse: a triple is read as `o` exactly when `o` is
      well-formed and the triple is how `o` is written. So the variants never overlap, and an
      accepted triple loses only the path of a fixed output and a hash given without an
      algorithm. */
  lemma OutputClassification(store: Store, path: string, hashAlgo: string, hash: string, o: DerivationOutput)
    ensures NewOutput(store, path, hashAlgo, hash) == Valid(o) <==>
            WellFormed(store, o) && OutputFields(path, hashAlgo, EffectiveHash(hashAlgo, hash)) == FieldsOf(o, path)
  {
    if NewOutput(store, path, hashAlgo, hash) == Valid(o) {
      ReadIsWritten(store, path, hashAlgo, hash, o);
    }
    if WellFormed(store, o) && OutputFields(path, hashAlgo, EffectiveHash(hashAlgo, hash)) == FieldsOf(o, path) {
      WrittenIsRead(store, o, path);
    }
  }

  /** A triple that loses its hash: the text claims one, the value does not have it. */
  lemma HashWithoutAlgorithmIgnored(store: Store, hash: string)
    ensures NewOutput(store, "", "", hash) == Valid(Deferred)
    ensures hash != "" ==> OutputFields("", "", hash) != FieldsOf(Deferred, "")
  {
  }

  lemma ReadIsWritten(store: Store, path: string, hashAlgo: string, hash: string, o: DerivationOutput)
    requires NewOutput(store, path, hashAlgo, hash) == Valid(o)
    ensures WellFormed(store, o) && OutputFields(path, hashAlgo, EffectiveHash(hashAlgo, hash)) == FieldsOf(o, path)
  {
    if hashAlgo != "" {
      PrintedOfMethod(hashAlgo, o.hashAlgo);
      assert hashAlgo == MethodPrefix(o.method_) + AlgorithmName(o.hashAlgo);
    }
  }

  lemma WrittenIsRead(store: Store, o: DerivationOutput, fixedPath: string)
    requires WellFormed(store, o)
    ensures var f := FieldsOf(o, fixedPath); NewOutput(store, f.path, f.hashAlgo, f.hash) == Valid(o)
  {
    match o
    case Deferred =>
    case InputAddressed(path) =>
    case Impure(m, a) => MethodOfPrinted(m, a);
    case CAFixed(m, a, hash) => MethodOfPrinted(m, a);
    case CAFloating(m, a) => MethodOfPrinted(m, a);
  }

  // ---------- Printing ----------

  /** A derivation laid out for printing: maps and sets as lists in some order. Repeated
      keys are allowed. Outputs carry the path to write for a fixed output. */
  datatype Listing = Listing(
    outputs: seq<(string, DerivationOutput, string)>,
    inputDrvs: seq<(string, seq<string>)>,
    inputSrcs: seq<string>,
    platform: string,
    builder: string,
    args: seq<string>,
    env: seq<(string, string)>)

  function PrintStrings(vs: seq<string>): string {
    "[" + Commas(seq(|vs|, i requires 0 <= i < |vs| => PrintString(vs[i]))) + "]"
  }

  function PrintPair(kv: (string, string)): string {
    "(" + PrintString(kv.0) + "," + PrintString(kv.1) + ")"
  }

  function PrintFields(name: string, f: OutputFields): string {
    "(" + PrintString(name) + "," + PrintString(f.path) + "," + PrintString(f.hashAlgo) + "," + PrintString(f.hash) + ")"
  }

  function PrintOutput(o: (string, DerivationOutput, string)): string {
    PrintFields(o.0, FieldsOf(o.1, o.2))
  }

  function PrintInput(kv: (string, seq<string>)): string {
    "(" + PrintString(kv.0) + "," + PrintStrings(kv.1) + ")"
  }

  function PrintOutputs(os: seq<(string, DerivationOutput, string)>): string {
    "[" + Commas(seq(|os|, i requires 0 <= i < |os| => PrintOutput(os[i]))) + "]"
  }

  function PrintInputs(kvs: seq<(string, seq<string>)>): string {
    "[" + Commas(seq(|kvs|, i requires 0 <= i < |kvs| => PrintInput(kvs[i]))) + "]"
  }

  function PrintPairs(kvs: seq<(string, string)>): string {
    "[" + Commas(seq(|kvs|, i requires 0 <= i < |kvs| => PrintPair(kvs[i]))) + "]"
  }

  function PrintedTexts(l: Listing): Texts {
    Texts(PrintOutputs(l.outputs), PrintInputs(l.inputDrvs), PrintStrings(l.inputSrcs), PrintString(l.platform),
          PrintString(l.builder), PrintStrings(l.args), PrintPairs(l.env))
  }

  function PrintDerivation(l: Listing): string {
    "Derive(" + Assemble(PrintedTexts(l))
  }

  function ListingFields(l: Listing): Fields {
    Fields(OutputEntries(l.outputs), InputEntries(l.inputDrvs), l.inputSrcs, l.platform, l.builder, l.args, l.env)
  }

  function OutputEntries(os: seq<(string, DerivationOutput, string)>): seq<(string, DerivationOutput)> {
    seq(|os|, i requires 0 <= i < |os| => (os[i].0, os[i].1))
  }

  function InputEntries(kvs: seq<(string, seq<string>)>): seq<(string, InputDrv)> {
    seq(|kvs|, i requires 0 <= i < |kvs| => (kvs[i].0, Paths(set x | x in kvs[i].1)))
  }

  // ---------- Printed texts are in the grammar ----------

  lemma PrintStringsText(vs: seq<string>)
    ensures StringsText(PrintStrings(vs), vs)
  {
    var pieces := seq(|vs|, i requires 0 <= i < |vs| => PrintString(vs[i]));
    forall i | 0 <= i < |vs| ensures StringText(pieces[i], vs[i]) {
      StringRoundTrip(vs[i], "");
    }
    assert Matches(StringText, pieces, vs);
  }

  lemma PrintPairText(kv: (string, string))
    ensures PairText(PrintPair(kv), kv)
  {
    StringRoundTrip(kv.0, "");
    StringRoundTrip(kv.1, "");
  }

  lemma PrintInputText(kv: (string, seq<string>))
    ensures InputText(PrintInput(kv), (kv.0, Paths(set x | x in kv.1)))
  {
    StringRoundTrip(kv.0, "");
    PrintStringsText(kv.1);
  }

  lemma PrintFieldsText(name: string, f: OutputFields)
    ensures FieldsText(PrintFields(name, f), name, f)
  {
    StringRoundTrip(name, "");
    StringRoundTrip(f.path, "");
    StringRoundTrip(f.hashAlgo, "");
    StringRoundTrip(f.hash, "");
  }

  lemma PrintOutputText(store: Store, o: (string, DerivationOutput, string))
    requires WellFormed(store, o.1)
    ensures OutputText(store, PrintOutput(o), (o.0, o.1))
  {
    PrintFieldsText(o.0, FieldsOf(o.1, o.2));
    WrittenIsRead(store, o.1, o.2);
  }

  ghost predicate OutputsWellFormed(store: Store, l: Listing) {
    forall i | 0 <= i < |l.outputs| :: WellFormed(store, l.outputs[i].1)
  }

  lemma PrintOutputsText(store: Store, os: seq<(string, DerivationOutput, string)>)
    requires forall i | 0 <= i < |os| :: WellFormed(store, os[i].1)
    ensures ListText(OutputGrammar(store), PrintOutputs(os), OutputEntries(os))
  {
    var pieces := seq(|os|, i requires 0 <= i < |os| => PrintOutput(os[i]));
    var g, kvs := OutputGrammar(store), OutputEntries(os);
    forall i | 0 <= i < |os| ensures g(pieces[i], kvs[i]) { PrintOutputText(store, os[i]); }
    assert Matches(g, pieces, kvs);
  }

  lemma PrintInputsText(kvs: seq<(string, seq<string>)>)
    ensures ListText(InputText, PrintInputs(kvs), InputEntries(kvs))
  {
    var pieces := seq(|kvs|, i requires 0 <= i < |kvs| => PrintInput(kvs[i]));
    forall i | 0 <= i < |kvs| ensures InputText(pieces[i], InputEntries(kvs)[i]) { PrintInputText(kvs[i]); }
    assert Matches(InputText, pieces, InputEntries(kvs));
  }

  lemma PrintPairsText(kvs: seq<(string, string)>)
    ensures ListText(PairText, PrintPairs(kvs), kvs)
  {
    var pieces := seq(|kvs|, i requires 0 <= i < |kvs| => PrintPair(kvs[i]));
    forall i | 0 <= i < |kvs| ensures PairText(pieces[i], kvs[i]) { PrintPairText(kvs[i]); }
    assert Matches(PairText, pieces, kvs);
  }

  lemma PrintedFieldTexts(store: Store, l: Listing)
    requires OutputsWellFormed(store, l)
    ensures FieldTexts(store, Traditional, PrintedTexts(l), ListingFields(l))
  {
    PrintOutputsText(store, l.outputs);
    PrintInputsText(l.inputDrvs);
    PrintPairsText(l.env);
    PrintStringsText(l.inputSrcs);
    PrintStringsText(l.args);
    StringRoundTrip(l.platform, "");
    StringRoundTrip(l.builder, "");
  }

  // ---------- Round trips ----------

  /** Whatever is printed is read back, in any order of its entries and before any text;
      of entries with the same key the last one counts (`ToMap`, `ToMapLastWins`). */
  lemma ListingRoundTrip(store: Store, name: string, l: Listing, t: string)
    requires OutputsWellFormed(store, l)
    ensures ParseDerivation(store, name, PrintDerivation(l) + t) == Ok(t, CollectFields(name, Traditional, ListingFields(l)))
  {
    PrintedFieldTexts(store, l);
    Reassociate("Derive(", Assemble(PrintedTexts(l)), t);
    TextsComplete(store, name, Traditional, "Derive(", PrintedTexts(l), ListingFields(l), t);
  }

  /** `l` lays out `d`: each entry of each map once, the sets in some order. */
  ghost predicate Describes(l: Listing, d: Derivation) {
    var f := ListingFields(l);
    && d.version.Traditional?
    && Enumerates(f.outputs, d.outputs) && Enumerates(f.inputDrvs, d.inputDrvs) && Enumerates(f.env, d.env)
    && (forall x :: x in d.inputSrcs <==> x in f.inputSrcs)
    && l.platform == d.platform && l.builder == d.builder && l.args == d.args
  }

  lemma DescribedIsCollected(l: Listing, d: Derivation)
    requires Describes(l, d)
    ensures CollectFields(d.name, Traditional, ListingFields(l)) == d
  {
    var f := ListingFields(l);
    ToMapOfEnumeration(f.outputs, d.outputs);
    ToMapOfEnumeration(f.inputDrvs, d.inputDrvs);
    ToMapOfEnumeration(f.env, d.env);
  }

  ghost predicate DerivationWellFormed(store: Store, d: Derivation) {
    && (forall k | k in d.outputs :: WellFormed(store, d.outputs[k]))
    && (forall k | k in d.inputDrvs :: d.inputDrvs[k].Paths?)
  }

  /** Parsing undoes printing for every well-formed traditional derivation, every order of
      its entries and every trailing text. */
  lemma DerivationRoundTrip(store: Store, d: Derivation, l: Listing, t: string)
    requires Describes(l, d) && DerivationWellFormed(store, d)
    ensures ParseDerivation(store, d.name, PrintDerivation(l) + t) == Ok(t, d)
  {
    var f := ListingFields(l);
    forall i | 0 <= i < |l.outputs| ensures WellFormed(store, l.outputs[i].1) {
      assert f.outputs[i] == (l.outputs[i].0, l.outputs[i].1);
      assert d.outputs[f.outputs[i].0] == f.outputs[i].1;
    }
    ListingRoundTrip(store, d.name, l, t);
    DescribedIsCollected(l, d);
  }

  /** Two derivations never print to texts of which one continues the other. */
  lemma PrintingIsPrefixFree(store: Store, d: Derivation, e: Derivation, l: Listing, m: Listing, t: string, u: string)
    requires Describes(l, d) && DerivationWellFormed(store, d)
    requires Describes(m, e) && DerivationWellFormed(store, e) && d.name == e.name
    requires PrintDerivation(l) + t == PrintDerivation(m) + u
    ensures d == e && t == u
  {
    DerivationRoundTrip(store, d, l, t);
    DerivationRoundTrip(store, e, m, u);
  }

  // ---------- Parsing, printing, parsing ----------

  lemma {:induction false} CollectedOutputsWellFormed(store: Store, kvs: seq<(string, DerivationOutput)>)
    requires forall i | 0 <= i < |kvs| :: WellFormed(store, kvs[i].1)
    ensures forall k | k in ToMap(kvs) :: WellFormed(store, ToMap(kvs)[k])
  {
    if kvs != [] {
      CollectedOutputsWellFormed(store, kvs[..|kvs| - 1]);
    }
  }

  lemma {:induction false} CollectedInputsArePaths(kvs: seq<(string, InputDrv)>)
    requires forall i | 0 <= i < |kvs| :: kvs[i].1.Paths?
    ensures forall k | k in ToMap(kvs) :: ToMap(kvs)[k].Paths?
  {
    if kvs != [] {
      CollectedInputsArePaths(kvs[..|kvs| - 1]);
    }
  }

  lemma ParsedIsWellFormed(store: Store, name: string, s: string)
    requires ParseDerivation(store, name, s).Ok?
    ensures var d := ParseDerivation(store, name, s).value;
            d.name == name && DerivationWellFormed(store, d)
  {
    var text, f := DerivationSound(store, name, s);
    var version := ParseDerivation(store, name, s).value.version;
    var h, x :| HeaderText(version, h) && FieldTexts(store, version, x, f) && text == h + Assemble(x);
    OutputsInGrammarWellFormed(store, x.outputs, f.outputs);
    CollectedOutputsWellFormed(store, f.outputs);
    if version.Traditional? {
      InputsInGrammarArePaths(x.inputDrvs, f.inputDrvs);
    }
    CollectedInputsArePaths(f.inputDrvs);
  }

  lemma OutputsInGrammarWellFormed(store: Store, text: string, kvs: seq<(string, DerivationOutput)>)
    requires ListText(OutputGrammar(store), text, kvs)
    ensures forall i | 0 <= i < |kvs| :: WellFormed(store, kvs[i].1)
  {
    var pieces :| Matches(OutputGrammar(store), pieces, kvs) && text == "[" + Commas(pieces) + "]";
    forall i | 0 <= i < |kvs| ensures WellFormed(store, kvs[i].1) {
      assert OutputText(store, pieces[i], kvs[i]);
      var f :| FieldsText(pieces[i], kvs[i].0, f) && NewOutput(store, f.path, f.hashAlgo, f.hash) == Valid(kvs[i].1);
      OutputClassification(store, f.path, f.hashAlgo, f.hash, kvs[i].1);
    }
  }

  lemma InputsInGrammarArePaths(text: string, kvs: seq<(string, InputDrv)>)
    requires ListText(InputText, text, kvs)
    ensures forall i | 0 <= i < |kvs| :: kvs[i].1.Paths?
  {
    var pieces :| Matches(InputText, pieces, kvs) && text == "[" + Commas(pieces) + "]";
    forall i | 0 <= i < |kvs| ensures kvs[i].1.Paths? {
      assert InputText(pieces[i], kvs[i]);
    }
  }

  /** Parse, print, parse is parse: whatever file a derivation was read from, writing it
      out in any order and reading it again gives the same derivation. */
  lemma Reparse(store: Store, name: string, s: string, l: Listing, u: string)
    requires ParseDerivation(store, name, s).Ok?
    requires Describes(l, ParseDerivation(store, name, s).value)
    ensures ParseDerivation(store, name, PrintDerivation(l) + u) == Ok(u, ParseDerivation(store, name, s).value)
  {
    ParsedIsWellFormed(store, name, s);
    DerivationRoundTrip(store, ParseDerivation(store, name, s).value, l, u);
  }

  lemma {:induction false} EnumerationExists<K, V>(m: map<K, V>) returns (kvs: seq<(K, V)>)
    ensures Enumerates(kvs, m)
    decreases |m|
  {
    if m == map[] {
      kvs := [];
    } else {
      var k :| k in m;
      var smaller := m - {k};
      var rest := EnumerationExists(smaller);
      kvs := [(k, m[k])] + rest;
      forall q | q in m ensures HasKey(kvs, q) {
        if q == k {
          assert kvs[0].0 == q;
        } else {
          assert q in smaller;
          var i :| 0 <= i < |rest| && rest[i].0 == q;
          assert kvs[i + 1].0 == q;
        }
      }
    }
  }

  lemma {:induction false} SetListingExists(s: set<string>) returns (xs: seq<string>)
    ensures forall x :: x in s <==> x in xs
  {
    if s == {} {
      xs := [];
    } else {
      var x :| x in s;
      var rest := SetListingExists(s - {x});
      xs := [x] + rest;
    }
  }

  /** Every well-formed traditional derivation can be laid out for printing. */
  lemma ListingExists(store: Store, d: Derivation) returns (l: Listing)
    requires d.version.Traditional? && DerivationWellFormed(store, d)
    ensures Describes(l, d)
  {
    var outs := EnumerationExists(d.outputs);
    var drvs := EnumerationExists(d.inputDrvs);
    var env := EnumerationExists(d.env);
    var srcs := SetListingExists(d.inputSrcs);
    var inputs := InputListing(drvs, d.inputDrvs);
    l := Listing(seq(|outs|, i requires 0 <= i < |outs| => (outs[i].0, outs[i].1, "")), inputs, srcs, d.platform, d.builder, d.args, env);
    assert ListingFields(l).outputs == outs;
    assert ListingFields(l).inputDrvs == drvs;
  }

  lemma {:induction false} InputListing(drvs: seq<(string, InputDrv)>, m: map<string, InputDrv>) returns (inputs: seq<(string, seq<string>)>)
    requires forall i | 0 <= i < |drvs| :: drvs[i].0 in m && m[drvs[i].0] == drvs[i].1
    requires forall k | k in m :: m[k].Paths?
    ensures |inputs| == |drvs|
    ensures forall i | 0 <= i < |drvs| :: drvs[i] == (inputs[i].0, Paths(set x | x in inputs[i].1))
  {
    if drvs == [] {
      inputs := [];
    } else {
      var rest := InputListing(drvs[1..], m);
      var xs := SetListingExists(drvs[0].1.paths);
      inputs := [(drvs[0].0, xs)] + rest;
      assert drvs[0].1.paths == set x | x in xs;
    }
  }

  // ---------- Rejections ----------

  /** A list is never cut short at an element it cannot read: after any number of good
      elements, none included, something that is no element fails the whole list. (Directly
      behind the opening bracket, a closing one ends the empty list.) */
  lemma BadElementRejected<T(!new)>(p: string -> ParseResult<T>, g: (string, T) -> bool, pieces: seq<string>, vs: seq<T>, bad: string)
    requires Shrinks(p) && Complete(p, g) && Matches(g, pieces, vs) && p(bad).Error?
    requires pieces == [] ==> !("]" <= bad)
    ensures List(p, "[" + (Commas(pieces) + ((if pieces == [] then "" else ",") + bad))) == Error
  {
    var rest := (if pieces == [] then "" else ",") + bad;
    GiveTag("[", Commas(pieces) + rest);
    if pieces == [] {
      assert Commas(pieces) + rest == bad;
    } else {
      var more := pieces[1..];
      CommasStep(pieces[0], more, rest);
      assert [pieces[0]] + more == pieces;
      assert rest[1..] == bad;
      MoreElementsTaken(p, g, more, vs[1..], rest);
      assert p(pieces[0] + (Tail(more) + rest)) == Ok(Tail(more) + rest, vs[0]);
      assert rest[0] == ',';
    }
  }

  /** Behind a version header the parser expects the outputs at once, so the comma that Nix
      writes there fails every dynamic derivation Nix writes, and any other version, however
      the version is spelled. */
  lemma DynamicDerivationsRejected(store: Store, name: string, a: string, v: string, t: string)
    requires StringText(a, v)
    ensures ParseDerivation(store, name, "DrvWithVersion(" + (a + ("," + t))) == Error
  {
    GiveVersionString(a, v, "," + t);
    assert ("," + t)[0] == ',' && "["[0] == '[';
    assert Tag("[", "," + t) == Error;
    assert ParseOutputs(store, "," + t) == Error;
  }

  /** Without that comma, and without inputs, a dynamic derivation is accepted: texts that
      Nix never writes. */
  lemma CommalessDynamicAccepted(store: Store, name: string, l: Listing, t: string)
    requires OutputsWellFormed(store, l) && l.inputDrvs == []
    ensures ParseDerivation(store, name, "DrvWithVersion(" + PrintString("xp-dyn-drv") + Assemble(PrintedTexts(l)) + t) ==
            Ok(t, CollectFields(name, Dynamic, ListingFields(l)))
  {
    var h := DynamicHeaderText("xp-dyn-drv");
    PrintedFieldTexts(store, l);
    assert PrintedTexts(l).inputDrvs == "[]" && ListingFields(l).inputDrvs == [];
    Reassociate(h, Assemble(PrintedTexts(l)), t);
    TextsComplete(store, name, Dynamic, h, PrintedTexts(l), ListingFields(l), t);
  }

  lemma DynamicHeaderText(v: string) returns (h: string)
    requires v == "xp-dyn-drv"
    ensures h == "DrvWithVersion(" + PrintString(v) && HeaderText(Dynamic, h)
  {
    h := "DrvWithVersion(" + PrintString(v);
    StringRoundTrip(v, "");
  }
}
