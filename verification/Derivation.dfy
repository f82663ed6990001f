/** Store derivations and their `.drv` parser. */
module Derivation {
  import opened Nom
  import opened Options
  import opened QuotedString

  datatype HashAlgorithm = Md5 | Sha1 | Sha256 | Sha512

  datatype ContentAddressedMethod = NixArchive | Git | Text | Flat

  datatype DerivationOutput =
    | Deferred
    | InputAddressed(path: string)
    | Impure(method_: ContentAddressedMethod, hashAlgo: HashAlgorithm)
    | CAFixed(method_: ContentAddressedMethod, hashAlgo: HashAlgorithm, hash: string)
    | CAFloating(method_: ContentAddressedMethod, hashAlgo: HashAlgorithm)

  datatype DerivationVersion = Traditional | Dynamic

  /** `DrvMap` is declared by the source but no parser branch builds it. */
  datatype InputDrv = Paths(paths: set<string>) | DrvMap(drvs: map<string, InputDrv>)

  datatype Derivation = Derivation(
    version: DerivationVersion,
    name: string,
    outputs: map<string, DerivationOutput>,
    inputSrcs: set<string>,
    inputDrvs: map<string, InputDrv>,
    platform: string,
    builder: string,
    args: seq<string>,
    env: map<string, string>)

  /** The store, as far as parsing looks at it: which texts `parse_path` accepts. */
  datatype Store = Store(isStorePath: string -> bool)

  datatype OutputError = UnrecognizedHashAlgorithm | UnexpectedOutputPath | InvalidStorePath

  datatype OutputResult = Valid(output: DerivationOutput) | Invalid(error: OutputError)

  // ---------- Output classification ----------

  function ParseHashAlgorithm(s: string): Option<HashAlgorithm> {
    if s == "md5" then Some(Md5)
    else if s == "sha1" then Some(Sha1)
    else if s == "sha256" then Some(Sha256)
    else if s == "sha512" then Some(Sha512)
    else None
  }

  function ParseMethod(s: string): (string, ContentAddressedMethod) {
    if "r:" <= s then (s[2..], NixArchive)
    else if "git:" <= s then (s[4..], Git)
    else if "text:" <= s then (s[5..], Text)
    else (s, Flat)
  }

  function NewOutput(store: Store, path: string, hashAlgo: string, hash: string): OutputResult {
    if hashAlgo != "" then
      var (rest, m) := ParseMethod(hashAlgo);
      match ParseHashAlgorithm(rest)
      case None => Invalid(UnrecognizedHashAlgorithm)
      case Some(algo) =>
        if hash == "impure" then
          if path != "" then Invalid(UnexpectedOutputPath) else Valid(Impure(m, algo))
        else if hash != "" then
          Valid(CAFixed(m, algo, hash))
        else
          if path != "" then Invalid(UnexpectedOutputPath) else Valid(CAFloating(m, algo))
    else if path == "" then Valid(Deferred)
    else if store.isStorePath(path) then Valid(InputAddressed(path))
    else Invalid(InvalidStorePath)
  }

  // ---------- Parsers ----------

  /** `string` parsers composed as in `parse_pair`. */
  function ParsePair(s: string): (r: ParseResult<(string, string)>)
    ensures r.Ok? ==> |r.rest| <= |s|
    ensures !r.Panic?
  {
    var (s, _) :- Tag("(", s);
    var (s, name) :- ParseString(s);
    var (s, _) :- Tag(",", s);
    var (s, value) :- ParseString(s);
    var (s, _) :- Tag(")", s);
    Ok(s, (name, value))
  }

  function ParseDrvOutput(store: Store, s: string): (r: ParseResult<(string, DerivationOutput)>)
    ensures r.Ok? ==> |r.rest| <= |s|
    ensures !r.Panic?
  {
    var (s, _) :- Tag("(", s);
    var (s, name) :- ParseString(s);
    var (s, _) :- Tag(",", s);
    var (s, path) :- ParseString(s);
    var (s, _) :- Tag(",", s);
    var (s, hashAlgo) :- ParseString(s);
    var (s, _) :- Tag(",", s);
    var (s, hash) :- ParseString(s);
    var (s, _) :- Tag(")", s);
    match NewOutput(store, path, hashAlgo, hash)
    case Invalid(_) => Error
    case Valid(output) => Ok(s, (name, output))
  }

  function OutputParser(store: Store): (p: string -> ParseResult<(string, DerivationOutput)>)
    ensures Shrinks(p) && NeverPanics(p)
  {
    s => ParseDrvOutput(store, s)
  }

  /** `list(string)` */
  function ParseStrings(s: string): (r: ParseResult<seq<string>>)
    ensures r.Ok? ==> |r.rest| <= |s|
    ensures !r.Panic?
  {
    ListNeverPanics(ParseString, s);
    List(ParseString, s)
  }

  function ParseStringSet(s: string): (r: ParseResult<set<string>>)
    ensures r.Ok? ==> |r.rest| <= |s|
    ensures !r.Panic?
  {
    var (s, strs) :- ParseStrings(s);
    Ok(s, ToSet(strs))
  }

  /** `InputDrv::parse`; the dynamic format is a `todo!()`. */
  function ParseInputDrv(s: string, version: DerivationVersion): (r: ParseResult<InputDrv>)
    ensures r.Ok? ==> |r.rest| <= |s|
    ensures version.Traditional? ==> !r.Panic?
  {
    match version
    case Traditional =>
      var (s, strs) :- ParseStringSet(s);
      Ok(s, Paths(strs))
    case Dynamic => Panic
  }

  function ParseInput(s: string, version: DerivationVersion): (r: ParseResult<(string, InputDrv)>)
    ensures r.Ok? ==> |r.rest| <= |s|
    ensures version.Traditional? ==> !r.Panic?
  {
    var (s, _) :- Tag("(", s);
    var (s, name) :- ParseString(s);
    var (s, _) :- Tag(",", s);
    var (s, drv) :- ParseInputDrv(s, version);
    var (s, _) :- Tag(")", s);
    Ok(s, (name, drv))
  }

  function InputParser(version: DerivationVersion): (p: string -> ParseResult<(string, InputDrv)>)
    ensures Shrinks(p)
    ensures version.Traditional? ==> NeverPanics(p)
  {
    s => ParseInput(s, version)
  }

  /** `alt((traditional, dynamic))`. The comma after a dynamic version is left in place. */
  function ParseVersion(s: string): (r: ParseResult<DerivationVersion>)
    ensures r.Ok? ==> |r.rest| <= |s|
    ensures !r.Panic?
  {
    if "Derive(" <= s then Ok(s[7..], Traditional)
    else
      var (s, _) :- Tag("DrvWithVersion(", s);
      var (s, v) :- ParseString(s);
      if v != "xp-dyn-drv" then Error else Ok(s, Dynamic)
  }

  function ParseOutputs(store: Store, s: string): (r: ParseResult<seq<(string, DerivationOutput)>>)
    ensures !r.Panic?
  {
    ListNeverPanics(OutputParser(store), s);
    List(OutputParser(store), s)
  }

  function ParseInputs(version: DerivationVersion, s: string): (r: ParseResult<seq<(string, InputDrv)>>)
  {
    List(InputParser(version), s)
  }

  function ParsePairs(s: string): (r: ParseResult<seq<(string, string)>>)
    ensures !r.Panic?
  {
    ListNeverPanics(ParsePair, s);
    List(ParsePair, s)
  }

  /** `parse_derivation`, in three parts. */
  function ParseDerivation(store: Store, name: string, s: string): ParseResult<Derivation> {
    var (s, version) :- ParseVersion(s);
    ParseFields(store, name, version, s)
  }

  function ParseFields(store: Store, name: string, version: DerivationVersion, s: string): ParseResult<Derivation> {
    var (s, outputs) :- ParseOutputs(store, s);
    var (s, _) :- Tag(",", s);
    var (s, inputDrvs) :- ParseInputs(version, s);
    var (s, _) :- Tag(",", s);
    ParseLaterFields(name, version, outputs, inputDrvs, s)
  }

  function ParseLaterFields(name: string, version: DerivationVersion, outputs: seq<(string, DerivationOutput)>,
                            inputDrvs: seq<(string, InputDrv)>, s: string): (r: ParseResult<Derivation>)
    ensures !r.Panic?
  {
    var (s, inputSrcs) :- ParseStringSet(s);
    var (s, _) :- Tag(",", s);
    var (s, platform) :- ParseString(s);
    var (s, _) :- Tag(",", s);
    var (s, builder) :- ParseString(s);
    var (s, _) :- Tag(",", s);
    var (s, args) :- ParseStrings(s);
    var (s, _) :- Tag(",", s);
    var (s, env) :- ParsePairs(s);
    var (s, _) :- Tag(")", s);
    Ok(s, Derivation(version, name, ToMap(outputs), inputSrcs, ToMap(inputDrvs), platform, builder, args, ToMap(env)))
  }

  // ---------- Collecting into sets and maps ----------

  function ToSet<T(==)>(xs: seq<T>): set<T> {
    set x | x in xs
  }

  /** `into_iter().collect::<HashMap<_, _>>()`: a later entry replaces an earlier one. */
  function ToMap<K, V>(kvs: seq<(K, V)>): map<K, V> {
    if kvs == [] then map[]
    else ToMap(kvs[..|kvs| - 1])[kvs[|kvs| - 1].0 := kvs[|kvs| - 1].1]
  }

  lemma {:induction false} ToMapLastWins<K, V>(kvs: seq<(K, V)>, i: nat)
    requires i < |kvs|
    requires forall j | i < j < |kvs| :: kvs[j].0 != kvs[i].0
    ensures kvs[i].0 in ToMap(kvs) && ToMap(kvs)[kvs[i].0] == kvs[i].1
  {
    if i < |kvs| - 1 {
      ToMapLastWins(kvs[..|kvs| - 1], i);
    }
  }

  ghost predicate HasKey<K, V>(kvs: seq<(K, V)>, k: K) {
    exists i :: 0 <= i < |kvs| && kvs[i].0 == k
  }

  lemma {:induction false} ToMapKeys<K, V>(kvs: seq<(K, V)>, k: K)
    ensures k in ToMap(kvs) <==> HasKey(kvs, k)
  {
    if kvs != [] {
      var front := kvs[..|kvs| - 1];
      ToMapKeys(front, k);
      if HasKey(front, k) {
        var i :| 0 <= i < |front| && front[i].0 == k;
        assert kvs[i].0 == k;
      }
      if HasKey(kvs, k) && kvs[|kvs| - 1].0 != k {
        var i :| 0 <= i < |kvs| && kvs[i].0 == k;
        assert front[i].0 == k;
      }
    }
  }

  /** `kvs` lists the entries of `m`, each once, in some order. */
  ghost predicate Enumerates<K, V>(kvs: seq<(K, V)>, m: map<K, V>) {
    && (forall i, j | 0 <= i < j < |kvs| :: kvs[i].0 != kvs[j].0)
    && (forall i | 0 <= i < |kvs| :: kvs[i].0 in m && m[kvs[i].0] == kvs[i].1)
    && (forall k | k in m :: HasKey(kvs, k))
  }

  lemma ToMapOfEnumeration<K, V>(kvs: seq<(K, V)>, m: map<K, V>)
    requires Enumerates(kvs, m)
    ensures ToMap(kvs) == m
  {
    var collected := ToMap(kvs);
    forall k | k in m ensures k in collected {
      ToMapKeys(kvs, k);
    }
    forall k | k in collected ensures k in m {
      ToMapKeys(kvs, k);
    }
    forall k | k in m ensures collected[k] == m[k] {
      var i :| 0 <= i < |kvs| && kvs[i].0 == k;
      ToMapLastWins(kvs, i);
    }
    assert collected.Keys == m.Keys;
  }
}
