/** `parse_drv`: from the text of a `.drv` file to the fields of the derivation, and back. */
module DrvFile {
  import opened Texts
  import opened Sorting
  import opened Aterm

  datatype OutputInfo = OutputInfo(path: Option<Text>, hashAlgo: Option<Text>, method_: Option<Text>,
      hash: Option<Text>)

  datatype DrvInfo = DrvInfo(name: Text, outputs: map<Text, OutputInfo>, inputDrvs: map<Text, seq<Text>>,
                             inputSrcs: seq<Text>, system: Text, builder: Text, args: seq<Text>,
                             env: map<Text, Text>)

  // ----- text helpers ---------------------------------------------------------------

  predicate IsSpace(c: char) {
    c == ' ' || 9 <= c as int <= 13
  }

  function TrimEnd(s: Text): (r: Text)
    ensures r <= s
  {
    if s != [] && IsSpace(s[|s| - 1]) then TrimEnd(s[..|s| - 1]) else s
  }

  /** `trim_end_matches(".drv")` */
  function TrimDrv(s: Text): Text {
    if |s| >= 4 && s[|s| - 4..] == ".drv" then TrimDrv(s[..|s| - 4]) else s
  }

  /** `store_path_name(path).unwrap_or_default()` without its `.drv` suffix. */
  function NameFromPath(path: Text): Text {
    var base := path[AfterLast(path, '/')..];
    match SplitOnce(base, '-')
    case Some((_, name)) => TrimDrv(name)
    case None => []
  }

  function NonEmpty(s: Text): Option<Text> {
    if s == [] then None else Some(s)
  }

  function SplitAlgo(a: Text): (Option<Text>, Option<Text>) {
    if a == [] then (None, None)
    else
      match SplitOnce(a, ':')
      case Some((m, algo)) => (Some(if m == "r" then "nar" else m), Some(algo))
      case None => (Some("flat"), Some(a))
  }

  // ----- reading the fields -----------------------------------------------------------

  function AsStr(t: ATerm): Result<Text, DrvError> {
    if t.Str? then Ok(t.s) else Err(ExpectedString)
  }

  function AsList(t: ATerm): Result<seq<ATerm>, DrvError> {
    if t.Str? then Err(ExpectedList) else Ok(t.items)
  }

  /** `as_str(&t[k])`, where indexing past the end panics. */
  function StrAt(t: seq<ATerm>, k: nat): Result<Text, DrvError> {
    if k < |t| then AsStr(t[k]) else Err(IndexPanic)
  }

  function Strs(ts: seq<ATerm>): (r: Result<seq<Text>, DrvError>)
    ensures r.Ok? ==> |r.value| == |ts|
  {
    if ts == [] then Ok([])
    else
      match AsStr(ts[0])
      case Err(e) => Err(e)
      case Ok(s) =>
        match Strs(ts[1..])
        case Err(e) => Err(e)
        case Ok(rest) => Ok([s] + rest)
  }

  function StrList(t: ATerm): Result<seq<Text>, DrvError> {
    match AsList(t)
    case Err(e) => Err(e)
    case Ok(ts) => Strs(ts)
  }

  type Entry<V> = Result<(Text, V), DrvError>

  function OutputEntry(o: ATerm): Entry<OutputInfo> {
    match AsList(o)
    case Err(e) => Err(e)
    case Ok(t) =>
      match StrAt(t, 0)
      case Err(e) => Err(e)
      case Ok(name) =>
        match StrAt(t, 1)
        case Err(e) => Err(e)
        case Ok(path) =>
          match StrAt(t, 2)
          case Err(e) => Err(e)
          case Ok(algo) =>
            match StrAt(t, 3)
            case Err(e) => Err(e)
            case Ok(hash) =>
              var (m, hashAlgo) := SplitAlgo(algo);
              Ok((name, OutputInfo(NonEmpty(path), hashAlgo, m, NonEmpty(hash))))
  }

  function InputDrvEntry(i: ATerm): Entry<seq<Text>> {
    match AsList(i)
    case Err(e) => Err(e)
    case Ok(t) =>
      match StrAt(t, 0)
      case Err(e) => Err(e)
      case Ok(path) =>
        if |t| < 2 then Err(IndexPanic)
        else
          match StrList(t[1])
          case Err(e) => Err(e)
          case Ok(outs) => Ok((path, outs))
  }

  function EnvEntry(t: ATerm): Entry<Text> {
    match AsList(t)
    case Err(e) => Err(e)
    case Ok(kv) =>
      match StrAt(kv, 0)
      case Err(e) => Err(e)
      case Ok(k) =>
        match StrAt(kv, 1)
        case Err(e) => Err(e)
        case Ok(v) => Ok((k, v))
  }

  /** Insert the entries one after another; later ones replace earlier ones. */
  function Collect<V>(entry: ATerm -> Entry<V>, ts: seq<ATerm>, acc: map<Text, V>): Result<map<Text, V>, DrvError> {
    if ts == [] then Ok(acc)
    else
      match entry(ts[0])
      case Err(e) => Err(e)
      case Ok((k, v)) => Collect(entry, ts[1..], acc[k := v])
  }

  function CollectField<V>(entry: ATerm -> Entry<V>, t: ATerm): Result<map<Text, V>, DrvError> {
    match AsList(t)
    case Err(e) => Err(e)
    case Ok(ts) => Collect(entry, ts, map[])
  }

  function ParseFields(name: Text, f: seq<ATerm>): Result<DrvInfo, DrvError> {
    if |f| != 7 then Err(FieldCount(|f|))
    else
      match CollectField(OutputEntry, f[0])
      case Err(e) => Err(e)
      case Ok(outputs) =>
        match CollectField(InputDrvEntry, f[1])
        case Err(e) => Err(e)
        case Ok(inputDrvs) =>
          match StrList(f[2])
          case Err(e) => Err(e)
          case Ok(inputSrcs) =>
            match AsStr(f[3])
            case Err(e) => Err(e)
            case Ok(system) =>
              match AsStr(f[4])
              case Err(e) => Err(e)
              case Ok(builder) =>
                match StrList(f[5])
                case Err(e) => Err(e)
                case Ok(args) =>
                  match CollectField(EnvEntry, f[6])
                  case Err(e) => Err(e)
                  case Ok(env) =>
                    Ok(DrvInfo(name, outputs, inputDrvs, inputSrcs, system, builder, args, env))
  }

  function ParseDrvText(path: Text, text: Text): Result<DrvInfo, DrvError> {
    var t := TrimEnd(text);
    if !StartsWith(t, "Derive(") then Err(NotDerive)
    else
      match ParseTerm(t[6..])
      case Err(e) => Err(e)
      case Ok((term, _)) => if term.Tuple? then ParseFields(NameFromPath(path), term.items) else Err(MalformedDerive)
  }

  method FillMap<V>(entry: ATerm -> Entry<V>, field: ATerm) returns (r: Result<map<Text, V>, DrvError>)
    ensures r == CollectField(entry, field)
  {
    var ts := AsList(field);
    if ts.Err? {
      return Err(ts.error);
    }
    var acc: map<Text, V> := map[];
    for i := 0 to |ts.value|
      invariant Collect(entry, ts.value[i..], acc) == Collect(entry, ts.value, map[])
    {
      var e := entry(ts.value[i]);
      if e.Err? {
        return Err(e.error);
      }
      assert ts.value[i..][1..] == ts.value[i + 1..];
      acc := acc[e.value.0 := e.value.1];
    }
    r := Ok(acc);
  }

  method ParseDrv(path: Text, text: Text) returns (r: Result<DrvInfo, DrvError>)
    ensures r == ParseDrvText(path, text)
  {
    var t := TrimEnd(text);
    if !StartsWith(t, "Derive(") {
      return Err(NotDerive);
    }
    var p := new Parser(t, 6);
    var term := p.Term();
    if term.Err? {
      return Err(term.error);
    }
    if !term.value.Tuple? {
      return Err(MalformedDerive);
    }
    var f := term.value.items;
    if |f| != 7 {
      return Err(FieldCount(|f|));
    }
    var outputs := FillMap(OutputEntry, f[0]);
    if outputs.Err? { return Err(outputs.error); }
    var inputDrvs := FillMap(InputDrvEntry, f[1]);
    if inputDrvs.Err? { return Err(inputDrvs.error); }
    var inputSrcs := StrList(f[2]);
    if inputSrcs.Err? { return Err(inputSrcs.error); }
    var system := AsStr(f[3]);
    if system.Err? { return Err(system.error); }
    var builder := AsStr(f[4]);
    if builder.Err? { return Err(builder.error); }
    var args := StrList(f[5]);
    if args.Err? { return Err(args.error); }
    var env := FillMap(EnvEntry, f[6]);
    if env.Err? { return Err(env.error); }
    r := Ok(DrvInfo(NameFromPath(path), outputs.value, inputDrvs.value, inputSrcs.value, system.value,
                    builder.value, args.value, env.value));
  }

  // ----- printing a derivation ----------------------------------------------------------

  function StrTerms(ss: seq<Text>): (r: seq<ATerm>)
    ensures |r| == |ss|
    ensures forall i :: 0 <= i < |ss| ==> r[i] == Str(ss[i])
  {
    Map((s: Text) => Str(s), ss)
  }

  function OrEmpty(s: Option<Text>): Text {
    match s
    case Some(v) => v
    case None => []
  }

  /** How a derivation file writes an output's hash algorithm. */
  function JoinAlgo(m: Option<Text>, algo: Option<Text>): Text {
    if m.None? || algo.None? then []
    else if m.value == "nar" then "r:" + algo.value
    else if m.value == "flat" then algo.value
    else m.value + ":" + algo.value
  }

  function OutputTerm(name: Text, o: OutputInfo): ATerm {
    Tuple([Str(name), Str(OrEmpty(o.path)), Str(JoinAlgo(o.method_, o.hashAlgo)), Str(OrEmpty(o.hash))])
  }

  function InputDrvTerm(path: Text, outs: seq<Text>): ATerm {
    Tuple([Str(path), List(StrTerms(outs))])
  }

  function EnvTerm(k: Text, v: Text): ATerm {
    Tuple([Str(k), Str(v)])
  }

  function MapTerms<V>(term: (Text, V) -> ATerm, m: map<Text, V>, keys: seq<Text>): (r: seq<ATerm>)
    requires forall k :: k in keys ==> k in m
    ensures |r| == |keys|
  {
    if keys == [] then [] else [term(keys[0], m[keys[0]])] + MapTerms(term, m, keys[1..])
  }

  function KeysInOrder<V>(m: map<Text, V>): (r: seq<Text>)
    ensures Elements(r) == m.Keys
    ensures forall k :: k in r ==> k in m
  {
    var r := InOrder(m.Keys);
    assert forall k :: k in r ==> k in Elements(r);
    r
  }

  function DeriveTerm(d: DrvInfo): ATerm {
    Tuple([List(MapTerms(OutputTerm, d.outputs, KeysInOrder(d.outputs))),
           List(MapTerms(InputDrvTerm, d.inputDrvs, KeysInOrder(d.inputDrvs))),
           List(StrTerms(d.inputSrcs)), Str(d.system), Str(d.builder), List(StrTerms(d.args)),
           List(MapTerms(EnvTerm, d.env, KeysInOrder(d.env)))])
  }

  function PrintDrv(d: DrvInfo): Text {
    "Derive" + Print(DeriveTerm(d))
  }

  /** Method and algorithm as a derivation file can write them. */
  predicate WellFormedAlgo(m: Option<Text>, algo: Option<Text>) {
    && (m.None? <==> algo.None?)
    && (m.Some? ==>
          && ':' !in m.value && m.value != "r"
          && (m.value == "flat" ==> algo.value != [] && ':' !in algo.value))
  }

  /** Absent fields are absent, not empty. */
  predicate WellFormedOutput(o: OutputInfo) {
    o.path != Some([]) && o.hash != Some([]) && WellFormedAlgo(o.method_, o.hashAlgo)
  }

  ghost predicate WellFormed(path: Text, d: DrvInfo) {
    && d.name == NameFromPath(path)
    && forall k :: k in d.outputs ==> WellFormedOutput(d.outputs[k])
  }

  // ----- round trip ------------------------------------------------------------------------

  lemma ColonAlgo(m: Text, algo: Text)
    ensures ':' !in m ==> SplitAlgo(m + ":" + algo) == (Some(if m == "r" then "nar" else m), Some(algo))
    ensures ':' in m ==> SplitAlgo(m + ":" + algo).0 != Some(m)
  {
    var a := m + ":" + algo;
    assert a == m + [':'] + algo;
    if ':' !in m {
      SplitOnceJoin(m, ':', algo);
    } else {
      var (x, y) := SplitOnce(m, ':').value;
      assert a == x + [':'] + (y + [':'] + algo);
      SplitOnceJoin(x, ':', y + [':'] + algo);
      assert ':' in m && ':' !in x;
    }
  }

  /** Splitting a printed algorithm gives method and algorithm back exactly when they are well-formed. */
  lemma AlgoRoundTripExactly(m: Option<Text>, algo: Option<Text>)
    ensures SplitAlgo(JoinAlgo(m, algo)) == (m, algo) <==> WellFormedAlgo(m, algo)
  {
    if m.Some? && algo.Some? {
      if m.value == "nar" {
        assert "r:" + algo.value == "r" + ":" + algo.value;
        ColonAlgo("r", algo.value);
      } else if m.value != "flat" {
        ColonAlgo(m.value, algo.value);
      }
    }
  }

  /** What parsing makes of a printed output. */
  function Normalised(o: OutputInfo): OutputInfo {
    var (m, algo) := SplitAlgo(JoinAlgo(o.method_, o.hashAlgo));
    OutputInfo(NonEmpty(OrEmpty(o.path)), algo, m, NonEmpty(OrEmpty(o.hash)))
  }

  lemma NormalisedExactly(o: OutputInfo)
    ensures Normalised(o) == o <==> WellFormedOutput(o)
  {
    AlgoRoundTripExactly(o.method_, o.hashAlgo);
  }

  lemma {:induction false} StrsRoundTrip(ss: seq<Text>)
    ensures Strs(StrTerms(ss)) == Ok(ss)
  {
    if ss != [] {
      assert StrTerms(ss)[1..] == StrTerms(ss[1..]);
      StrsRoundTrip(ss[1..]);
      assert ss == [ss[0]] + ss[1..];
    }
  }

  lemma OutputRoundTrip(name: Text, o: OutputInfo)
    ensures OutputEntry(OutputTerm(name, o)) == Ok((name, Normalised(o)))
  {
    var t := [Str(name), Str(OrEmpty(o.path)), Str(JoinAlgo(o.method_, o.hashAlgo)), Str(OrEmpty(o.hash))];
    assert AsList(OutputTerm(name, o)) == Ok(t);
    assert StrAt(t, 2) == Ok(JoinAlgo(o.method_, o.hashAlgo));
  }

  lemma InputDrvRoundTrip(path: Text, outs: seq<Text>)
    ensures InputDrvEntry(InputDrvTerm(path, outs)) == Ok((path, outs))
  {
    StrsRoundTrip(outs);
  }

  function Picked<V>(m: map<Text, V>, keys: seq<Text>): map<Text, V> {
    map k | k in keys && k in m :: m[k]
  }

  /** Collecting the printed entries of a map `m`, in any order of its keys, builds the map `out` of what
      the entries parse to. */
  lemma {:induction false} CollectMapTerms<V>(entry: ATerm -> Entry<V>, term: (Text, V) -> ATerm, m: map<Text, V>,
                                              out: map<Text, V>, keys: seq<Text>, acc: map<Text, V>)
    requires m.Keys == out.Keys && forall k :: k in keys ==> k in m
    requires forall k :: k in m ==> entry(term(k, m[k])) == Ok((k, out[k]))
    ensures Collect(entry, MapTerms(term, m, keys), acc) == Ok(acc + Picked(out, keys))
  {
    if keys == [] {
      assert acc + Picked(out, keys) == acc;
    } else {
      var k0 := keys[0];
      var ts := MapTerms(term, m, keys);
      assert ts[0] == term(k0, m[k0]) && ts[1..] == MapTerms(term, m, keys[1..]);
      CollectMapTerms(entry, term, m, out, keys[1..], acc[k0 := out[k0]]);
      assert acc[k0 := out[k0]] + Picked(out, keys[1..]) == acc + Picked(out, keys);
    }
  }

  lemma CollectWhole<V>(entry: ATerm -> Entry<V>, term: (Text, V) -> ATerm, m: map<Text, V>, out: map<Text, V>)
    requires m.Keys == out.Keys && forall k :: k in m ==> entry(term(k, m[k])) == Ok((k, out[k]))
    ensures CollectField(entry, List(MapTerms(term, m, KeysInOrder(m)))) == Ok(out)
  {
    var keys := KeysInOrder(m);
    CollectMapTerms(entry, term, m, out, keys, map[]);
    PickAll(out, keys);
  }

  lemma PickAll<V>(m: map<Text, V>, keys: seq<Text>)
    requires Elements(keys) == m.Keys
    ensures map[] + Picked(m, keys) == m
  {
    assert forall k :: k in keys <==> k in Elements(keys);
  }

  function NormalisedOutputs(outputs: map<Text, OutputInfo>): map<Text, OutputInfo> {
    map k | k in outputs :: Normalised(outputs[k])
  }

  lemma OutputsRoundTrip(outputs: map<Text, OutputInfo>)
    ensures CollectField(OutputEntry, List(MapTerms(OutputTerm, outputs, KeysInOrder(outputs)))) ==
            Ok(NormalisedOutputs(outputs))
  {
    forall k | k in outputs
      ensures OutputEntry(OutputTerm(k, outputs[k])) == Ok((k, NormalisedOutputs(outputs)[k]))
    {
      OutputRoundTrip(k, outputs[k]);
    }
    CollectWhole(OutputEntry, OutputTerm, outputs, NormalisedOutputs(outputs));
  }

  lemma InputDrvsRoundTrip(inputs: map<Text, seq<Text>>)
    ensures CollectField(InputDrvEntry, List(MapTerms(InputDrvTerm, inputs, KeysInOrder(inputs)))) == Ok(inputs)
  {
    forall k | k in inputs
      ensures InputDrvEntry(InputDrvTerm(k, inputs[k])) == Ok((k, inputs[k]))
    {
      InputDrvRoundTrip(k, inputs[k]);
    }
    CollectWhole(InputDrvEntry, InputDrvTerm, inputs, inputs);
  }

  lemma EnvRoundTrip(env: map<Text, Text>)
    ensures CollectField(EnvEntry, List(MapTerms(EnvTerm, env, KeysInOrder(env)))) == Ok(env)
  {
    CollectWhole(EnvEntry, EnvTerm, env, env);
  }

  /** What parsing makes of a printed derivation. */
  function Reread(path: Text, d: DrvInfo): DrvInfo {
    d.(name := NameFromPath(path), outputs := NormalisedOutputs(d.outputs))
  }

  lemma ParseGoodFields(outputs: ATerm, inputDrvs: ATerm, inputSrcs: ATerm, args: ATerm, env: ATerm, d: DrvInfo)
    requires CollectField(OutputEntry, outputs) == Ok(d.outputs)
    requires CollectField(InputDrvEntry, inputDrvs) == Ok(d.inputDrvs)
    requires CollectField(EnvEntry, env) == Ok(d.env)
    requires StrList(inputSrcs) == Ok(d.inputSrcs) && StrList(args) == Ok(d.args)
    ensures ParseFields(d.name, [outputs, inputDrvs, inputSrcs, Str(d.system), Str(d.builder), args, env]) == Ok(d)
  {
  }

  lemma FieldsRoundTrip(path: Text, d: DrvInfo)
    ensures ParseFields(NameFromPath(path), DeriveTerm(d).items) == Ok(Reread(path, d))
  {
    var outputs := List(MapTerms(OutputTerm, d.outputs, KeysInOrder(d.outputs)));
    var inputDrvs := List(MapTerms(InputDrvTerm, d.inputDrvs, KeysInOrder(d.inputDrvs)));
    var env := List(MapTerms(EnvTerm, d.env, KeysInOrder(d.env)));
    OutputsRoundTrip(d.outputs);
    InputDrvsRoundTrip(d.inputDrvs);
    EnvRoundTrip(d.env);
    StrListRoundTrip(d.inputSrcs);
    StrListRoundTrip(d.args);
    ParseGoodFields(outputs, inputDrvs, List(StrTerms(d.inputSrcs)), List(StrTerms(d.args)), env, Reread(path, d));
  }

  lemma StrListRoundTrip(ss: seq<Text>)
    ensures StrList(List(StrTerms(ss))) == Ok(ss)
  {
    StrsRoundTrip(ss);
  }

  lemma RereadExactly(path: Text, d: DrvInfo)
    ensures Reread(path, d) == d <==> WellFormed(path, d)
  {
    forall k | k in d.outputs
      ensures NormalisedOutputs(d.outputs)[k] == d.outputs[k] <==> WellFormedOutput(d.outputs[k])
    {
      NormalisedExactly(d.outputs[k]);
    }
    if WellFormed(path, d) {
      assert NormalisedOutputs(d.outputs) == d.outputs;
    }
  }

  /** The ASCII blanks: tab, line feed, vertical tab, form feed, carriage return, space. */
  predicate Blank(c: char) {
    c as int in {9, 10, 11, 12, 13, 32}
  }

  /** Trimming removes the blanks at the end. */
  lemma {:induction false} TrimEndExactly(a: Text, blanks: Text)
    requires forall i :: 0 <= i < |blanks| ==> Blank(blanks[i])
    requires a != [] ==> !Blank(a[|a| - 1])
    ensures TrimEnd(a + blanks) == a
  {
    var s := a + blanks;
    if blanks == [] {
      assert s == a;
    } else {
      assert s[|s| - 1] == blanks[|blanks| - 1];
      assert s[..|s| - 1] == a + blanks[..|blanks| - 1];
      TrimEndExactly(a, blanks[..|blanks| - 1]);
    }
  }

  lemma {:induction false} TrimEndKeeps(a: Text, junk: Text)
    requires a != [] && !IsSpace(a[|a| - 1])
    ensures exists x :: TrimEnd(a + junk) == a + x
  {
    var s := a + junk;
    if junk == [] {
      assert s == a && TrimEnd(s) == a + [];
    } else if IsSpace(s[|s| - 1]) {
      assert s[..|s| - 1] == a + junk[..|junk| - 1];
      TrimEndKeeps(a, junk[..|junk| - 1]);
    } else {
      assert TrimEnd(s) == a + junk;
    }
  }

  /** A printed `Derive` term is read field by field, whatever follows its closing parenthesis. */
  lemma PrintedFieldsParse(path: Text, f: seq<ATerm>, junk: Text)
    ensures ParseDrvText(path, "Derive" + Print(Tuple(f)) + junk) == ParseFields(NameFromPath(path), f)
  {
    var text := "Derive" + Print(Tuple(f));
    var body := PrintItems(f) + [')'];
    assert Print(Tuple(f)) == ['('] + body;
    assert text[|text| - 1] == ')';
    TrimEndKeeps(text, junk);
    var x :| TrimEnd(text + junk) == text + x;
    assert text + x == "Derive(" + (body + x);
    assert (text + x)[6..] == Print(Tuple(f)) + x;
    TermRoundTrip(Tuple(f), x);
  }

  /** Parsing a printed derivation never fails, whatever follows the closing parenthesis: it gives the
      derivation with the name its path has and its outputs normalised. */
  lemma PrintedDrvParses(path: Text, d: DrvInfo, junk: Text)
    ensures ParseDrvText(path, PrintDrv(d) + junk) == Ok(Reread(path, d))
  {
    PrintedFieldsParse(path, DeriveTerm(d).items, junk);
    FieldsRoundTrip(path, d);
  }

  /** So a derivation is recovered from its printed form exactly when it is well-formed. */
  lemma DrvRoundTripExactly(path: Text, d: DrvInfo, junk: Text)
    ensures ParseDrvText(path, PrintDrv(d) + junk) == Ok(d) <==> WellFormed(path, d)
  {
    PrintedDrvParses(path, d, junk);
    RereadExactly(path, d);
  }

  // ----- the panic on short tuples -----------------------------------------------------------

  /** A list or tuple of fewer than `n` items, all of them strings. */
  predicate Short(t: ATerm, n: nat) {
    !t.Str? && |t.items| < n && forall i :: 0 <= i < |t.items| ==> t.items[i].Str?
  }

  lemma StrAtPanics(t: seq<ATerm>, k: nat)
    ensures StrAt(t, k) == Err(IndexPanic) <==> |t| <= k
    ensures StrAt(t, k).Ok? <==> k < |t| && t[k].Str?
  {
  }

  /** Reading an output panics exactly on fewer than four items, all strings. */
  lemma OutputEntryPanics(o: ATerm)
    ensures OutputEntry(o) == Err(IndexPanic) <==> Short(o, 4)
  {
    if !o.Str? {
      StrAtPanics(o.items, 0);
      StrAtPanics(o.items, 1);
      StrAtPanics(o.items, 2);
      StrAtPanics(o.items, 3);
    }
  }

  lemma {:induction false} StrsNeverPanic(ts: seq<ATerm>)
    ensures Strs(ts) != Err(IndexPanic)
  {
    if ts != [] { StrsNeverPanic(ts[1..]); }
  }

  /** Reading an input derivation or an environment variable panics exactly on fewer than two. */
  lemma PairEntriesPanic(t: ATerm)
    ensures InputDrvEntry(t) == Err(IndexPanic) <==> Short(t, 2)
    ensures EnvEntry(t) == Err(IndexPanic) <==> Short(t, 2)
  {
    if !t.Str? {
      StrAtPanics(t.items, 0);
      StrAtPanics(t.items, 1);
      if |t.items| > 1 && !t.items[1].Str? {
        StrsNeverPanic(t.items[1].items);
      }
    }
  }

  /** The first entry that fails is too short. */
  ghost predicate FirstBadIsShort<V(!new)>(entry: ATerm -> Entry<V>, ts: seq<ATerm>, n: nat) {
    exists k :: 0 <= k < |ts| && Short(ts[k], n) && forall j :: 0 <= j < k ==> entry(ts[j]).Ok?
  }

  lemma {:induction false} CollectPanics<V(!new)>(entry: ATerm -> Entry<V>, ts: seq<ATerm>, n: nat, acc: map<Text, V>)
    requires forall o :: entry(o) == Err(IndexPanic) <==> Short(o, n)
    ensures Collect(entry, ts, acc) == Err(IndexPanic) <==> FirstBadIsShort(entry, ts, n)
  {
    if ts != [] {
      if entry(ts[0]).Ok? {
        CollectPanics(entry, ts[1..], n, acc[entry(ts[0]).value.0 := entry(ts[0]).value.1]);
        if FirstBadIsShort(entry, ts[1..], n) {
          var k :| 0 <= k < |ts[1..]| && Short(ts[1..][k], n) && forall j :: 0 <= j < k ==> entry(ts[1..][j]).Ok?;
          assert forall j :: 0 < j < k + 1 ==> ts[j] == ts[1..][j - 1];
          assert Short(ts[k + 1], n);
        }
        if FirstBadIsShort(entry, ts, n) {
          var k :| 0 <= k < |ts| && Short(ts[k], n) && forall j :: 0 <= j < k ==> entry(ts[j]).Ok?;
          assert entry(ts[k]).Err?;
          assert Short(ts[1..][k - 1], n) && forall j :: 0 <= j < k - 1 ==> ts[1..][j] == ts[j + 1];
        }
      } else if FirstBadIsShort(entry, ts, n) {
        var k :| 0 <= k < |ts| && Short(ts[k], n) && forall j :: 0 <= j < k ==> entry(ts[j]).Ok?;
        assert k == 0;
      } else {
        assert !Short(ts[0], n);
      }
    }
  }

  ghost predicate FieldPanics<V(!new)>(entry: ATerm -> Entry<V>, t: ATerm, n: nat) {
    !t.Str? && FirstBadIsShort(entry, t.items, n)
  }

  lemma FieldsPanic(f: ATerm)
    ensures CollectField(OutputEntry, f) == Err(IndexPanic) <==> FieldPanics(OutputEntry, f, 4)
    ensures CollectField(InputDrvEntry, f) == Err(IndexPanic) <==> FieldPanics(InputDrvEntry, f, 2)
    ensures CollectField(EnvEntry, f) == Err(IndexPanic) <==> FieldPanics(EnvEntry, f, 2)
  {
    forall o
      ensures OutputEntry(o) == Err(IndexPanic) <==> Short(o, 4)
      ensures InputDrvEntry(o) == Err(IndexPanic) <==> Short(o, 2)
      ensures EnvEntry(o) == Err(IndexPanic) <==> Short(o, 2)
    {
      OutputEntryPanics(o);
      PairEntriesPanic(o);
    }
    if !f.Str? {
      CollectPanics(OutputEntry, f.items, 4, map[]);
      CollectPanics(InputDrvEntry, f.items, 2, map[]);
      CollectPanics(EnvEntry, f.items, 2, map[]);
    }
  }

  /** Seven fields, of which the first bad one is a list with a too short first bad entry. */
  ghost predicate PanicFields(f: seq<ATerm>) {
    && |f| == 7
    && (|| FieldPanics(OutputEntry, f[0], 4)
        || (CollectField(OutputEntry, f[0]).Ok? && FieldPanics(InputDrvEntry, f[1], 2))
        || (CollectField(OutputEntry, f[0]).Ok? && CollectField(InputDrvEntry, f[1]).Ok? && StrList(f[2]).Ok?
            && f[3].Str? && f[4].Str? && StrList(f[5]).Ok? && FieldPanics(EnvEntry, f[6], 2)))
  }

  lemma ParseFieldsPanics(name: Text, f: seq<ATerm>)
    ensures ParseFields(name, f) == Err(IndexPanic) <==> PanicFields(f)
  {
    if |f| == 7 {
      FieldsPanic(f[0]);
      FieldsPanic(f[1]);
      FieldsPanic(f[6]);
      if !f[2].Str? { StrsNeverPanic(f[2].items); }
      if !f[5].Str? { StrsNeverPanic(f[5].items); }
    }
  }

  lemma {:induction false} CharsNeverPanic(s: Text)
    ensures ParseChars(s) != Err(IndexPanic)
    decreases |s|
  {
    if s != [] && s[0] == '\\' && |s| > 1 {
      CharsNeverPanic(s[2..]);
    } else if s != [] && s[0] != '"' && s[0] != '\\' {
      CharsNeverPanic(s[1..]);
    }
  }

  lemma {:induction false} TermNeverPanics(s: Text)
    ensures ParseTerm(s) != Err(IndexPanic)
    decreases |s|, 0
  {
    if s != [] {
      if s[0] == '"' { CharsNeverPanic(s[1..]); }
      if s[0] == '[' && !(|s| > 1 && s[1] == ']') { ItemsNeverPanic(s[1..], ']'); }
      if s[0] == '(' && !(|s| > 1 && s[1] == ')') { ItemsNeverPanic(s[1..], ')'); }
    }
  }

  lemma {:induction false} ItemsNeverPanic(s: Text, close: char)
    ensures ParseItems(s, close) != Err(IndexPanic)
    decreases |s|, 1
  {
    TermNeverPanics(s);
    var t := ParseTerm(s);
    if t.Ok? && t.value.1 != [] && t.value.1[0] == ',' {
      ItemsNeverPanic(t.value.1[1..], close);
    }
  }

  /** `parse_drv` panics exactly when the text is a `Derive(` term of seven fields of which the first bad
      one has, as its first bad entry, a tuple of strings that is too short. */
  lemma ParseDrvPanicsExactly(path: Text, text: Text)
    ensures ParseDrvText(path, text) == Err(IndexPanic)
       <==> && StartsWith(TrimEnd(text), "Derive(") && ParseTerm(TrimEnd(text)[6..]).Ok?
            && ParseTerm(TrimEnd(text)[6..]).value.0.Tuple? && PanicFields(ParseTerm(TrimEnd(text)[6..]).value.0.items)
  {
    var t := TrimEnd(text);
    if StartsWith(t, "Derive(") {
      TermNeverPanics(t[6..]);
      var r := ParseTerm(t[6..]);
      if r.Ok? && r.value.0.Tuple? {
        ParseFieldsPanics(NameFromPath(path), r.value.0.items);
      }
    }
  }

  /** `Derive([()],[],[],"","",[],[])` */
  lemma EmptyOutputTuplePanics(path: Text)
    ensures ParseDrvText(path, "Derive" + Print(Tuple([List([Tuple([])]), List([]), List([]), Str([]), Str([]),
                                                       List([]), List([])]))) == Err(IndexPanic)
  {
    var f := [List([Tuple([])]), List([]), List([]), Str([]), Str([]), List([]), List([])];
    PrintedFieldsParse(path, f, []);
    var text := "Derive" + Print(Tuple(f));
    assert text + [] == text;
    assert Short(f[0].items[0], 4);
    assert FirstBadIsShort(OutputEntry, f[0].items, 4);
    ParseFieldsPanics(NameFromPath(path), f);
  }

  // ----- the name of a store path ----------------------------------------------------------------

  /** `n` times the suffix `.drv`. */
  function Suffixes(n: nat): Text {
    if n == 0 then [] else Suffixes(n - 1) + ".drv"
  }

  predicate EndsInDrv(s: Text) {
    |s| >= 4 && s[|s| - 4..] == ".drv"
  }

  lemma {:induction false} TrimDrvSuffixes(name: Text, n: nat)
    requires !EndsInDrv(name)
    ensures TrimDrv(name + Suffixes(n)) == name
  {
    if n == 0 {
      assert name + Suffixes(n) == name;
    } else {
      var s := name + Suffixes(n);
      assert s == (name + Suffixes(n - 1)) + ".drv";
      assert s[|s| - 4..] == ".drv" && s[..|s| - 4] == name + Suffixes(n - 1);
      TrimDrvSuffixes(name, n - 1);
    }
  }

  lemma LastComponent(dir: Text, base: Text)
    requires '/' !in base
    ensures (dir + ['/'] + base)[AfterLast(dir + ['/'] + base, '/')..] == base
    ensures base[AfterLast(base, '/')..] == base
  {
    AfterLastJoin(dir, '/', base);
  }

  lemma {:induction false} SuffixesPlain(n: nat)
    ensures '/' !in Suffixes(n)
  {
    if n > 0 { SuffixesPlain(n - 1); }
  }

  /** The name of a store path is what follows the first dash of its last component, less every `.drv` at its
      end; a component without a dash has none. */
  lemma StorePathName(dir: Text, hash: Text, name: Text, n: nat)
    requires '-' !in hash && '/' !in hash && '/' !in name && !EndsInDrv(name)
    ensures NameFromPath(dir + "/" + (hash + "-" + (name + Suffixes(n)))) == name
    ensures NameFromPath(hash + "-" + (name + Suffixes(n))) == name
    ensures NameFromPath(dir + "/" + hash) == []
  {
    var base := hash + "-" + (name + Suffixes(n));
    SuffixesPlain(n);
    assert base == hash + ['-'] + (name + Suffixes(n)) && '/' !in base;
    SplitOnceJoin(hash, '-', name + Suffixes(n));
    TrimDrvSuffixes(name, n);
    LastComponent(dir, base);
    LastComponent(dir, hash);
  }

  /** Parsing a printed derivation at `dir/hash-name.drv` gives a derivation of that name. */
  lemma ParsedName(dir: Text, hash: Text, name: Text, d: DrvInfo, junk: Text)
    requires '-' !in hash && '/' !in hash && '/' !in name && !EndsInDrv(name)
    ensures var path := dir + "/" + (hash + "-" + (name + ".drv"));
            var r := ParseDrvText(path, PrintDrv(d) + junk); r.Ok? && r.value.name == name
    ensures var r := ParseDrvText(dir + "/" + hash, PrintDrv(d) + junk); r.Ok? && r.value.name == []
  {
    assert Suffixes(1) == ".drv";
    StorePathName(dir, hash, name, 1);
    PrintedDrvParses(dir + "/" + (hash + "-" + (name + ".drv")), d, junk);
    PrintedDrvParses(dir + "/" + hash, d, junk);
  }

  // ----- exactly what is parsed --------------------------------------------------------------------------

  /** A list or tuple of these strings. */
  predicate ListSays(t: ATerm, ss: seq<Text>) {
    !t.Str? && |t.items| == |ss| && forall i :: 0 <= i < |ss| ==> t.items[i] == Str(ss[i])
  }

  /** A text, or nothing if it is empty. */
  predicate Gives(s: Text, v: Option<Text>) {
    if |s| > 0 then v == Some(s) else v.None?
  }

  /** `r:` before a hash algorithm means `nar`, another prefix means itself, no prefix `flat`. */
  ghost predicate AlgoSays(a: Text, m: Option<Text>, algo: Option<Text>) {
    || (a == [] && m.None? && algo.None?)
    || (a != [] && ':' !in a && m == Some("flat") && algo == Some(a))
    || (m.Some? && algo.Some? && exists p :: ':' !in p && a == p + [':'] + algo.value
                                             && m.value == if p == "r" then "nar" else p)
  }

  ghost predicate OutputSays(t: ATerm, k: Text, o: OutputInfo) {
    && !t.Str? && |t.items| >= 4 && t.items[0] == Str(k)
    && t.items[1].Str? && t.items[2].Str? && t.items[3].Str?
    && Gives(t.items[1].s, o.path) && AlgoSays(t.items[2].s, o.method_, o.hashAlgo) && Gives(t.items[3].s, o.hash)
  }

  ghost predicate InputSays(t: ATerm, k: Text, outs: seq<Text>) {
    !t.Str? && |t.items| >= 2 && t.items[0] == Str(k) && ListSays(t.items[1], outs)
  }

  ghost predicate EnvSays(t: ATerm, k: Text, v: Text) {
    !t.Str? && |t.items| >= 2 && t.items[0] == Str(k) && t.items[1] == Str(v)
  }

  lemma AlgoExactly(a: Text, m: Option<Text>, algo: Option<Text>)
    ensures SplitAlgo(a) == (m, algo) <==> AlgoSays(a, m, algo)
  {
    if a != [] && ':' in a {
      var (p, h) := SplitOnce(a, ':').value;
      if AlgoSays(a, m, algo) {
        var q :| ':' !in q && a == q + [':'] + algo.value && m.value == if q == "r" then "nar" else q;
        SplitOnceJoin(q, ':', algo.value);
      }
    }
  }

  lemma {:induction false} StrsExactly(ts: seq<ATerm>, ss: seq<Text>)
    ensures Strs(ts) == Ok(ss) <==> |ts| == |ss| && forall i :: 0 <= i < |ss| ==> ts[i] == Str(ss[i])
  {
    if ts != [] {
      if ss != [] {
        StrsExactly(ts[1..], ss[1..]);
        assert ss == [ss[0]] + ss[1..];
        assert forall i :: 0 < i < |ts| ==> ts[i] == ts[1..][i - 1];
        assert forall i :: 0 < i < |ss| ==> ss[i] == ss[1..][i - 1];
        if Strs(ts) == Ok(ss) { assert Strs(ts[1..]).value == ss[1..]; }
      }
    }
  }

  lemma ListExactly(t: ATerm, ss: seq<Text>)
    ensures StrList(t) == Ok(ss) <==> ListSays(t, ss)
  {
    if !t.Str? { StrsExactly(t.items, ss); }
  }

  lemma OutputExactly(t: ATerm, k: Text, o: OutputInfo)
    ensures OutputEntry(t) == Ok((k, o)) <==> OutputSays(t, k, o)
  {
    if !t.Str? && |t.items| >= 4 && t.items[2].Str? {
      AlgoExactly(t.items[2].s, o.method_, o.hashAlgo);
    }
  }

  lemma InputExactly(t: ATerm, k: Text, outs: seq<Text>)
    ensures InputDrvEntry(t) == Ok((k, outs)) <==> InputSays(t, k, outs)
  {
    if !t.Str? && |t.items| >= 2 { ListExactly(t.items[1], outs); }
  }

  lemma EnvExactly(t: ATerm, k: Text, v: Text)
    ensures EnvEntry(t) == Ok((k, v)) <==> EnvSays(t, k, v)
  {
  }

  /** Entry `i` is for `k` and says `v`, and no later one is for `k`. */
  ghost predicate LastSays<V(!new)>(ts: seq<ATerm>, says: (ATerm, Text, V) -> bool, k: Text, v: V, i: nat) {
    i < |ts| && says(ts[i], k, v) && forall j, w :: i < j < |ts| ==> !says(ts[j], k, w)
  }

  ghost predicate SomeLast<V(!new)>(ts: seq<ATerm>, says: (ATerm, Text, V) -> bool, k: Text, v: V) {
    exists i :: LastSays(ts, says, k, v, i)
  }

  ghost predicate Holds<V(!new)>(m: map<Text, V>, k: Text, v: V) {
    k in m && m[k] == v
  }

  ghost predicate Speaks<V(!new)>(says: (ATerm, Text, V) -> bool, t: ATerm) {
    exists k, v :: says(t, k, v)
  }

  /** The map holds for each key what the last entry for it says, and every entry says something. */
  ghost predicate MapSays<V(!new)>(ts: seq<ATerm>, says: (ATerm, Text, V) -> bool, m: map<Text, V>) {
    && (forall i :: 0 <= i < |ts| ==> Speaks(says, ts[i]))
    && (forall k, v :: Holds(m, k, v) <==> SomeLast(ts, says, k, v))
  }

  ghost predicate Means<V(!new)>(entry: ATerm -> Entry<V>, says: (ATerm, Text, V) -> bool) {
    forall t, k, v :: entry(t) == Ok((k, v)) <==> says(t, k, v)
  }

  lemma {:induction false} CollectAppend<V>(entry: ATerm -> Entry<V>, ts: seq<ATerm>, t: ATerm, acc: map<Text, V>)
    ensures Collect(entry, ts + [t], acc)
         == (match Collect(entry, ts, acc)
             case Err(e) => Err(e)
             case Ok(m) => Collect(entry, [t], m))
  {
    if ts == [] {
      assert ts + [t] == [t];
    } else {
      assert (ts + [t])[1..] == ts[1..] + [t];
      if entry(ts[0]).Ok? {
        CollectAppend(entry, ts[1..], t, acc[entry(ts[0]).value.0 := entry(ts[0]).value.1]);
      }
    }
  }

  lemma CollectOne<V>(entry: ATerm -> Entry<V>, t: ATerm, acc: map<Text, V>)
    ensures Collect(entry, [t], acc) == (match entry(t)
                                         case Err(e) => Err(e)
                                         case Ok((k, v)) => Ok(acc[k := v]))
  {
    assert [t][1..] == [];
  }

  lemma SaysStep<V(!new)>(entry: ATerm -> Entry<V>, says: (ATerm, Text, V) -> bool, ts: seq<ATerm>, t: ATerm,
                          m: map<Text, V>, k: Text, v: V)
    requires Means(entry, says) && MapSays(ts, says, m) && says(t, k, v)
    ensures MapSays(ts + [t], says, m[k := v])
  {
    var all, n := ts + [t], m[k := v];
    forall i | 0 <= i < |all|
      ensures Speaks(says, all[i])
    {
      if i < |ts| { assert all[i] == ts[i]; }
    }
    forall k', w
      ensures says(t, k', w) <==> k' == k && w == v
    {
      assert entry(t) == Ok((k, v));
    }
    forall k', v'
      ensures Holds(n, k', v') <==> SomeLast(all, says, k', v')
    {
      if k' == k {
        LastIsOwn(says, ts, t, k, v, v');
      } else {
        assert Holds(n, k', v') <==> Holds(m, k', v');
        OtherKeyStays(says, ts, t, k', v');
      }
    }
  }

  lemma LastIsOwn<V(!new)>(says: (ATerm, Text, V) -> bool, ts: seq<ATerm>, t: ATerm, k: Text, v: V, w: V)
    requires forall u :: says(t, k, u) <==> u == v
    ensures SomeLast(ts + [t], says, k, w) <==> w == v
  {
    var all := ts + [t];
    assert all[|ts|] == t && says(all[|ts|], k, v);
    if w == v { assert LastSays(all, says, k, v, |ts|); }
    if SomeLast(all, says, k, w) {
      var i :| LastSays(all, says, k, w, i);
      assert i == |ts|;
    }
  }

  lemma OtherKeyStays<V(!new)>(says: (ATerm, Text, V) -> bool, ts: seq<ATerm>, t: ATerm, k: Text, v: V)
    requires forall w :: !says(t, k, w)
    ensures SomeLast(ts + [t], says, k, v) <==> SomeLast(ts, says, k, v)
  {
    var all := ts + [t];
    assert all[|ts|] == t && forall j :: 0 <= j < |ts| ==> all[j] == ts[j];
    if i :| LastSays(all, says, k, v, i) { assert LastSays(ts, says, k, v, i); }
    if i :| LastSays(ts, says, k, v, i) { assert LastSays(all, says, k, v, i); }
  }

  lemma {:induction false} CollectSays<V(!new)>(entry: ATerm -> Entry<V>, says: (ATerm, Text, V) -> bool,
                                                ts: seq<ATerm>)
    requires Means(entry, says)
    ensures Collect(entry, ts, map[]).Ok? ==> MapSays(ts, says, Collect(entry, ts, map[]).value)
    ensures Collect(entry, ts, map[]).Ok? <==> forall i :: 0 <= i < |ts| ==> Speaks(says, ts[i])
  {
    if ts != [] {
      var front, t := ts[..|ts| - 1], ts[|ts| - 1];
      assert ts == front + [t];
      CollectSays(entry, says, front);
      CollectAppend(entry, front, t, map[]);
      if Collect(entry, front, map[]).Ok? {
        CollectOne(entry, t, Collect(entry, front, map[]).value);
      }
      assert forall i :: 0 <= i < |front| ==> ts[i] == front[i];
      assert Speaks(says, t) <==> entry(t).Ok? by {
        if entry(t).Ok? { assert says(t, entry(t).value.0, entry(t).value.1); }
      }
      if entry(t).Ok? {
        var (k, v) := entry(t).value;
        assert says(t, k, v);
        if Collect(entry, front, map[]).Ok? {
          SaysStep(entry, says, front, t, Collect(entry, front, map[]).value, k, v);
        }
      }
    }
  }

  lemma CollectExactly<V(!new)>(entry: ATerm -> Entry<V>, says: (ATerm, Text, V) -> bool, ts: seq<ATerm>,
                                m: map<Text, V>)
    requires Means(entry, says)
    ensures Collect(entry, ts, map[]) == Ok(m) <==> MapSays(ts, says, m)
  {
    CollectSays(entry, says, ts);
    if MapSays(ts, says, m) {
      var n := Collect(entry, ts, map[]).value;
      forall k
        ensures k in m <==> k in n
        ensures k in m && k in n ==> m[k] == n[k]
      {
        if k in m { assert Holds(m, k, m[k]) && Holds(n, k, m[k]); }
        if k in n { assert Holds(n, k, n[k]) && Holds(m, k, n[k]); }
      }
      assert m == n;
    }
  }

  /** The seven fields of a derivation. */
  ghost predicate FieldsSay(f: seq<ATerm>, d: DrvInfo) {
    && |f| == 7 && !f[0].Str? && !f[1].Str? && !f[6].Str?
    && MapSays(f[0].items, (t, k, v) => OutputSays(t, k, v), d.outputs)
    && MapSays(f[1].items, (t, k, v) => InputSays(t, k, v), d.inputDrvs)
    && ListSays(f[2], d.inputSrcs) && f[3] == Str(d.system) && f[4] == Str(d.builder) && ListSays(f[5], d.args)
    && MapSays(f[6].items, (t, k, v) => EnvSays(t, k, v), d.env)
  }

  lemma EntriesMean()
    ensures Means(OutputEntry, (t, k, v) => OutputSays(t, k, v))
    ensures Means(InputDrvEntry, (t, k, v) => InputSays(t, k, v))
    ensures Means(EnvEntry, (t, k, v) => EnvSays(t, k, v))
  {
    forall t, k, o ensures OutputEntry(t) == Ok((k, o)) <==> OutputSays(t, k, o) { OutputExactly(t, k, o); }
    forall t, k, o ensures InputDrvEntry(t) == Ok((k, o)) <==> InputSays(t, k, o) { InputExactly(t, k, o); }
    forall t, k, o ensures EnvEntry(t) == Ok((k, o)) <==> EnvSays(t, k, o) { EnvExactly(t, k, o); }
  }

  lemma FieldsExactly(f: seq<ATerm>, d: DrvInfo)
    ensures ParseFields(d.name, f) == Ok(d) <==> FieldsSay(f, d)
  {
    EntriesMean();
    if |f| == 7 && !f[0].Str? && !f[1].Str? && !f[6].Str? {
      CollectExactly(OutputEntry, (t, k, v) => OutputSays(t, k, v), f[0].items, d.outputs);
      CollectExactly(InputDrvEntry, (t, k, v) => InputSays(t, k, v), f[1].items, d.inputDrvs);
      CollectExactly(EnvEntry, (t, k, v) => EnvSays(t, k, v), f[6].items, d.env);
      ListExactly(f[2], d.inputSrcs);
      ListExactly(f[5], d.args);
    }
  }

  /** The text is `Derive`, some way of writing these fields, and anything after it. */
  ghost predicate DrvText(text: Text, f: seq<ATerm>) {
    exists x, tail :: Writes(Tuple(f), x) && text == "Derive" + x + tail
  }

  lemma DeriveSplits(t: Text)
    requires StartsWith(t, "Derive(")
    ensures t == "Derive" + t[6..]
  {
    assert t[..6] == "Derive" by { assert t[..6] == t[..7][..6] && t[..7] == "Derive("; }
  }

  lemma Rejoined(text: Text, t: Text, x: Text, rest: Text)
    requires t <= text && t == "Derive" + (x + rest)
    ensures text == "Derive" + x + (rest + text[|t|..])
  {
    assert text == t + text[|t|..];
  }

  lemma ParsedFields(path: Text, text: Text, d: DrvInfo) returns (f: seq<ATerm>)
    requires ParseDrvText(path, text) == Ok(d)
    ensures DrvText(text, f) && ParseFields(NameFromPath(path), f) == Ok(d)
  {
    var t := TrimEnd(text);
    DeriveSplits(t);
    var (term, rest) := ParseTerm(t[6..]).value;
    var x := ParsedWritten(t[6..], term, rest);
    Rejoined(text, t, x, rest);
    f := term.items;
  }

  lemma FieldsName(name: Text, f: seq<ATerm>)
    ensures ParseFields(name, f).Ok? ==> ParseFields(name, f).value.name == name
  {
  }

  /** A derivation is parsed from a text exactly when the text is `Derive`, some way of writing a tuple of seven
      fields that say what the derivation holds, and anything after it; its name is that of the path. */
  lemma ParseDrvExactly(path: Text, text: Text, d: DrvInfo)
    ensures ParseDrvText(path, text) == Ok(d)
       <==> d.name == NameFromPath(path) && exists f :: FieldsSay(f, d) && DrvText(text, f)
  {
    if ParseDrvText(path, text) == Ok(d) {
      var f := ParsedFields(path, text, d);
      FieldsName(NameFromPath(path), f);
      FieldsExactly(f, d);
    }
    if d.name == NameFromPath(path) {
      if f :| FieldsSay(f, d) && DrvText(text, f) {
        var x, tail :| Writes(Tuple(f), x) && text == "Derive" + x + tail;
        WrittenDrv(path, f, x, tail);
        FieldsExactly(f, d);
      }
    }
  }

  lemma WrittenDrv(path: Text, f: seq<ATerm>, x: Text, tail: Text)
    requires Writes(Tuple(f), x)
    ensures ParseDrvText(path, "Derive" + x + tail) == ParseFields(NameFromPath(path), f)
  {
    var head := "Derive" + x;
    assert head[|head| - 1] == ')';
    TrimEndKeeps(head, tail);
    var y :| TrimEnd(head + tail) == head + y;
    assert (head + y)[6..] == x + y && (head + y)[..7] == "Derive(";
    WrittenParses(Tuple(f), x, y);
  }
}
