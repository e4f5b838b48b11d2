/** Percent-encoding of path segments (RFC 3986, section 2.1) and NAR-hash segments, with the
    decoders of reason.rs, and the instance IRIs built from them. */
module Iri {
  import opened Texts
  import Base64

  const ID_BASE: Text := "https://w3id.org/nix2rdf/id/"
  const NIX_NS: Text := "https://w3id.org/nix2rdf/ns#"
  const K8S_NS: Text := "https://w3id.org/nix2rdf/k8s#"

  // ----- percent-encoding -----------------------------------------------------------

  /** Characters `encode_segment` passes through. */
  predicate Safe(c: char) {
    'A' <= c <= 'Z' || 'a' <= c <= 'z' || '0' <= c <= '9'
    || c == '-' || c == '.' || c == '_' || c == '~' || c == '@' || c == '+' || c == '!' || c == ',' || c == '='
    || c == ':'
  }

  predicate AllSafe(s: Text) {
    forall i :: 0 <= i < |s| ==> Safe(s[i])
  }

  function HexValue(c: char): (r: Option<nat>)
    ensures r.Some? ==> r.value < 16
  {
    if '0' <= c <= '9' then Some(c as int - 48)
    else if 'A' <= c <= 'F' then Some(c as int - 55)
    else if 'a' <= c <= 'f' then Some(c as int - 87)
    else None
  }

  function EncodeByte(c: char): Text {
    if Safe(c) then [c] else ['%', HexDigit(c as int / 16 % 16), HexDigit(c as int % 16)]
  }

  function Encode(s: Text): Text {
    if s == [] then [] else EncodeByte(s[0]) + Encode(s[1..])
  }

  /** `u8::from_str_radix(_, 16)` on two characters; a leading plus sign is accepted. */
  function FromHex(a: char, b: char): (r: Option<nat>)
    ensures r.Some? ==> r.value < 256
  {
    if HexValue(b).None? then None
    else if a == '+' then HexValue(b)
    else if HexValue(a).None? then None
    else Some(HexValue(a).value * 16 + HexValue(b).value)
  }

  function PercentDecode(s: Text): Text
    decreases |s|
  {
    if s == [] then []
    else if s[0] == '%' && |s| > 2 && FromHex(s[1], s[2]).Some? then
      [FromHex(s[1], s[2]).value as char] + PercentDecode(s[3..])
    else [s[0]] + PercentDecode(s[1..])
  }

  lemma {:induction false} EncodeAppend(s: Text, c: char)
    ensures Encode(s + [c]) == Encode(s) + EncodeByte(c)
  {
    if s == [] {
      assert s + [c] == [c];
    } else {
      assert (s + [c])[1..] == s[1..] + [c];
      EncodeAppend(s[1..], c);
    }
  }

  method EncodeSegment(s: Text) returns (out: Text)
    ensures out == Encode(s)
  {
    out := [];
    for i := 0 to |s|
      invariant out == Encode(s[..i])
    {
      assert s[..i + 1] == s[..i] + [s[i]];
      EncodeAppend(s[..i], s[i]);
      if Safe(s[i]) {
        out := out + [s[i]];
      } else {
        out := out + ['%', HexDigit(s[i] as int / 16 % 16), HexDigit(s[i] as int % 16)];
      }
    }
    assert s[..|s|] == s;
  }

  method DecodeSegment(s: Text) returns (out: Text)
    ensures out == PercentDecode(s)
  {
    out := [];
    var i := 0;
    while i < |s|
      invariant 0 <= i <= |s|
      invariant out + PercentDecode(s[i..]) == PercentDecode(s)
    {
      ghost var rest := s[i..];
      var c, taken := s[i], 1;
      if s[i] == '%' && i + 2 < |s| {
        assert rest[1] == s[i + 1] && rest[2] == s[i + 2];
        var v := FromHex(s[i + 1], s[i + 2]);
        if v.Some? {
          c, taken := v.value as char, 3;
        }
      }
      DecodeStep(rest, c, taken);
      assert rest[taken..] == s[i + taken..];
      Reassociate(out, c, PercentDecode(rest[taken..]));
      out := out + [c];
      i := i + taken;
    }
  }

  lemma Reassociate(out: Text, c: char, rest: Text)
    ensures out + ([c] + rest) == out + [c] + rest
  {
  }

  lemma DecodeStep(s: Text, c: char, taken: nat)
    requires s != []
    requires if s[0] == '%' && |s| > 2 && FromHex(s[1], s[2]).Some?
             then c == FromHex(s[1], s[2]).value as char && taken == 3
             else c == s[0] && taken == 1
    ensures taken <= |s| && PercentDecode(s) == [c] + PercentDecode(s[taken..])
  {
  }

  lemma HexRoundTrip(n: nat)
    requires n < 256
    ensures FromHex(HexDigit(n / 16 % 16), HexDigit(n % 16)) == Some(n)
  {
    assert n / 16 % 16 == n / 16;
  }

  lemma DecodeByte(c: char, tail: Text)
    requires c as int < 256
    ensures PercentDecode(EncodeByte(c) + tail) == [c] + PercentDecode(tail)
  {
    var e := EncodeByte(c);
    var s := e + tail;
    assert s[0] == e[0] && s[|e|..] == tail;
    if Safe(c) {
      DecodeStep(s, c, 1);
    } else {
      HexRoundTrip(c as int);
      assert s[1] == e[1] && s[2] == e[2];
      DecodeStep(s, c, 3);
    }
  }

  /** Decoding undoes encoding on every string, whatever bytes it holds. */
  lemma {:induction false} DecodeEncode(s: Text)
    requires IsBytes(s)
    ensures PercentDecode(Encode(s)) == s
  {
    if s != [] {
      DecodeByte(s[0], Encode(s[1..]));
      DecodeEncode(s[1..]);
      assert [s[0]] + s[1..] == s;
    }
  }

  /** Encoded segments use only safe characters and the percent sign, so no slash survives. */
  lemma {:induction false} EncodedShape(s: Text)
    ensures forall c :: c in Encode(s) ==> Safe(c) || c == '%'
    ensures '/' !in Encode(s)
  {
    if s != [] {
      EncodedShape(s[1..]);
      assert forall c :: c in EncodeByte(s[0]) ==> Safe(c) || c == '%';
    }
  }

  /** Encoding leaves a segment alone exactly when all its characters are safe. */
  lemma {:induction false} EncodeIdentity(s: Text)
    ensures |Encode(s)| >= |s|
    ensures Encode(s) == s <==> AllSafe(s)
  {
    if s != [] {
      EncodeIdentity(s[1..]);
      assert s == [s[0]] + s[1..];
      assert AllSafe(s) <==> Safe(s[0]) && AllSafe(s[1..]);
      if Safe(s[0]) {
        assert Encode(s)[1..] == Encode(s[1..]);
      } else {
        assert |Encode(s)| > |s|;
      }
    }
  }

  /** The characters that are passed through, by code: letters, digits, and `!`, `+` to `.`, `:`, `=`, `@`, `_`,
      `~`. */
  lemma SafeExactly(c: char)
    ensures var n := c as int;
            Safe(c) <==> || n == 33 || 43 <= n <= 46 || 48 <= n <= 58 || n == 61 || 64 <= n <= 90 || n == 95
                         || 97 <= n <= 122 || n == 126
  {
  }

  /** Every other byte becomes a percent sign and its two upper-case hex digits, high digit first. */
  lemma EncodedByteExactly(c: char)
    requires c as int < 256
    ensures !Safe(c) ==> |EncodeByte(c)| == 3 && EncodeByte(c)[0] == '%'
    ensures !Safe(c) ==> EncodeByte(c)[1] == "0123456789ABCDEF"[c as int / 16]
    ensures !Safe(c) ==> EncodeByte(c)[2] == "0123456789ABCDEF"[c as int % 16]
  {
    HexDigitExactly(c as int / 16);
    HexDigitExactly(c as int % 16);
  }

  /** Decoding accepts either case and leaves everything else alone. */
  lemma DecodeExactly(n: nat, rest: Text)
    requires n < 256
    ensures PercentDecode(['%', "0123456789ABCDEF"[n / 16], "0123456789ABCDEF"[n % 16]] + rest)
         == [n as char] + PercentDecode(rest)
    ensures PercentDecode(['%', "0123456789abcdef"[n / 16], "0123456789abcdef"[n % 16]] + rest)
         == [n as char] + PercentDecode(rest)
  {
    var s, t := ['%', "0123456789ABCDEF"[n / 16], "0123456789ABCDEF"[n % 16]] + rest,
                ['%', "0123456789abcdef"[n / 16], "0123456789abcdef"[n % 16]] + rest;
    assert s[3..] == rest && t[3..] == rest;
    HexValues(n / 16);
    HexValues(n % 16);
  }

  /** A plus sign counts as a missing high digit. */
  lemma DecodePlus(n: nat, rest: Text)
    requires n < 16
    ensures PercentDecode(['%', '+', "0123456789ABCDEF"[n]] + rest) == [n as char] + PercentDecode(rest)
    ensures PercentDecode(['%', '+', "0123456789abcdef"[n]] + rest) == [n as char] + PercentDecode(rest)
  {
    var s, t := ['%', '+', "0123456789ABCDEF"[n]] + rest, ['%', '+', "0123456789abcdef"[n]] + rest;
    assert s[3..] == rest && t[3..] == rest;
    HexValues(n);
  }

  lemma HexValues(n: nat)
    requires n < 16
    ensures HexValue("0123456789ABCDEF"[n]) == Some(n) && HexValue("0123456789abcdef"[n]) == Some(n)
    ensures "0123456789ABCDEF"[n] != '+' && "0123456789abcdef"[n] != '+'
  {
  }

  /** A percent sign that is not followed by two hex digits, and every other character, stands for itself. */
  lemma DecodeOther(s: Text)
    requires s != []
    requires s[0] != '%' || |s| < 3 || HexValue(s[2]).None? || (s[1] != '+' && HexValue(s[1]).None?)
    ensures PercentDecode(s) == [s[0]] + PercentDecode(s[1..])
  {
  }

  lemma HexValueExactly(c: char)
    ensures HexValue(c).Some? <==> c in "0123456789abcdefABCDEF"
  {
  }

  // ----- NAR hash segments -----------------------------------------------------------

  function NarHashSegment(sri: Text): Text {
    match SplitOnce(sri, '-')
    case Some((algo, b64)) =>
      var bytes := Base64.Decode(Base64.Standard, b64);
      if bytes.Some? then algo + "-" + Base64.Encode(Base64.UrlSafe, bytes.value) else Encode(sri)
    case None => Encode(sri)
  }

  function DecodeNar(seg: Text): Text {
    match SplitOnce(seg, '-')
    case Some((algo, b)) =>
      var bytes := Base64.Decode(Base64.UrlSafe, b);
      if bytes.Some? then algo + "-" + Base64.Encode(Base64.Standard, bytes.value) else seg
    case None => seg
  }

  /** `<algo>-<canonical base64>`, the form Nix prints. */
  predicate CanonicalSri(s: Text) {
    var p := SplitOnce(s, '-');
    p.Some? && Base64.Decode(Base64.Standard, p.value.1).Some?
  }

  predicate LooksUrlSafe(s: Text) {
    var p := SplitOnce(s, '-');
    p.Some? && Base64.Decode(Base64.UrlSafe, p.value.1).Some?
  }

  /** The form Nix prints: algorithm, dash, and standard base64 of some bytes. */
  ghost predicate Printed(e: Base64.Engine, s: Text, algo: Text, bytes: seq<Base64.Byte>) {
    '-' !in algo && s == algo + ['-'] + Base64.Encode(e, bytes)
  }

  lemma PrintedSplits(e: Base64.Engine, s: Text)
    ensures (exists algo, bytes :: Printed(e, s, algo, bytes))
       <==> SplitOnce(s, '-').Some? && Base64.Decode(e, SplitOnce(s, '-').value.1).Some?
    ensures forall algo, bytes :: Printed(e, s, algo, bytes) ==>
      SplitOnce(s, '-') == Some((algo, Base64.Encode(e, bytes))) &&
          Base64.Decode(e, Base64.Encode(e, bytes)) == Some(bytes)
  {
    forall algo, bytes | Printed(e, s, algo, bytes)
      ensures SplitOnce(s, '-') == Some((algo, Base64.Encode(e, bytes)))
      ensures Base64.Decode(e, Base64.Encode(e, bytes)) == Some(bytes)
    {
      SplitOnceJoin(algo, '-', Base64.Encode(e, bytes));
      Base64.DecodeEncode(e, bytes);
    }
    if SplitOnce(s, '-').Some? {
      var (algo, b64) := SplitOnce(s, '-').value;
      if Base64.Decode(e, b64).Some? {
        Base64.EncodeDecode(e, b64);
        assert Printed(e, s, algo, Base64.Decode(e, b64).value);
      }
    }
  }

  /** A printed hash changes its alphabet and loses its padding; every other string is percent-encoded. */
  lemma NarSegmentExactly(sri: Text)
    ensures forall algo, bytes :: Printed(Base64.Standard, sri, algo, bytes) ==>
      Printed(Base64.UrlSafe, NarHashSegment(sri), algo, bytes)
    ensures (forall algo, bytes :: !Printed(Base64.Standard, sri, algo, bytes)) ==> NarHashSegment(sri) == Encode(sri)
  {
    PrintedSplits(Base64.Standard, sri);
  }

  /** Decoding takes the change back and leaves everything else alone. */
  lemma DecodeNarExactly(seg: Text)
    ensures forall algo, bytes :: Printed(Base64.UrlSafe, seg, algo, bytes) ==>
      Printed(Base64.Standard, DecodeNar(seg), algo, bytes)
    ensures (forall algo, bytes :: !Printed(Base64.UrlSafe, seg, algo, bytes)) ==> DecodeNar(seg) == seg
  {
    PrintedSplits(Base64.UrlSafe, seg);
  }

  lemma CanonicalSegment(sri: Text)
    requires CanonicalSri(sri)
    ensures DecodeNar(NarHashSegment(sri)) == sri
    ensures '/' in NarHashSegment(sri) <==> '/' in SplitOnce(sri, '-').value.0
  {
    var (algo, b64) := SplitOnce(sri, '-').value;
    var bytes := Base64.Decode(Base64.Standard, b64).value;
    var url := Base64.Encode(Base64.UrlSafe, bytes);
    assert algo + "-" + url == algo + ['-'] + url;
    SplitOnceJoin(algo, '-', url);
    Base64.DecodeEncode(Base64.UrlSafe, bytes);
    Base64.EncodeDecode(Base64.Standard, b64);
    Base64.UrlSafeNoSlash(bytes);
  }

  /** Decoding a segment gives the hash string back exactly for canonical hashes, and for strings of
      safe characters that do not happen to look like unpadded base64url. */
  lemma NarRoundTripExactly(sri: Text)
    ensures DecodeNar(NarHashSegment(sri)) == sri <==> CanonicalSri(sri) || (AllSafe(sri) && !LooksUrlSafe(sri))
  {
    if CanonicalSri(sri) {
      CanonicalSegment(sri);
    } else {
      var seg := Encode(sri);
      assert NarHashSegment(sri) == seg;
      EncodeIdentity(sri);
      if LooksUrlSafe(seg) {
        var (algo, b) := SplitOnce(seg, '-').value;
        var std := Base64.Encode(Base64.Standard, Base64.Decode(Base64.UrlSafe, b).value);
        Base64.DecodeEncode(Base64.Standard, Base64.Decode(Base64.UrlSafe, b).value);
        assert algo + "-" + std == algo + ['-'] + std;
        SplitOnceJoin(algo, '-', std);
        assert CanonicalSri(DecodeNar(seg));
      }
    }
  }

  // ----- instance IRIs used as graph nodes ------------------------------------------------

  function Id(path: Text): Text {
    ID_BASE + path
  }

  function Slash(a: Text, b: Text): Text {
    a + (['/'] + b)
  }

  lemma SlashInjective(a: Text, b: Text, c: Text, d: Text)
    requires '/' !in a && '/' !in c
    requires Slash(a, b) == Slash(c, d)
    ensures a == c && b == d
  {
    assert Slash(a, b) == a + ['/'] + b && Slash(c, d) == c + ['/'] + d;
    SplitOnceJoin(a, '/', b);
    SplitOnceJoin(c, '/', d);
  }

  lemma EncodeInjective(a: Text, b: Text)
    requires IsBytes(a) && IsBytes(b) && Encode(a) == Encode(b)
    ensures a == b
  {
    DecodeEncode(a);
    DecodeEncode(b);
  }

  /** `iri::flake_input` for a given root: the declaring lock node and the input name. */
  function FlakeInput(rootNar: Text, parent: Text, name: Text): Text {
    Id("pin/" + NarHashSegment(rootNar) + "/input/") + Slash(Encode(parent), Encode(name))
  }

  lemma FlakeInputInjective(rootNar: Text, p1: Text, n1: Text, p2: Text, n2: Text)
    requires IsBytes(p1) && IsBytes(n1) && IsBytes(p2) && IsBytes(n2)
    requires FlakeInput(rootNar, p1, n1) == FlakeInput(rootNar, p2, n2)
    ensures p1 == p2 && n1 == n2
  {
    var prefix := Id("pin/" + NarHashSegment(rootNar) + "/input/");
    var x := FlakeInput(rootNar, p1, n1);
    assert x[|prefix|..] == Slash(Encode(p1), Encode(n1)) && x[|prefix|..] == Slash(Encode(p2), Encode(n2));
    EncodedShape(p1);
    EncodedShape(p2);
    SlashInjective(Encode(p1), Encode(n1), Encode(p2), Encode(n2));
    EncodeInjective(p1, p2);
    EncodeInjective(n1, n2);
  }

  lemma PinPathSplits(seg: Text, rest: Text)
    ensures Id("pin/" + seg + "/input/") + rest == Id("pin/") + Slash(seg, "input/" + rest)
  {
    assert "/input/" == ['/'] + "input/";
  }

  lemma PinPathInjective(s: Text, x: Text, t: Text, y: Text)
    requires '/' !in s && '/' !in t && Id("pin/" + s + "/input/") + x == Id("pin/" + t + "/input/") + y
    ensures s == t
  {
    PinPathSplits(s, x);
    PinPathSplits(t, y);
    var all, prefix := Id("pin/" + s + "/input/") + x, Id("pin/");
    assert all[|prefix|..] == Slash(s, "input/" + x) && all[|prefix|..] == Slash(t, "input/" + y);
    SlashInjective(s, "input/" + x, t, "input/" + y);
  }

  /** Inputs of flakes whose roots have different segments have different IRIs. */
  lemma FlakesApart(r1: Text, p1: Text, n1: Text, r2: Text, p2: Text, n2: Text)
    requires '/' !in NarHashSegment(r1) && '/' !in NarHashSegment(r2)
    requires FlakeInput(r1, p1, n1) == FlakeInput(r2, p2, n2)
    ensures NarHashSegment(r1) == NarHashSegment(r2)
  {
    PinPathInjective(NarHashSegment(r1), Slash(Encode(p1), Encode(n1)),
                     NarHashSegment(r2), Slash(Encode(p2), Encode(n2)));
  }

  /** `iri::k8s_obj` for a namespaced object. */
  function NamespacedObject(cluster: Text, kind: Text, ns: Text, name: Text): Text {
    Id("k8s/" + Encode(cluster) + "/") + Slash(kind, Slash(Encode(ns), Encode(name)))
  }

  /** `iri::k8s_obj` for a cluster-scoped object; namespaces use the kind `ns`. */
  function ClusterObject(cluster: Text, kind: Text, name: Text): Text {
    Id("k8s/" + Encode(cluster) + "/") + Slash(kind, Encode(name))
  }

  /** Within a cluster the IRIs of objects determine their kind, namespace and name. */
  lemma NamespacedObjectInjective(cluster: Text, k1: Text, ns1: Text, n1: Text, k2: Text, ns2: Text, n2: Text)
    requires IsBytes(ns1) && IsBytes(n1) && IsBytes(ns2) && IsBytes(n2)
    requires '/' !in k1 && '/' !in k2
    requires NamespacedObject(cluster, k1, ns1, n1) == NamespacedObject(cluster, k2, ns2, n2)
    ensures k1 == k2 && ns1 == ns2 && n1 == n2
  {
    var prefix := Id("k8s/" + Encode(cluster) + "/");
    var x := NamespacedObject(cluster, k1, ns1, n1);
    assert x[|prefix|..] == Slash(k1, Slash(Encode(ns1), Encode(n1)));
    assert x[|prefix|..] == Slash(k2, Slash(Encode(ns2), Encode(n2)));
    SlashInjective(k1, Slash(Encode(ns1), Encode(n1)), k2, Slash(Encode(ns2), Encode(n2)));
    EncodedShape(ns1);
    EncodedShape(ns2);
    SlashInjective(Encode(ns1), Encode(n1), Encode(ns2), Encode(n2));
    EncodeInjective(ns1, ns2);
    EncodeInjective(n1, n2);
  }

  lemma ScopesDisjoint(cluster: Text, k1: Text, ns1: Text, n1: Text, k2: Text, n2: Text)
    requires '/' !in k1 && '/' !in k2
    ensures NamespacedObject(cluster, k1, ns1, n1) != ClusterObject(cluster, k2, n2)
  {
    var prefix := Id("k8s/" + Encode(cluster) + "/");
    var x, y := NamespacedObject(cluster, k1, ns1, n1), ClusterObject(cluster, k2, n2);
    assert x[|prefix|..] == Slash(k1, Slash(Encode(ns1), Encode(n1)));
    assert y[|prefix|..] == Slash(k2, Encode(n2));
    EncodedShape(n2);
    assert Slash(Encode(ns1), Encode(n1))[|Encode(ns1)|] == '/';
    if x == y {
      SlashInjective(k1, Slash(Encode(ns1), Encode(n1)), k2, Encode(n2));
    }
  }
}
