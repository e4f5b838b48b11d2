/** Fragment identities: the graph IRI and store path of every kind of fragment, and the partial
    inverse that closure following uses (`fragment_for_iri`). */
module Fragments {
  import opened Texts
  import Base64
  import opened Iri

  datatype Kind =
    | Drv(h: Text)
    | Out(h: Text)
    | Src(nar: Text)
    | Pin(nar: Text)
    | Nixpkgs(rev: Text)
    | Commit(repo: Text, sha: Text)
    | Gen(h: Text)
    | Image(digest: Text)
    | Index(h: Text)
    | Derived(ruleset: Text, input: Text)
    | Run(ruleset: Text, input: Text)
    | Value(h: Text)
    | Env(h: Text)
    | K8sSnapshot(cluster: Text, hash: Text)
    | K8sNodes(cluster: Text, hash: Text)
    | K8sObserved(cluster: Text, hash: Text, observedAt: Text)
    | Ext(kind: Text, id: Text)

  /** The components that are percent-encoded hold the bytes of Rust strings. */
  predicate KindBytes(k: Kind) {
    match k
    case Commit(repo, _) => IsBytes(repo)
    case K8sSnapshot(c, _) => IsBytes(c)
    case K8sNodes(c, _) => IsBytes(c)
    case _ => true
  }

  /** The graph IRI, as its first path segment and the rest. */
  function GraphParts(k: Kind): (Text, Text) {
    match k
    case Drv(h) => ("drv", h)
    case Out(h) => ("fragment", Slash("out", h))
    case Src(nar) => ("src", NarHashSegment(nar))
    case Pin(nar) => ("pin", NarHashSegment(nar))
    case Nixpkgs(rev) => ("nixpkgs", rev)
    case Commit(repo, sha) => ("git", Slash(Encode(repo), sha))
    case Gen(h) => ("gen", h)
    case Image(d) => ("oci", Slash("sha256", d))
    case Index(h) => ("fragment", Slash("index", "nixpkgs-multiverse-" + h))
    case Derived(r, i) => ("derived", r + ":" + i)
    case Run(r, i) => ("fragment", Slash("run", r + ":" + i))
    case Value(h) => ("fragment", Slash("values", h))
    case Env(h) => ("fragment", Slash("env", h))
    case K8sSnapshot(c, h) => ("k8s", Slash(Encode(c), Slash("snapshot", h)))
    case K8sNodes(c, h) => ("k8s", Slash(Encode(c), Slash("nodes", h)))
    case K8sObserved(c, h, o) => ("fragment", Slash("k8s-observed", Slash(Encode(c), Slash(h, Encode(o)))))
    case Ext(kind, id) => (Encode(kind), Encode(id))
  }

  function Graph(k: Kind): Text {
    ID_BASE + Slash(GraphParts(k).0, GraphParts(k).1)
  }

  const SUFFIX: Text := ".nq.zst"

  /** The store path below the kind's directory, without its suffix. */
  function StoreParts(k: Kind): (Text, Text) {
    match k
    case Drv(h) => ("drv", h)
    case Out(h) => ("out", h)
    case Src(nar) => ("src", NarHashSegment(nar))
    case Pin(nar) => ("pin", NarHashSegment(nar))
    case Nixpkgs(rev) => ("nixpkgs", rev)
    case Commit(repo, sha) => ("commit", Slash(Encode(repo), sha))
    case Gen(h) => ("gen", h)
    case Image(d) => ("image", d)
    case Index(h) => ("index", "nixpkgs-multiverse-" + h)
    case Derived(r, i) => ("derived", Slash(r, i))
    case Run(r, i) => ("runs", Slash(r, i))
    case Value(h) => ("values", h)
    case Env(h) => ("env", h)
    case K8sSnapshot(c, h) => ("k8s", Slash(Encode(c), Slash("snapshot", h)))
    case K8sNodes(c, h) => ("k8s", Slash(Encode(c), Slash("nodes", h)))
    case K8sObserved(c, h, o) => ("k8s", Slash(Encode(c), Slash("observed", h + ("-" + Encode(o)))))
    case Ext(kind, id) => ("ext", Slash(Encode(kind), Encode(id)))
  }

  function RelativePath(k: Kind): Text {
    Slash(StoreParts(k).0, StoreParts(k).1) + SUFFIX
  }

  // ----- the inverse --------------------------------------------------------------------

  function StripPrefix(s: Text, prefix: Text): (r: Option<Text>)
    ensures r.Some? <==> prefix <= s
    ensures r.Some? ==> s == prefix + r.value
  {
    if prefix <= s then Some(s[|prefix|..]) else None
  }

  function CommitFor(id: Text): Option<Kind> {
    match RSplitOnce(id, '/')
    case Some((repo, sha)) => Some(Commit(PercentDecode(repo), sha))
    case None => None
  }

  function K8sFor(id: Text): Option<Kind> {
    match SplitOnce(id, '/')
    case None => None
    case Some((cluster, rest)) =>
      match SplitOnce(rest, '/')
      case None => None
      case Some((k, h)) =>
        if k == "snapshot" then Some(K8sSnapshot(PercentDecode(cluster), h))
        else if k == "nodes" then Some(K8sNodes(PercentDecode(cluster), h))
        else None
  }

  /** Entities named by one segment, or by anything at all. */
  function PlainFor(kind: Text, id: Text): Option<Kind> {
    if kind == "drv" then Some(Drv(id))
    else if kind == "src" then Some(Src(DecodeNar(id)))
    else if kind == "pin" && '/' !in id then Some(Pin(DecodeNar(id)))
    else if kind == "gen" && '/' !in id then Some(Gen(id))
    else if kind == "nixpkgs" && '/' !in id then Some(Nixpkgs(id))
    else None
  }

  function ImageFor(id: Text): Option<Kind> {
    match StripPrefix(id, "sha256/")
    case Some(d) => Some(Image(d))
    case None => None
  }

  function KindFor(kind: Text, id: Text): Option<Kind> {
    if kind == "oci" then ImageFor(id)
    else if kind == "git" then CommitFor(id)
    else if kind == "k8s" then K8sFor(id)
    else PlainFor(kind, id)
  }

  function FragmentForIri(iri: Text): Option<Kind> {
    match StripPrefix(iri, ID_BASE)
    case None => None
    case Some(rest) =>
      match SplitOnce(rest, '/')
      case None => None
      case Some((kind, id)) => KindFor(kind, id)
  }

  // ----- when the inverse works ----------------------------------------------------------

  /** The kinds `fragment_for_iri` recovers, with the component shapes it needs: canonical hash
      strings, and no slash where the entity's own sub-resources live below it. */
  predicate Recoverable(k: Kind) {
    match k
    case Drv(_) => true
    case Src(nar) => CanonicalSri(nar) || (AllSafe(nar) && !LooksUrlSafe(nar))
    case Pin(nar) => (CanonicalSri(nar) || (AllSafe(nar) && !LooksUrlSafe(nar))) && '/' !in NarHashSegment(nar)
    case Nixpkgs(rev) => '/' !in rev
    case Commit(_, sha) => '/' !in sha
    case Gen(h) => '/' !in h
    case Image(_) => true
    case K8sSnapshot(_, _) => true
    case K8sNodes(_, _) => true
    case _ => false
  }

  lemma GraphSplits(k: Kind)
    ensures FragmentForIri(Graph(k)) == KindFor(GraphParts(k).0, GraphParts(k).1)
  {
    var (a, b) := GraphParts(k);
    if k.Ext? {
      EncodedShape(k.kind);
    }
    assert '/' !in a;
    assert Slash(a, b) == a + ['/'] + b;
    SplitOnceJoin(a, '/', b);
    assert StripPrefix(Graph(k), ID_BASE) == Some(Slash(a, b)) by {
      assert Graph(k)[|ID_BASE|..] == Slash(a, b);
    }
  }

  lemma CommitRecovered(repo: Text, sha: Text)
    requires IsBytes(repo)
    ensures CommitFor(Slash(Encode(repo), sha)) == Some(Commit(repo, sha)) <==> '/' !in sha
  {
    var id := Slash(Encode(repo), sha);
    assert id == Encode(repo) + ['/'] + sha;
    assert id[|Encode(repo)|] == '/';
    DecodeEncode(repo);
    if '/' !in sha {
      RSplitOnceJoin(Encode(repo), '/', sha);
    }
  }

  lemma SlashSplits(a: Text, b: Text)
    requires '/' !in a
    ensures SplitOnce(Slash(a, b), '/') == Some((a, b))
  {
    assert Slash(a, b) == a + ['/'] + b;
    SplitOnceJoin(a, '/', b);
  }

  lemma K8sSplits(cluster: Text, kind: Text, h: Text)
    requires IsBytes(cluster) && '/' !in kind
    ensures SplitOnce(Slash(Encode(cluster), Slash(kind, h)), '/') == Some((Encode(cluster), Slash(kind, h)))
    ensures SplitOnce(Slash(kind, h), '/') == Some((kind, h))
    ensures PercentDecode(Encode(cluster)) == cluster
  {
    EncodedShape(cluster);
    SlashSplits(Encode(cluster), Slash(kind, h));
    SlashSplits(kind, h);
    DecodeEncode(cluster);
  }

  lemma SnapshotRecovered(cluster: Text, h: Text)
    requires IsBytes(cluster)
    ensures K8sFor(Slash(Encode(cluster), Slash("snapshot", h))) == Some(K8sSnapshot(cluster, h))
  {
    K8sSplits(cluster, "snapshot", h);
  }

  lemma NodesRecovered(cluster: Text, h: Text)
    requires IsBytes(cluster)
    ensures K8sFor(Slash(Encode(cluster), Slash("nodes", h))) == Some(K8sNodes(cluster, h))
  {
    K8sSplits(cluster, "nodes", h);
  }

  lemma ImageRecovered(d: Text)
    ensures ImageFor(Slash("sha256", d)) == Some(Image(d))
  {
    assert Slash("sha256", d) == "sha256/" + d;
  }

  /** The kinds whose fragment is an entity with its own IRI scheme. */
  predicate EntityKind(k: Kind) {
    k.Drv? || k.Src? || k.Pin? || k.Nixpkgs? || k.Commit? || k.Gen? || k.Image? || k.K8sSnapshot? || k.K8sNodes?
  }

  lemma OnlyEntities(iri: Text)
    ensures FragmentForIri(iri).Some? ==> EntityKind(FragmentForIri(iri).value)
  {
  }

  lemma StoreHashRecovered(k: Kind)
    requires (k.Drv? || k.Gen? || k.Nixpkgs?)
    ensures KindFor(GraphParts(k).0, GraphParts(k).1) == Some(k) <==> Recoverable(k)
  {
  }

  lemma SrcRecovered(nar: Text)
    ensures KindFor("src", NarHashSegment(nar)) == Some(Src(nar)) <==> Recoverable(Src(nar))
  {
    var id := NarHashSegment(nar);
    NarRoundTripExactly(nar);
    assert KindFor("src", id) == PlainFor("src", id) == Some(Src(DecodeNar(id)));
  }

  lemma PinRecovered(nar: Text)
    ensures KindFor("pin", NarHashSegment(nar)) == Some(Pin(nar)) <==> Recoverable(Pin(nar))
  {
    var id := NarHashSegment(nar);
    NarRoundTripExactly(nar);
    assert KindFor("pin", id) == PlainFor("pin", id);
    assert PlainFor("pin", id) == if '/' in id then None else Some(Pin(DecodeNar(id)));
  }

  lemma ImageKindRecovered(k: Kind)
    requires k.Image?
    ensures KindFor(GraphParts(k).0, GraphParts(k).1) == Some(k)
  {
    ImageRecovered(k.digest);
  }

  lemma CommitKindRecovered(k: Kind)
    requires KindBytes(k) && k.Commit?
    ensures KindFor(GraphParts(k).0, GraphParts(k).1) == Some(k) <==> Recoverable(k)
  {
    CommitRecovered(k.repo, k.sha);
  }

  lemma SnapshotKindRecovered(k: Kind)
    requires KindBytes(k) && k.K8sSnapshot?
    ensures KindFor(GraphParts(k).0, GraphParts(k).1) == Some(k)
  {
    SnapshotRecovered(k.cluster, k.hash);
  }

  lemma NodesKindRecovered(k: Kind)
    requires KindBytes(k) && k.K8sNodes?
    ensures KindFor(GraphParts(k).0, GraphParts(k).1) == Some(k)
  {
    NodesRecovered(k.cluster, k.hash);
  }

  /** `fragment_for_iri` undoes `graph` exactly on the recoverable kinds: for every other kind, and for
      every malformed component, it gives nothing or something else. */
  lemma GraphRoundTripExactly(k: Kind)
    requires KindBytes(k)
    ensures FragmentForIri(Graph(k)) == Some(k) <==> Recoverable(k)
  {
    GraphSplits(k);
    if !EntityKind(k) {
      OnlyEntities(Graph(k));
    } else if k.Src? {
      SrcRecovered(k.nar);
    } else if k.Pin? {
      PinRecovered(k.nar);
    } else if k.Drv? || k.Gen? || k.Nixpkgs? {
      StoreHashRecovered(k);
    } else if k.Image? {
      ImageKindRecovered(k);
    } else if k.Commit? {
      CommitKindRecovered(k);
    } else if k.K8sSnapshot? {
      SnapshotKindRecovered(k);
    } else {
      NodesKindRecovered(k);
    }
  }

  // ----- graphs of all kinds -------------------------------------------------------------------

  /** Hash strings that the segment encoding keeps apart: canonical ones, and all others whose encoding
      does not look like base64url. */
  predicate DistinctNar(nar: Text) {
    CanonicalSri(nar) || (IsBytes(nar) && !LooksUrlSafe(Encode(nar)))
  }

  lemma NarSegmentInjective(a: Text, b: Text)
    requires DistinctNar(a) && DistinctNar(b) && NarHashSegment(a) == NarHashSegment(b)
    ensures a == b
  {
    if CanonicalSri(a) { CanonicalLooksUrlSafe(a); }
    if CanonicalSri(b) { CanonicalLooksUrlSafe(b); }
    SameFormInjective(a, b);
  }

  /** Two canonical hash strings, or two others, share a segment only if they are equal. */
  lemma SameFormInjective(a: Text, b: Text)
    requires NarHashSegment(a) == NarHashSegment(b)
    requires (CanonicalSri(a) && CanonicalSri(b)) || (!CanonicalSri(a) && !CanonicalSri(b) && IsBytes(a) && IsBytes(b))
    ensures a == b
  {
    if CanonicalSri(a) {
      NarRoundTripExactly(a);
      NarRoundTripExactly(b);
    } else {
      EncodeInjective(a, b);
    }
  }

  lemma CanonicalLooksUrlSafe(sri: Text)
    requires CanonicalSri(sri)
    ensures LooksUrlSafe(NarHashSegment(sri))
  {
    var (algo, b64) := SplitOnce(sri, '-').value;
    var bytes := Base64.Decode(Base64.Standard, b64).value;
    var url := Base64.Encode(Base64.UrlSafe, bytes);
    assert algo + "-" + url == algo + ['-'] + url;
    SplitOnceJoin(algo, '-', url);
    Base64.DecodeEncode(Base64.UrlSafe, bytes);
  }

  /** A text that looks like base64url is the segment of a canonical hash string. */
  lemma UrlSafeIsSegment(seg: Text)
    requires LooksUrlSafe(seg)
    ensures CanonicalSri(DecodeNar(seg)) && NarHashSegment(DecodeNar(seg)) == seg
  {
    var (algo, b) := SplitOnce(seg, '-').value;
    var bytes := Base64.Decode(Base64.UrlSafe, b).value;
    var std := Base64.Encode(Base64.Standard, bytes);
    assert algo + "-" + std == algo + ['-'] + std;
    SplitOnceJoin(algo, '-', std);
    Base64.DecodeEncode(Base64.Standard, bytes);
    Base64.EncodeDecode(Base64.UrlSafe, b);
    assert algo + "-" + b == algo + ['-'] + b;
  }

  /** A string that is not canonical and a canonical one share a segment exactly when the encoding of the
      first looks like base64url and decodes to the second. */
  lemma CanonicalPartnerExactly(s: Text, t: Text)
    requires !CanonicalSri(s) && CanonicalSri(t)
    ensures NarHashSegment(s) == NarHashSegment(t) <==> LooksUrlSafe(Encode(s)) && DecodeNar(Encode(s)) == t
  {
    if NarHashSegment(s) == NarHashSegment(t) {
      CanonicalLooksUrlSafe(t);
      NarRoundTripExactly(t);
    }
    if LooksUrlSafe(Encode(s)) {
      UrlSafeIsSegment(Encode(s));
    }
  }

  /** Which hash strings share a segment: besides equal ones, a canonical one and one that is not, whose
      encoding looks like base64url and decodes to it. */
  lemma NarSegmentsExactly(a: Text, b: Text)
    requires IsBytes(a) && IsBytes(b)
    ensures NarHashSegment(a) == NarHashSegment(b)
       <==> || a == b
            || (!CanonicalSri(a) && CanonicalSri(b) && LooksUrlSafe(Encode(a)) && DecodeNar(Encode(a)) == b)
            || (!CanonicalSri(b) && CanonicalSri(a) && LooksUrlSafe(Encode(b)) && DecodeNar(Encode(b)) == a)
  {
    if CanonicalSri(a) <==> CanonicalSri(b) {
      if NarHashSegment(a) == NarHashSegment(b) {
        SameFormInjective(a, b);
      }
    } else if CanonicalSri(a) {
      CanonicalPartnerExactly(b, a);
    } else {
      CanonicalPartnerExactly(a, b);
    }
  }

  /** A string that is not canonical shares its segment with a canonical one exactly when its encoding looks
      like base64url. */
  lemma NarSegmentSharedExactly(s: Text)
    requires !CanonicalSri(s)
    ensures LooksUrlSafe(Encode(s)) <==> exists t :: CanonicalSri(t) && NarHashSegment(t) == NarHashSegment(s)
  {
    if LooksUrlSafe(Encode(s)) {
      UrlSafeIsSegment(Encode(s));
    }
    if t :| CanonicalSri(t) && NarHashSegment(t) == NarHashSegment(s) {
      CanonicalLooksUrlSafe(t);
    }
  }

  /** Such strings: the padding of `x-AA==` is gone from its segment. */
  lemma NarSegmentsCollide()
    ensures CanonicalSri("x-AA==") && !CanonicalSri("x-AA") && NarHashSegment("x-AA==") == NarHashSegment("x-AA")
  {
    var std, url := "x-AA==", "x-AA";
    SplitOnceJoin("x", '-', "AA==");
    SplitOnceJoin("x", '-', "AA");
    assert std == "x" + ['-'] + "AA==" && url == "x" + ['-'] + "AA";
    ZeroByte();
    assert "x" + "-" + "AA" == url;
    assert AllSafe(url);
    EncodeIdentity(url);
  }

  lemma ZeroByte()
    ensures Base64.Decode(Base64.Standard, "AA==") == Some([0])
    ensures Base64.Decode(Base64.Standard, "AA").None?
    ensures Base64.Encode(Base64.UrlSafe, [0]) == "AA"
  {
  }

  /** The names an `Ext` fragment can share with the graph of another kind. */
  predicate SharedName(kind: Text) {
    kind == "drv" || kind == "src" || kind == "pin" || kind == "nixpkgs" || kind == "gen" || kind == "derived"
  }

  /** Components as the extractors make them, for graph IRIs, and an `Ext` kind with a name of its own. */
  predicate Nameable(k: Kind) {
    match k
    case Src(nar) => DistinctNar(nar)
    case Pin(nar) => DistinctNar(nar)
    case Derived(r, _) => ':' !in r
    case Run(r, _) => ':' !in r
    case K8sObserved(c, h, o) => '/' !in h && IsBytes(c) && IsBytes(o)
    case Ext(kind, id) => IsBytes(kind) && IsBytes(id) && !SharedName(kind)
    case _ => KindBytes(k)
  }

  /** The first two segments of the graph IRI, for kinds under `frag:` and `k8s`. */
  function GraphBranch(k: Kind): Text {
    match k
    case Out(_) => "out"
    case Index(_) => "index"
    case Run(_, _) => "run"
    case Value(_) => "values"
    case Env(_) => "env"
    case K8sObserved(_, _, _) => "k8s-observed"
    case _ => ""
  }

  lemma FirstPartNoSlash(k: Kind)
    ensures '/' !in GraphParts(k).0
  {
    if k.Ext? { EncodedShape(k.kind); }
  }

  lemma GraphPartsEqual(j: Kind, k: Kind)
    requires Graph(j) == Graph(k)
    ensures GraphParts(j) == GraphParts(k)
  {
    var x, y := GraphParts(j), GraphParts(k);
    FirstPartNoSlash(j);
    FirstPartNoSlash(k);
    assert Graph(j)[|ID_BASE|..] == Slash(x.0, x.1) && Graph(k)[|ID_BASE|..] == Slash(y.0, y.1);
    SlashInjective(x.0, x.1, y.0, y.1);
  }

  predicate UnderFragment(k: Kind) {
    GraphBranch(k) != ""
  }

  function FragmentRest(k: Kind): Text
    requires UnderFragment(k)
  {
    match k
    case Out(h) => h
    case Index(h) => "nixpkgs-multiverse-" + h
    case Run(r, i) => r + ":" + i
    case Value(h) => h
    case Env(h) => h
    case K8sObserved(c, h, o) => Slash(Encode(c), Slash(h, Encode(o)))
  }

  lemma SameBranch(j: Kind, k: Kind)
    requires !j.Ext? && !k.Ext? && GraphParts(j) == GraphParts(k)
    ensures UnderFragment(j) <==> UnderFragment(k)
    ensures UnderFragment(j) ==> GraphBranch(j) == GraphBranch(k) && FragmentRest(j) == FragmentRest(k)
  {
    assert UnderFragment(j) <==> GraphParts(j).0 == "fragment";
    assert UnderFragment(k) <==> GraphParts(k).0 == "fragment";
    if UnderFragment(j) {
      assert '/' !in GraphBranch(j) && '/' !in GraphBranch(k);
      SlashInjective(GraphBranch(j), FragmentRest(j), GraphBranch(k), FragmentRest(k));
    }
  }

  lemma JoinedInjective(r: Text, i: Text, r': Text, i': Text)
    requires ':' !in r && ':' !in r' && r + ":" + i == r' + ":" + i'
    ensures r == r' && i == i'
  {
    assert r + ":" + i == r + [':'] + i && r' + ":" + i' == r' + [':'] + i';
    SplitOnceJoin(r, ':', i);
    SplitOnceJoin(r', ':', i');
  }

  lemma BranchInjective(j: Kind, k: Kind)
    requires UnderFragment(j) && UnderFragment(k) && Nameable(j) && Nameable(k)
    requires GraphBranch(j) == GraphBranch(k) && FragmentRest(j) == FragmentRest(k)
    ensures j == k
  {
    SameBranchKind(j, k);
    match j
    case Index(h) => DropIndexPrefix(h, k.h);
    case Run(r, i) => JoinedInjective(r, i, k.ruleset, k.input);
    case K8sObserved(c, h, o) =>
      EncodedSlashInjective(c, Slash(h, Encode(o)), k.cluster, Slash(k.hash, Encode(k.observedAt)));
      SlashInjective(h, Encode(o), k.hash, Encode(k.observedAt));
      EncodeInjective(o, k.observedAt);
    case _ =>
  }

  lemma SameBranchKind(j: Kind, k: Kind)
    requires UnderFragment(j) && GraphBranch(j) == GraphBranch(k)
    ensures match j
            case Out(_) => k.Out?
            case Index(_) => k.Index?
            case Run(_, _) => k.Run?
            case Value(_) => k.Value?
            case Env(_) => k.Env?
            case _ => k.K8sObserved?
  {
    var a, b := GraphBranch(j), GraphBranch(k);
    assert |a| == |b| && a[0] == b[0] && a[1] == b[1];
  }

  lemma SameEntity(j: Kind, k: Kind)
    requires !j.Ext? && !k.Ext? && !UnderFragment(j) && !UnderFragment(k) && GraphParts(j).0 == GraphParts(k).0
    ensures match j
            case Drv(_) => k.Drv?
            case Src(_) => k.Src?
            case Pin(_) => k.Pin?
            case Nixpkgs(_) => k.Nixpkgs?
            case Commit(_, _) => k.Commit?
            case Gen(_) => k.Gen?
            case Image(_) => k.Image?
            case Derived(_, _) => k.Derived?
            case _ => k.K8sSnapshot? || k.K8sNodes?
  {
    var a, b := GraphParts(j).0, GraphParts(k).0;
    assert |a| == |b| && a[0] == b[0] && a[1] == b[1] && a[2] == b[2];
  }

  lemma EntityInjective(j: Kind, k: Kind)
    requires Nameable(j) && Nameable(k) && !UnderFragment(j) && !UnderFragment(k) && GraphParts(j) == GraphParts(k)
    requires !j.Ext? && !k.Ext?
    ensures j == k
  {
    SameEntity(j, k);
    match j
    case Src(nar) => NarSegmentInjective(nar, k.nar);
    case Pin(nar) => NarSegmentInjective(nar, k.nar);
    case Commit(repo, sha) => EncodedSlashInjective(repo, sha, k.repo, k.sha);
    case Image(d) => DropShaPrefix(d, k.digest);
    case Derived(r, i) => JoinedInjective(r, i, k.ruleset, k.input);
    case K8sSnapshot(_, _) => ClusterGraphInjective(j, k);
    case K8sNodes(_, _) => ClusterGraphInjective(j, k);
    case _ =>
  }

  lemma DropShaPrefix(a: Text, b: Text)
    requires Slash("sha256", a) == Slash("sha256", b)
    ensures a == b
  {
    SlashInjective("sha256", a, "sha256", b);
  }

  lemma ClusterGraphInjective(j: Kind, k: Kind)
    requires (j.K8sSnapshot? || j.K8sNodes?) && (k.K8sSnapshot? || k.K8sNodes?)
    requires Nameable(j) && Nameable(k) && GraphParts(j) == GraphParts(k)
    ensures j == k
  {
    EncodedSlashInjective(j.cluster, Slash(Below(j).0, Below(j).1), k.cluster, Slash(Below(k).0, Below(k).1));
    assert '/' !in Below(j).0 && '/' !in Below(k).0;
    SlashInjective(Below(j).0, Below(j).1, Below(k).0, Below(k).1);
    assert |Below(j).0| == |Below(k).0|;
  }

  /** The second part of most graphs has a slash, which no encoded identifier has. */
  lemma SecondPartSlash(k: Kind)
    ensures k.Ext? || SharedName(GraphParts(k).0) || '/' in GraphParts(k).1
  {
    var b := GraphParts(k).1;
    match k
    case Out(h) => assert b[|"out"|] == '/';
    case Index(h) => assert b[|"index"|] == '/';
    case Run(r, i) => assert b[|"run"|] == '/';
    case Value(h) => assert b[|"values"|] == '/';
    case Env(h) => assert b[|"env"|] == '/';
    case Commit(repo, _) => assert b[|Encode(repo)|] == '/';
    case Image(d) => assert b[|"sha256"|] == '/';
    case K8sSnapshot(c, _) => assert b[|Encode(c)|] == '/';
    case K8sNodes(c, _) => assert b[|Encode(c)|] == '/';
    case K8sObserved(_, _, _) => assert b[|"k8s-observed"|] == '/';
    case _ =>
  }

  predicate SafeBytes(s: Text) {
    AllSafe(s) && IsBytes(s)
  }

  lemma NamesSafe()
    ensures SafeBytes("drv") && SafeBytes("src") && SafeBytes("pin") && SafeBytes("git") && SafeBytes("gen")
    ensures SafeBytes("oci") && SafeBytes("k8s")
  {
  }

  lemma LongNamesSafe()
    ensures SafeBytes("fragment") && SafeBytes("nixpkgs") && SafeBytes("derived")
  {
  }

  lemma FirstPartSafe(k: Kind)
    requires !k.Ext?
    ensures SafeBytes(GraphParts(k).0)
  {
    NamesSafe();
    LongNamesSafe();
  }

  lemma SafeSegment(a: Text, x: Text)
    requires SafeBytes(a) && IsBytes(x)
    ensures Encode(x) == a <==> x == a
  {
    EncodeIdentity(a);
    if Encode(x) == a { EncodeInjective(x, a); }
  }

  lemma SameGraphExactly(j: Kind, k: Kind)
    ensures Graph(j) == Graph(k) <==> GraphParts(j) == GraphParts(k)
  {
    if Graph(j) == Graph(k) { GraphPartsEqual(j, k); }
  }

  lemma ExtParts(kind: Text, id: Text, p: (Text, Text))
    requires IsBytes(kind) && SafeBytes(p.0)
    ensures GraphParts(Ext(kind, id)) == p <==> p == (kind, Encode(id))
  {
    SafeSegment(p.0, kind);
  }

  /** An `Ext` fragment has the graph of another kind exactly when its kind is that graph's first part and
      its encoded identifier the rest. */
  lemma ExtSharesExactly(kind: Text, id: Text, k: Kind)
    requires IsBytes(kind) && !k.Ext?
    ensures Graph(Ext(kind, id)) == Graph(k) <==> GraphParts(k) == (kind, Encode(id))
  {
    SameGraphExactly(Ext(kind, id), k);
    FirstPartSafe(k);
    ExtParts(kind, id, GraphParts(k));
  }

  lemma SharesOnlyNames(kind: Text, id: Text, k: Kind)
    requires IsBytes(kind) && !k.Ext? && Graph(Ext(kind, id)) == Graph(k)
    ensures SharedName(kind)
  {
    ExtSharesExactly(kind, id, k);
    EncodedShape(id);
    SecondPartSlash(k);
  }

  /** A kind whose graph is an `Ext` graph of the given name. */
  function Namesake(kind: Text): Kind {
    if kind == "drv" then Drv("a")
    else if kind == "src" then Src("a")
    else if kind == "pin" then Pin("a")
    else if kind == "nixpkgs" then Nixpkgs("a")
    else if kind == "gen" then Gen("a")
    else Derived("a", "a")
  }

  lemma NamesakeParts(kind: Text)
    requires SharedName(kind)
    ensures var k := Namesake(kind);
            !k.Ext? && Nameable(k) && GraphParts(k).0 == kind && AllSafe(GraphParts(k).1)
  {
    assert Encode("a") == "a" by { EncodeIdentity("a"); }
    assert SplitOnce("a", '-').None?;
    assert "a" + ":" + "a" == "a:a";
  }

  /** The kind names under which an `Ext` fragment can share its graph are these six and no others. */
  lemma ExtSharedExactly(kind: Text)
    requires IsBytes(kind)
    ensures SharedName(kind) <==> exists id, k: Kind ::
            IsBytes(id) && !k.Ext? && Nameable(k) && Graph(Ext(kind, id)) == Graph(k)
  {
    if SharedName(kind) {
      var k := Namesake(kind);
      NamesakeParts(kind);
      EncodeIdentity(GraphParts(k).1);
      ExtSharesExactly(kind, GraphParts(k).1, k);
    }
    if id, k: Kind :| IsBytes(id) && !k.Ext? && Nameable(k) && Graph(Ext(kind, id)) == Graph(k) {
      SharesOnlyNames(kind, id, k);
    }
  }

  /** Different fragments have different graph IRIs. */
  lemma GraphInjective(j: Kind, k: Kind)
    requires Nameable(j) && Nameable(k) && Graph(j) == Graph(k)
    ensures j == k
  {
    GraphPartsEqual(j, k);
    if j.Ext? && k.Ext? {
      EncodeInjective(j.kind, k.kind);
      EncodeInjective(j.id, k.id);
    } else if j.Ext? {
      SharesOnlyNames(j.kind, j.id, k);
    } else if k.Ext? {
      SharesOnlyNames(k.kind, k.id, j);
    } else {
      SameBranch(j, k);
      if UnderFragment(j) {
        BranchInjective(j, k);
      } else {
        EntityInjective(j, k);
      }
    }
  }

  // ----- store paths -------------------------------------------------------------------------

  /** Components as the extractors make them: NAR hashes kept apart by their segments, no slash in a
      ruleset hash, no dash in the hash of an observation. */
  predicate Storable(k: Kind) {
    match k
    case Src(nar) => DistinctNar(nar)
    case Pin(nar) => DistinctNar(nar)
    case Derived(r, _) => '/' !in r
    case Run(r, _) => '/' !in r
    case K8sObserved(c, h, o) => '-' !in h && IsBytes(c) && IsBytes(o)
    case Ext(kind, id) => IsBytes(kind) && IsBytes(id)
    case _ => KindBytes(k)
  }

  lemma PathSplits(j: Kind, k: Kind)
    requires RelativePath(j) == RelativePath(k)
    ensures StoreParts(j) == StoreParts(k)
  {
    var x, y := Slash(StoreParts(j).0, StoreParts(j).1), Slash(StoreParts(k).0, StoreParts(k).1);
    assert RelativePath(j)[..|RelativePath(j)| - |SUFFIX|] == x && RelativePath(k)[..|RelativePath(k)| - |SUFFIX|] == y;
    DirectoryNoSlash(j);
    DirectoryNoSlash(k);
    SlashInjective(StoreParts(j).0, StoreParts(j).1, StoreParts(k).0, StoreParts(k).1);
  }

  lemma DirectoryNoSlash(k: Kind)
    ensures '/' !in StoreParts(k).0
  {
  }

  /** Different storable fragments have different files, so writing one never hides another. */
  lemma PathInjective(j: Kind, k: Kind)
    requires Storable(j) && Storable(k) && RelativePath(j) == RelativePath(k)
    ensures j == k
  {
    PathSplits(j, k);
    if Clustered(j) && Clustered(k) {
      ClusterPathInjective(j, k);
    } else {
      PlainPathInjective(j, k);
    }
  }

  predicate Clustered(k: Kind) {
    k.K8sSnapshot? || k.K8sNodes? || k.K8sObserved?
  }

  lemma EncodedSlashInjective(a: Text, x: Text, b: Text, y: Text)
    requires IsBytes(a) && IsBytes(b) && Slash(Encode(a), x) == Slash(Encode(b), y)
    ensures a == b && x == y
  {
    EncodedShape(a);
    EncodedShape(b);
    SlashInjective(Encode(a), x, Encode(b), y);
    EncodeInjective(a, b);
  }

  lemma SameDirectory(j: Kind, k: Kind)
    requires StoreParts(j).0 == StoreParts(k).0 && !(Clustered(j) && Clustered(k))
    ensures match j
            case Drv(_) => k.Drv?
            case Out(_) => k.Out?
            case Src(_) => k.Src?
            case Pin(_) => k.Pin?
            case Nixpkgs(_) => k.Nixpkgs?
            case Commit(_, _) => k.Commit?
            case Gen(_) => k.Gen?
            case Image(_) => k.Image?
            case Index(_) => k.Index?
            case Derived(_, _) => k.Derived?
            case Run(_, _) => k.Run?
            case Value(_) => k.Value?
            case Env(_) => k.Env?
            case Ext(_, _) => k.Ext?
            case _ => false
  {
    var a, b := StoreParts(j).0, StoreParts(k).0;
    assert |a| == |b| && a[0] == b[0] && a[1] == b[1] && a[2] == b[2];
  }

  lemma PlainPathInjective(j: Kind, k: Kind)
    requires Storable(j) && Storable(k) && StoreParts(j) == StoreParts(k) && !(Clustered(j) && Clustered(k))
    ensures j == k
  {
    SameDirectory(j, k);
    match j
    case Src(nar) => NarSegmentInjective(nar, k.nar);
    case Pin(nar) => NarSegmentInjective(nar, k.nar);
    case Commit(repo, sha) => EncodedSlashInjective(repo, sha, k.repo, k.sha);
    case Index(h) => DropIndexPrefix(h, k.h);
    case Derived(r, i) => SlashInjective(r, i, k.ruleset, k.input);
    case Run(r, i) => SlashInjective(r, i, k.ruleset, k.input);
    case Ext(kind, id) => EncodedSlashInjective(kind, Encode(id), k.kind, Encode(k.id)); EncodeInjective(id, k.id);
    case _ =>
  }

  lemma DropIndexPrefix(a: Text, b: Text)
    requires "nixpkgs-multiverse-" + a == "nixpkgs-multiverse-" + b
    ensures a == b
  {
    var p := "nixpkgs-multiverse-";
    assert (p + a)[|p|..] == a && (p + b)[|p|..] == b;
  }

  function Below(k: Kind): (Text, Text)
    requires Clustered(k)
  {
    match k
    case K8sSnapshot(_, h) => ("snapshot", h)
    case K8sNodes(_, h) => ("nodes", h)
    case K8sObserved(_, h, o) => ("observed", h + ("-" + Encode(o)))
  }

  lemma ClusterPathInjective(j: Kind, k: Kind)
    requires Clustered(j) && Clustered(k) && Storable(j) && Storable(k) && StoreParts(j) == StoreParts(k)
    ensures j == k
  {
    EncodedSlashInjective(j.cluster, Slash(Below(j).0, Below(j).1), k.cluster, Slash(Below(k).0, Below(k).1));
    assert '/' !in Below(j).0 && '/' !in Below(k).0;
    SlashInjective(Below(j).0, Below(j).1, Below(k).0, Below(k).1);
    assert |Below(j).0| == |Below(k).0|;
    if j.K8sObserved? {
      ObservedInjective(j.hash, j.observedAt, k.hash, k.observedAt);
    }
  }

  lemma ObservedInjective(h: Text, o: Text, h': Text, o': Text)
    requires '-' !in h && '-' !in h' && IsBytes(o) && IsBytes(o')
    requires h + ("-" + Encode(o)) == h' + ("-" + Encode(o'))
    ensures h == h' && o == o'
  {
    assert h + ("-" + Encode(o)) == h + ['-'] + Encode(o) && h' + ("-" + Encode(o')) == h' + ['-'] + Encode(o');
    SplitOnceJoin(h, '-', Encode(o));
    SplitOnceJoin(h', '-', Encode(o'));
    EncodeInjective(o, o');
  }
}
