/** The names of fragments and resources as the tables of IRI.md give them, with their literal parts. */
module Names {
  import opened Texts
  import opened Iri
  import opened Fragments

  const NIXID: Text := "https://w3id.org/nix2rdf/id/"
  const FRAG: Text := "https://w3id.org/nix2rdf/id/fragment/"
  const GIT: Text := "https://w3id.org/nix2rdf/id/git/"
  const OCI: Text := "https://w3id.org/nix2rdf/id/oci/"
  const DERIVED: Text := "https://w3id.org/nix2rdf/id/derived/"
  const K8SID: Text := "https://w3id.org/nix2rdf/id/k8s/"

  /** A row of the table: the file's path without its suffix, and the graph as prefix and local name. */
  predicate Row(k: Kind, path: Text, prefix: Text, local: Text) {
    RelativePath(k) == path + ".nq.zst" && Graph(k) == prefix + local
  }

  // ----- texts of segments -------------------------------------------------------------

  lemma SlashText(a: Text, b: Text)
    ensures Slash(a, b) == a + "/" + b
  {
  }

  lemma ThreeSegments(a: Text, b: Text, c: Text)
    ensures Slash(a, Slash(b, c)) == a + "/" + b + "/" + c
  {
  }

  lemma FourSegments(a: Text, b: Text, c: Text, d: Text)
    ensures Slash(a, Slash(b, Slash(c, d))) == a + "/" + b + "/" + c + "/" + d
  {
    ThreeSegments(b, c, d);
    SlashText(a, Slash(b, Slash(c, d)));
    assert a + "/" + (b + "/" + c + "/" + d) == a + "/" + b + "/" + c + "/" + d;
  }

  /** Each prefix stands for the base and a first segment. */
  lemma PrefixText(prefix: Text, segment: Text, rest: Text)
    requires prefix == ID_BASE + segment + "/"
    ensures prefix + rest == ID_BASE + Slash(segment, rest)
  {
  }

  lemma Prefixes()
    ensures FRAG == ID_BASE + "fragment" + "/" && GIT == ID_BASE + "git" + "/" && OCI == ID_BASE + "oci" + "/"
    ensures DERIVED == ID_BASE + "derived" + "/" && K8SID == ID_BASE + "k8s" + "/"
  {
  }

  // ----- fragments that are entities -----------------------------------------------------

  lemma DrvRow(h: Text)
    ensures Row(Drv(h), "drv/" + h, NIXID, "drv/" + h)
  {
  }

  lemma NarTexts(segment: Text)
    ensures Slash("src", segment) == "src/" + segment && Slash("pin", segment) == "pin/" + segment
  {
  }

  lemma SrcRow(nar: Text)
    ensures Row(Src(nar), "src/" + NarHashSegment(nar), NIXID, "src/" + NarHashSegment(nar))
  {
    NarTexts(NarHashSegment(nar));
  }

  lemma PinRow(nar: Text)
    ensures Row(Pin(nar), "pin/" + NarHashSegment(nar), NIXID, "pin/" + NarHashSegment(nar))
  {
    NarTexts(NarHashSegment(nar));
  }

  lemma NixpkgsRow(rev: Text)
    ensures Row(Nixpkgs(rev), "nixpkgs/" + rev, NIXID, "nixpkgs/" + rev)
  {
  }

  lemma GenRow(h: Text)
    ensures Row(Gen(h), "gen/" + h, NIXID, "gen/" + h)
  {
  }

  lemma CommitRow(repo: Text, sha: Text)
    ensures Row(Commit(repo, sha), "commit/" + Encode(repo) + "/" + sha, GIT, Encode(repo) + "/" + sha)
  {
    Prefixes();
    PrefixText(GIT, "git", Slash(Encode(repo), sha));
    SlashText(Encode(repo), sha);
    ThreeSegments("commit", Encode(repo), sha);
  }

  lemma ImageRow(d: Text)
    ensures Row(Image(d), "image/" + d, OCI, "sha256/" + d)
  {
    Prefixes();
    PrefixText(OCI, "oci", Slash("sha256", d));
    SlashText("sha256", d);
  }

  lemma DerivedRow(r: Text, i: Text)
    ensures Row(Derived(r, i), "derived/" + r + "/" + i, DERIVED, r + ":" + i)
  {
    Prefixes();
    PrefixText(DERIVED, "derived", r + ":" + i);
    ThreeSegments("derived", r, i);
  }

  lemma MiddleWord(e: Text, word: Text, h: Text)
    ensures Slash(e, Slash(word, h)) == e + ("/" + word + "/") + h
  {
  }

  lemma ClusterText(e: Text, word: Text, h: Text)
    ensures Slash("k8s", Slash(e, Slash(word, h))) == "k8s/" + e + ("/" + word + "/") + h
  {
    MiddleWord(e, word, h);
    SlashText("k8s", Slash(e, Slash(word, h)));
    assert "k8s" + "/" + (e + ("/" + word + "/") + h) == "k8s/" + e + ("/" + word + "/") + h;
  }

  lemma SnapshotRow(c: Text, h: Text)
    ensures Row(K8sSnapshot(c, h), "k8s/" + Encode(c) + "/snapshot/" + h, K8SID, Encode(c) + "/snapshot/" + h)
  {
    Prefixes();
    PrefixText(K8SID, "k8s", Slash(Encode(c), Slash("snapshot", h)));
    MiddleWord(Encode(c), "snapshot", h);
    ClusterText(Encode(c), "snapshot", h);
    assert "/" + "snapshot" + "/" == "/snapshot/";
  }

  lemma NodesRow(c: Text, h: Text)
    ensures Row(K8sNodes(c, h), "k8s/" + Encode(c) + "/nodes/" + h, K8SID, Encode(c) + "/nodes/" + h)
  {
    Prefixes();
    PrefixText(K8SID, "k8s", Slash(Encode(c), Slash("nodes", h)));
    MiddleWord(Encode(c), "nodes", h);
    ClusterText(Encode(c), "nodes", h);
    assert "/" + "nodes" + "/" == "/nodes/";
  }

  lemma ExtText(a: Text, b: Text)
    ensures Slash("ext", Slash(a, b)) == "ext/" + a + "/" + b
  {
    ThreeSegments("ext", a, b);
    assert "ext" + "/" == "ext/";
  }

  /** A downstream tool's entity has the IRI `<kind>/<id>` and its file below `ext`. */
  lemma ExtRow(kind: Text, id: Text)
    ensures Row(Ext(kind, id), "ext/" + Encode(kind) + "/" + Encode(id), NIXID, Encode(kind) + "/" + Encode(id))
  {
    SlashText(Encode(kind), Encode(id));
    ExtText(Encode(kind), Encode(id));
  }

  // ----- fragments that are not ----------------------------------------------------------

  lemma OutRow(h: Text)
    ensures Row(Out(h), "out/" + h, FRAG, "out/" + h)
  {
    Prefixes();
    PrefixText(FRAG, "fragment", Slash("out", h));
    SlashText("out", h);
  }

  lemma IndexRow(h: Text)
    ensures Row(Index(h), "index/nixpkgs-multiverse-" + h, FRAG, "index/nixpkgs-multiverse-" + h)
  {
    Prefixes();
    PrefixText(FRAG, "fragment", Slash("index", "nixpkgs-multiverse-" + h));
    SlashText("index", "nixpkgs-multiverse-" + h);
    assert "index" + "/" + ("nixpkgs-multiverse-" + h) == "index/nixpkgs-multiverse-" + h;
  }

  lemma RunRow(r: Text, i: Text)
    ensures Row(Run(r, i), "runs/" + r + "/" + i, FRAG, "run/" + (r + ":" + i))
  {
    Prefixes();
    PrefixText(FRAG, "fragment", Slash("run", r + ":" + i));
    SlashText("run", r + ":" + i);
    ThreeSegments("runs", r, i);
  }

  lemma ValueRow(h: Text)
    ensures Row(Value(h), "values/" + h, FRAG, "values/" + h)
  {
    Prefixes();
    PrefixText(FRAG, "fragment", Slash("values", h));
    SlashText("values", h);
  }

  lemma EnvRow(h: Text)
    ensures Row(Env(h), "env/" + h, FRAG, "env/" + h)
  {
    Prefixes();
    PrefixText(FRAG, "fragment", Slash("env", h));
    SlashText("env", h);
  }

  lemma ObservedPath(e: Text, h: Text, t: Text)
    ensures Slash("k8s", Slash(e, Slash("observed", h + ("-" + t)))) == "k8s/" + e + "/observed/" + h + "-" + t
  {
    ClusterText(e, "observed", h + ("-" + t));
    assert "/" + "observed" + "/" == "/observed/";
    assert "k8s/" + e + "/observed/" + (h + ("-" + t)) == "k8s/" + e + "/observed/" + h + "-" + t;
  }

  lemma ObservedRow(c: Text, h: Text, t: Text)
    ensures Row(K8sObserved(c, h, t), "k8s/" + Encode(c) + "/observed/" + h + "-" + Encode(t),
                FRAG, "k8s-observed/" + Encode(c) + "/" + h + "/" + Encode(t))
  {
    Prefixes();
    PrefixText(FRAG, "fragment", Slash("k8s-observed", Slash(Encode(c), Slash(h, Encode(t)))));
    FourSegments("k8s-observed", Encode(c), h, Encode(t));
    ObservedPath(Encode(c), h, Encode(t));
    assert "k8s-observed" + "/" == "k8s-observed/";
  }

  // ----- the whole table -------------------------------------------------------------------

  /** Every fragment is named as IRI.md says. */
  lemma FragmentNames(k: Kind)
    ensures match k
            case Drv(h) => Row(k, "drv/" + h, NIXID, "drv/" + h)
            case Out(h) => Row(k, "out/" + h, FRAG, "out/" + h)
            case Src(n) => Row(k, "src/" + NarHashSegment(n), NIXID, "src/" + NarHashSegment(n))
            case Pin(n) => Row(k, "pin/" + NarHashSegment(n), NIXID, "pin/" + NarHashSegment(n))
            case Nixpkgs(rev) => Row(k, "nixpkgs/" + rev, NIXID, "nixpkgs/" + rev)
            case Commit(repo, sha) => Row(k, "commit/" + Encode(repo) + "/" + sha, GIT, Encode(repo) + "/" + sha)
            case Gen(h) => Row(k, "gen/" + h, NIXID, "gen/" + h)
            case Image(d) => Row(k, "image/" + d, OCI, "sha256/" + d)
            case Index(h) => Row(k, "index/nixpkgs-multiverse-" + h, FRAG, "index/nixpkgs-multiverse-" + h)
            case Derived(r, i) => Row(k, "derived/" + r + "/" + i, DERIVED, r + ":" + i)
            case Run(r, i) => Row(k, "runs/" + r + "/" + i, FRAG, "run/" + (r + ":" + i))
            case Value(h) => Row(k, "values/" + h, FRAG, "values/" + h)
            case Env(h) => Row(k, "env/" + h, FRAG, "env/" + h)
            case K8sSnapshot(c, h) =>
              Row(k, "k8s/" + Encode(c) + "/snapshot/" + h, K8SID, Encode(c) + "/snapshot/" + h)
            case K8sNodes(c, h) => Row(k, "k8s/" + Encode(c) + "/nodes/" + h, K8SID, Encode(c) + "/nodes/" + h)
            case K8sObserved(c, h, t) =>
              Row(k, "k8s/" + Encode(c) + "/observed/" + h + "-" + Encode(t),
                  FRAG, "k8s-observed/" + Encode(c) + "/" + h + "/" + Encode(t))
            case Ext(kind, id) =>
              Row(k, "ext/" + Encode(kind) + "/" + Encode(id), NIXID, Encode(kind) + "/" + Encode(id))
  {
    match k
    case Drv(h) => DrvRow(h);
    case Out(h) => OutRow(h);
    case Src(n) => SrcRow(n);
    case Pin(n) => PinRow(n);
    case Nixpkgs(rev) => NixpkgsRow(rev);
    case Commit(repo, sha) => CommitRow(repo, sha);
    case Gen(h) => GenRow(h);
    case Image(d) => ImageRow(d);
    case Index(h) => IndexRow(h);
    case Derived(r, i) => DerivedRow(r, i);
    case Run(r, i) => RunRow(r, i);
    case Value(h) => ValueRow(h);
    case Env(h) => EnvRow(h);
    case K8sSnapshot(c, h) => SnapshotRow(c, h);
    case K8sNodes(c, h) => NodesRow(c, h);
    case K8sObserved(c, h, t) => ObservedRow(c, h, t);
    case Ext(kind, id) => ExtRow(kind, id);
  }

  // ----- resources ---------------------------------------------------------------------------

  lemma InputPrefix(segment: Text, rest: Text)
    ensures Id("pin/" + segment + "/input/") + rest == NIXID + "pin/" + segment + "/input/" + rest
  {
  }

  lemma InputText(root: Text, parent: Text, name: Text)
    ensures FlakeInput(root, parent, name)
         == NIXID + "pin/" + NarHashSegment(root) + "/input/" + (Encode(parent) + "/" + Encode(name))
  {
    SlashText(Encode(parent), Encode(name));
    InputPrefix(NarHashSegment(root), Slash(Encode(parent), Encode(name)));
  }

  lemma ClusterPrefix(e: Text)
    ensures Id("k8s/" + e + "/") == K8SID + e + "/"
  {
    assert K8SID == ID_BASE + "k8s/";
  }

  lemma NamespacedText(cluster: Text, kind: Text, ns: Text, name: Text)
    ensures NamespacedObject(cluster, kind, ns, name)
         == K8SID + Encode(cluster) + "/" + (kind + "/" + Encode(ns) + "/" + Encode(name))
  {
    ClusterPrefix(Encode(cluster));
    ThreeSegments(kind, Encode(ns), Encode(name));
  }

  lemma ClusterWideText(cluster: Text, kind: Text, name: Text)
    ensures ClusterObject(cluster, kind, name) == K8SID + Encode(cluster) + "/" + (kind + "/" + Encode(name))
  {
    ClusterPrefix(Encode(cluster));
    SlashText(kind, Encode(name));
  }

  // ----- reading an IRI ------------------------------------------------------------------------

  ghost predicate CommitAt(id: Text, e: Text, sha: Text) {
    '/' !in sha && id == e + ['/'] + sha
  }

  ghost predicate CommitId(id: Text, repo: Text, sha: Text) {
    exists e :: CommitAt(id, e, sha) && repo == PercentDecode(e)
  }

  ghost predicate ClusterAt(id: Text, word: Text, e: Text, h: Text) {
    '/' !in e && id == e + ['/'] + (word + ['/'] + h)
  }

  ghost predicate ClusterId(id: Text, word: Text, cluster: Text, h: Text) {
    exists e :: ClusterAt(id, word, e, h) && cluster == PercentDecode(e)
  }

  lemma CommitRead(id: Text, k: Kind)
    ensures CommitFor(id) == Some(k) <==> k.Commit? && CommitId(id, k.repo, k.sha)
  {
    if k.Commit? && CommitId(id, k.repo, k.sha) {
      var e :| CommitAt(id, e, k.sha) && k.repo == PercentDecode(e);
      RSplitOnceJoin(e, '/', k.sha);
    }
    if RSplitOnce(id, '/').Some? {
      var (e, sha) := RSplitOnce(id, '/').value;
      assert CommitAt(id, e, sha);
    }
  }

  lemma ClusterSplits(id: Text, word: Text, e: Text, h: Text)
    requires '/' !in word && ClusterAt(id, word, e, h)
    ensures SplitOnce(id, '/') == Some((e, word + ['/'] + h)) && SplitOnce(word + ['/'] + h, '/') == Some((word, h))
  {
    SplitOnceJoin(e, '/', word + ['/'] + h);
    SplitOnceJoin(word, '/', h);
  }

  lemma SnapshotIdReads(id: Text, cluster: Text, h: Text)
    requires ClusterId(id, "snapshot", cluster, h)
    ensures K8sFor(id) == Some(K8sSnapshot(cluster, h))
  {
    var e :| ClusterAt(id, "snapshot", e, h) && cluster == PercentDecode(e);
    ClusterSplits(id, "snapshot", e, h);
  }

  lemma NodesIdReads(id: Text, cluster: Text, h: Text)
    requires ClusterId(id, "nodes", cluster, h)
    ensures K8sFor(id) == Some(K8sNodes(cluster, h))
  {
    var e :| ClusterAt(id, "nodes", e, h) && cluster == PercentDecode(e);
    ClusterSplits(id, "nodes", e, h);
  }

  lemma ClusterIdRead(id: Text, k: Kind)
    requires K8sFor(id) == Some(k)
    ensures k.K8sSnapshot? || k.K8sNodes?
    ensures k.K8sSnapshot? ==> ClusterId(id, "snapshot", k.cluster, k.hash)
    ensures k.K8sNodes? ==> ClusterId(id, "nodes", k.cluster, k.hash)
  {
    var (e, rest) := SplitOnce(id, '/').value;
    var (word, h) := SplitOnce(rest, '/').value;
    assert ClusterAt(id, word, e, h);
  }

  lemma ImageRead(id: Text, k: Kind)
    ensures ImageFor(id) == Some(k) <==> k.Image? && id == "sha256/" + k.digest
  {
    if k.Image? && id == "sha256/" + k.digest {
      assert id[|"sha256/"|..] == k.digest;
    }
  }

  /** The first segment of an entity's IRI. */
  function Segment(k: Kind): Text {
    match k
    case Drv(_) => "drv"
    case Src(_) => "src"
    case Pin(_) => "pin"
    case Gen(_) => "gen"
    case Nixpkgs(_) => "nixpkgs"
    case Image(_) => "oci"
    case Commit(_, _) => "git"
    case K8sSnapshot(_, _) => "k8s"
    case K8sNodes(_, _) => "k8s"
    case _ => ""
  }

  /** The rest of the IRI identifies the entity. */
  ghost predicate Identifies(id: Text, k: Kind) {
    match k
    case Drv(h) => id == h
    case Src(nar) => nar == DecodeNar(id)
    case Pin(nar) => '/' !in id && nar == DecodeNar(id)
    case Gen(h) => '/' !in id && id == h
    case Nixpkgs(rev) => '/' !in id && id == rev
    case Image(d) => id == "sha256/" + d
    case Commit(repo, sha) => CommitId(id, repo, sha)
    case K8sSnapshot(c, h) => ClusterId(id, "snapshot", c, h)
    case K8sNodes(c, h) => ClusterId(id, "nodes", c, h)
    case _ => false
  }

  lemma HashIdentifiedRead(id: Text, k: Kind)
    requires Identifies(id, k) && (k.Drv? || k.Gen? || k.Nixpkgs?)
    ensures KindFor(Segment(k), id) == Some(k)
  {
  }

  lemma NarIdentifiedRead(id: Text, k: Kind)
    requires Identifies(id, k) && (k.Src? || k.Pin?)
    ensures KindFor(Segment(k), id) == Some(k)
  {
  }

  /** An entity is read from the rest of its IRI. */
  lemma IdentifiedRead(id: Text, k: Kind)
    requires Identifies(id, k)
    ensures KindFor(Segment(k), id) == Some(k)
  {
    if k.Drv? || k.Gen? || k.Nixpkgs? {
      HashIdentifiedRead(id, k);
    } else if k.Src? || k.Pin? {
      NarIdentifiedRead(id, k);
    } else if k.Image? {
      ImageRead(id, k);
    } else if k.Commit? {
      CommitRead(id, k);
    } else if k.K8sSnapshot? {
      SnapshotIdReads(id, k.cluster, k.hash);
    } else {
      NodesIdReads(id, k.cluster, k.hash);
    }
  }

  lemma ImageIdentified(id: Text, k: Kind)
    requires ImageFor(id) == Some(k)
    ensures Segment(k) == "oci" && Identifies(id, k)
  {
    ImageRead(id, k);
  }

  lemma CommitIdentified(id: Text, k: Kind)
    requires CommitFor(id) == Some(k)
    ensures Segment(k) == "git" && Identifies(id, k)
  {
    CommitRead(id, k);
  }

  lemma ClusterIdentified(id: Text, k: Kind)
    requires k.K8sSnapshot? || k.K8sNodes?
    requires k.K8sSnapshot? ==> ClusterId(id, "snapshot", k.cluster, k.hash)
    requires k.K8sNodes? ==> ClusterId(id, "nodes", k.cluster, k.hash)
    ensures Segment(k) == "k8s" && Identifies(id, k)
  {
  }

  lemma PlainIdentified(segment: Text, id: Text, k: Kind)
    requires PlainFor(segment, id) == Some(k)
    ensures segment == Segment(k) && Identifies(id, k)
  {
  }

  /** And nothing else is read. */
  lemma ReadIdentified(segment: Text, id: Text, k: Kind)
    requires KindFor(segment, id) == Some(k)
    ensures segment == Segment(k) && Identifies(id, k)
  {
    if segment == "oci" {
      ImageIdentified(id, k);
    } else if segment == "git" {
      CommitIdentified(id, k);
    } else if segment == "k8s" {
      ClusterIdRead(id, k);
      ClusterIdentified(id, k);
    } else {
      PlainIdentified(segment, id, k);
    }
  }

  /** The segment and the rest are what stands before and after the first slash below the base. */
  ghost predicate Below(iri: Text, segment: Text, id: Text) {
    '/' !in segment && iri == NIXID + (segment + ['/'] + id)
  }

  lemma IriRead(iri: Text, segment: Text, id: Text)
    requires Below(iri, segment, id)
    ensures FragmentForIri(iri) == KindFor(segment, id)
  {
    SplitOnceJoin(segment, '/', id);
    assert iri[|ID_BASE|..] == segment + ['/'] + id;
  }

  /** An IRI names a fragment exactly when it is below the base, in the segment of the fragment's kind, and
      the rest identifies the fragment; so a resource below a pin, a generation or a revision names none. */
  lemma FragmentForIriExactly(iri: Text, k: Kind)
    ensures FragmentForIri(iri) == Some(k) <==> exists id :: Below(iri, Segment(k), id) && Identifies(id, k)
  {
    if id :| Below(iri, Segment(k), id) && Identifies(id, k) {
      IriRead(iri, Segment(k), id);
      IdentifiedRead(id, k);
    }
    if FragmentForIri(iri) == Some(k) {
      var (segment, id) := SplitOnce(iri[|ID_BASE|..], '/').value;
      assert Below(iri, segment, id);
      ReadIdentified(segment, id, k);
    }
  }
}
