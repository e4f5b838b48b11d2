/** The two halves of the snapshot builder together (k8s/snapshot.rs): objects with their network policies
    become the triples of the fragment, and the ingress rules read reachability back from those triples.

    How a manifest is read (pod labels, labels, policy) is a `Reading`; what the fragment says besides
    clusters, namespaces, workloads and ingress is the parameter `rest`. */
module ClusterSnapshot {
  import opened Texts
  import opened Sorting
  import opened Placement
  import opened NetworkPolicies
  import opened ReachabilityIris
  import Fragment = Snapshot
  import Iri
  import NQuads
  import NTriples

  const RDF_TYPE: Text := "http://www.w3.org/1999/02/22-rdf-syntax-ns#type"

  type IriEdge = EdgeOf<Text>

  // ----- from manifests to policies ---------------------------------------------------------------

  datatype Reading = Reading(podLabels: Object -> Labels, labels: Object -> Labels, policy: Object -> Policy)

  /** The workloads, namespaces and policies among the indexed objects. */
  function ViewOf(index: ObjectIndex, r: Reading): Snapshot {
    Snapshot(
      map k | k in index && WorkloadKind(k.kind) :: WorkloadKey(k.kind, k.ns, k.name) := r.podLabels(index[k]),
      map k | k in index && k == Key("Namespace", [], k.name) :: k.name := r.labels(index[k]),
      map k | k in index && k.kind == "NetworkPolicy" :: PolicyKey(k.ns, k.name) := r.policy(index[k]))
  }

  lemma ViewHas(index: ObjectIndex, r: Reading)
    ensures forall w :: w in ViewOf(index, r).workloads
              <==> WorkloadKind(w.kind) && Key(w.kind, w.ns, w.name) in index
    ensures forall n :: n in ViewOf(index, r).namespaces <==> Key("Namespace", [], n) in index
    ensures forall k :: k in ViewOf(index, r).policies <==> Key("NetworkPolicy", k.ns, k.name) in index
  {
    var c := ViewOf(index, r);
    forall w
      ensures w in c.workloads <==> WorkloadKind(w.kind) && Key(w.kind, w.ns, w.name) in index
    {
      var k := Key(w.kind, w.ns, w.name);
      assert w == WorkloadKey(k.kind, k.ns, k.name);
    }
    forall n
      ensures n in c.namespaces <==> Key("Namespace", [], n) in index
    {
      assert Key("Namespace", [], n).name == n;
    }
    forall p
      ensures p in c.policies <==> Key("NetworkPolicy", p.ns, p.name) in index
    {
      var k := Key("NetworkPolicy", p.ns, p.name);
      assert p == PolicyKey(k.ns, k.name);
    }
  }

  /** Each is read from the object it is indexed under. */
  lemma ViewValues(index: ObjectIndex, r: Reading, k: Key)
    requires k in index
    ensures var c := ViewOf(index, r);
      && (k.kind in {"Deployment", "StatefulSet", "DaemonSet", "Job", "CronJob"} ==>
            var w := WorkloadKey(k.kind, k.ns, k.name); w in c.workloads && c.workloads[w] == r.podLabels(index[k]))
      && (k.kind == "Namespace" && k.ns == [] ==> k.name in c.namespaces && c.namespaces[k.name] == r.labels(index[k]))
      && (k.kind == "NetworkPolicy" ==>
            var p := PolicyKey(k.ns, k.name); p in c.policies && c.policies[p] == r.policy(index[k]))
  {
    KindsExactly(k.kind);
    ViewHas(index, r);
  }

  // ----- edges as triples ---------------------------------------------------------------------------

  function K8s(term: Text): Text {
    Iri.K8S_NS + term
  }

  function ClusterIri(cluster: Text): Text {
    Iri.Id("k8s/cluster/" + Iri.Encode(cluster))
  }

  function Yes(): NTriples.Term {
    NTriples.Typed("true", Fragment.XSD_BOOLEAN)
  }

  function Link(s: Text, p: Text, o: Text): NQuads.Triple {
    NQuads.Triple(NTriples.NamedNode(s), p, NTriples.NamedNode(o))
  }

  function TripleOfEdge(cluster: Text, e: IriEdge): NQuads.Triple {
    match e
    case AppliesTo(np, target) => Link(np, K8s("appliesTo"), target)
    case AllowsIngressFrom(np, source) => Link(np, K8s("allowsIngressFrom"), source)
    case AllowsAllIngress(np) => NQuads.Triple(NTriples.NamedNode(np), K8s("allowsAllIngress"), Yes())
    case PolicyType(np, t) => NQuads.Triple(NTriples.NamedNode(np), K8s("policyType"), NTriples.Simple(t))
    case IsWorkload(x) => Link(x, RDF_TYPE, K8s("Workload"))
    case IsNamespace(x) => Link(x, RDF_TYPE, K8s("Namespace"))
    case InNamespace(x, n) => Link(x, K8s("inNamespace"), n)
    case InCluster(x) => Link(x, K8s("inCluster"), ClusterIri(cluster))
  }

  function ReadLink(cluster: Text, s: Text, p: Text, o: Text): Option<IriEdge> {
    if p == RDF_TYPE then
      if o == K8s("Workload") then Some(IsWorkload(s)) else if o == K8s("Namespace") then Some(IsNamespace(s)) else None
    else if p == K8s("appliesTo") then Some(AppliesTo(s, o))
    else if p == K8s("allowsIngressFrom") then Some(AllowsIngressFrom(s, o))
    else if p == K8s("inNamespace") then Some(InNamespace(s, o))
    else if p == K8s("inCluster") && o == ClusterIri(cluster) then Some(InCluster(s))
    else None
  }

  /** The rules' reading of one triple (k8s/semantics.rls). */
  function ReadEdge(cluster: Text, t: NQuads.Triple): Option<IriEdge> {
    if !t.s.NamedNode? then None
    else if t.o.NamedNode? then ReadLink(cluster, t.s.iri, t.p, t.o.iri)
    else if t.p == K8s("allowsAllIngress") && t.o == Yes() then Some(AllowsAllIngress(t.s.iri))
    else if t.p == K8s("policyType") && t.o.Simple? then Some(PolicyType(t.s.iri, t.o.lex))
    else None
  }

  lemma K8sInjective(a: Text, b: Text)
    requires K8s(a) == K8s(b)
    ensures a == b
  {
    assert K8s(a)[|Iri.K8S_NS|..] == a && K8s(b)[|Iri.K8S_NS|..] == b;
  }

  lemma NotType(a: Text)
    ensures K8s(a) != RDF_TYPE
  {
    assert K8s(a)[4] == 's' && RDF_TYPE[4] == ':';
  }

  /** Different terms of the vocabulary, told apart by length or first letter. */
  lemma TermsApart(a: Text, b: Text)
    requires a != [] && b != [] && (|a| != |b| || a[0] != b[0])
    ensures K8s(a) != K8s(b)
  {
    if K8s(a) == K8s(b) { K8sInjective(a, b); }
  }

  lemma EdgeTermsApart()
    ensures K8s("appliesTo") != K8s("allowsIngressFrom") && K8s("appliesTo") != K8s("inNamespace")
    ensures K8s("appliesTo") != K8s("inCluster") && K8s("allowsIngressFrom") != K8s("inNamespace")
    ensures K8s("allowsIngressFrom") != K8s("inCluster") && K8s("inNamespace") != K8s("inCluster")
    ensures K8s("Workload") != K8s("Namespace") && K8s("allowsAllIngress") != K8s("policyType")
  {
    TermsApart("appliesTo", "allowsIngressFrom");
    TermsApart("appliesTo", "inNamespace");
    TermsApart("appliesTo", "inCluster");
    TermsApart("allowsIngressFrom", "inNamespace");
    TermsApart("allowsIngressFrom", "inCluster");
    TermsApart("inNamespace", "inCluster");
    TermsApart("Workload", "Namespace");
    TermsApart("allowsAllIngress", "policyType");
  }

  /** Reading undoes writing. */
  lemma EdgeRead(cluster: Text, e: IriEdge)
    ensures ReadEdge(cluster, TripleOfEdge(cluster, e)) == Some(e)
  {
    EdgeTermsApart();
    NotType("appliesTo");
    NotType("allowsIngressFrom");
    NotType("inNamespace");
    NotType("inCluster");
  }

  /** And only what was written is read. */
  lemma EdgeWritten(cluster: Text, t: NQuads.Triple, e: IriEdge)
    requires ReadEdge(cluster, t) == Some(e)
    ensures t == TripleOfEdge(cluster, e)
  {
  }

  const K8S: Text := "https://w3id.org/nix2rdf/k8s#"
  const TYPE: Text := "http://www.w3.org/1999/02/22-rdf-syntax-ns#type"
  const CLUSTER: Text := "https://w3id.org/nix2rdf/id/k8s/cluster/"

  /** The triple has this subject and predicate, and the IRI as its object. */
  predicate Links(t: NQuads.Triple, s: Text, p: Text, o: Text) {
    t.s == NTriples.NamedNode(s) && t.p == p && t.o == NTriples.NamedNode(o)
  }

  /** The triple of each edge. */
  lemma EdgeTriplesExactly(cluster: Text, e: IriEdge)
    ensures var t := TripleOfEdge(cluster, e);
      match e
      case AppliesTo(np, target) => Links(t, np, K8S + "appliesTo", target)
      case AllowsIngressFrom(np, source) => Links(t, np, K8S + "allowsIngressFrom", source)
      case AllowsAllIngress(np) =>
        && t.s == NTriples.NamedNode(np) && t.p == K8S + "allowsAllIngress"
        && t.o == NTriples.Typed("true", "http://www.w3.org/2001/XMLSchema#boolean")
      case PolicyType(np, name) =>
        t.s == NTriples.NamedNode(np) && t.p == K8S + "policyType" && t.o == NTriples.Simple(name)
      case IsWorkload(x) => Links(t, x, TYPE, K8S + "Workload")
      case IsNamespace(x) => Links(t, x, TYPE, K8S + "Namespace")
      case InNamespace(x, n) => Links(t, x, K8S + "inNamespace", n)
      case InCluster(x) => Links(t, x, K8S + "inCluster", CLUSTER + Iri.Encode(cluster))
  {
    assert ClusterIri(cluster) == CLUSTER + Iri.Encode(cluster) by {
      assert CLUSTER == Iri.ID_BASE + "k8s/cluster/";
    }
  }

  ghost function EdgesIn(cluster: Text, ts: set<NQuads.Triple>): set<IriEdge> {
    set t | t in ts && ReadEdge(cluster, t).Some? :: ReadEdge(cluster, t).value
  }

  lemma EdgesInHas(cluster: Text, ts: set<NQuads.Triple>, e: IriEdge)
    ensures e in EdgesIn(cluster, ts) <==> TripleOfEdge(cluster, e) in ts
  {
    EdgeRead(cluster, e);
    if e in EdgesIn(cluster, ts) {
      var t :| t in ts && ReadEdge(cluster, t) == Some(e);
      EdgeWritten(cluster, t, e);
    }
  }

  // ----- what the builder says of one object ---------------------------------------------------------

  ghost function PolicyEdgesOf(cluster: Text, index: ObjectIndex, r: Reading, k: Key): set<IriEdge>
    requires k in index && k.kind == "NetworkPolicy"
  {
    ViewHas(index, r);
    ImageOf(IriOf(cluster), PolicyEdges(ViewOf(index, r), PolicyKey(k.ns, k.name)))
  }

  ghost function EdgesAbout(cluster: Text, index: ObjectIndex, r: Reading, k: Key): set<IriEdge>
    requires k in index
  {
    var x := Fragment.ObjectIri(cluster, k);
    {InCluster(x)}
    + (if k.ns != [] then {InNamespace(x, Iri.ClusterObject(cluster, "ns", k.ns))} else {})
    + (if WorkloadKind(k.kind) then {IsWorkload(x)} else {})
    + (if k.kind == "Namespace" then {IsNamespace(x)} else {})
    + (if k.kind == "NetworkPolicy" then PolicyEdgesOf(cluster, index, r, k) else {})
  }

  method Workloads(c: Snapshot) returns (keys: seq<WorkloadKey>)
    ensures Elements(keys) == c.workloads.Keys
  {
    keys := [];
    var todo := c.workloads.Keys;
    while todo != {}
      invariant todo <= c.workloads.Keys && Elements(keys) == c.workloads.Keys - todo
      decreases |todo|
    {
      var w :| w in todo;
      assert Elements(keys + [w]) == Elements(keys) + {w};
      keys, todo := keys + [w], todo - {w};
    }
  }

  /** One turn of the builder's loop over the index, as far as the ingress rules read it. */
  method DescribeObject(cluster: Text, index: ObjectIndex, r: Reading, k: Key) returns (out: set<IriEdge>)
    requires k in index
    ensures out == EdgesAbout(cluster, index, r, k)
  {
    var x := Fragment.ObjectIri(cluster, k);
    out := {InCluster(x)};
    if k.ns != [] {
      out := out + {InNamespace(x, Iri.ClusterObject(cluster, "ns", k.ns))};
    }
    if k.kind == "Namespace" {
      out := out + {IsNamespace(x)};
    } else if WorkloadKind(k.kind) {
      out := out + {IsWorkload(x)};
    } else if k.kind == "NetworkPolicy" {
      var c := ViewOf(index, r);
      ViewHas(index, r);
      var keys := Workloads(c);
      var edges := ExpandPolicy(c, keys, PolicyKey(k.ns, k.name));
      out := out + set e | e in edges :: MapEdge(IriOf(cluster), e);
    }
  }

  ghost function TriplesAbout(cluster: Text, index: ObjectIndex, r: Reading, k: Key): set<NQuads.Triple>
    requires k in index
  {
    set e | e in EdgesAbout(cluster, index, r, k) :: TripleOfEdge(cluster, e)
  }

  /** The builder's description of an object: its edges, and the rest. */
  ghost function Describing(cluster: Text, r: Reading, rest: Fragment.Describe): Fragment.Describe {
    (index: ObjectIndex, k: Key, pulled: map<Text, set<Text>>) =>
      rest(index, k, pulled) + if k in index then TriplesAbout(cluster, index, r, k) else {}
  }

  /** The rest says nothing the ingress rules read. */
  ghost predicate Quiet(cluster: Text, rest: Fragment.Describe) {
    forall index, k, pulled, t :: t in rest(index, k, pulled) ==> ReadEdge(cluster, t).None?
  }

  ghost function AllEdges(cluster: Text, index: ObjectIndex, r: Reading): set<IriEdge> {
    set k, e | k in index && Fragment.Shown(index, k) && e in EdgesAbout(cluster, index, r, k) :: e
  }

  /** The triples of the fragment of these objects and pods. */
  ghost function FragmentTriples(cluster: Text, objects: seq<Object>, pods: seq<Pod>, failed: seq<Text>,
                                 r: Reading, rest: Fragment.Describe): set<NQuads.Triple> {
    Fragment.TriplesOf(cluster, Fragment.SnapshotLines(objects, pods, failed, Describing(cluster, r, rest)))
  }

  // ----- what is read back from the fragment ------------------------------------------------------------

  /** Placement and the header of the fragment are not read by the ingress rules. */
  lemma OtherLineUnread(cluster: Text, l: Fragment.Line)
    requires !l.Described?
    ensures ReadEdge(cluster, Fragment.TripleOf(cluster, l)).None?
  {
    match l
    case Partial =>
      TermsApart("partial", "allowsAllIngress");
    case FailedKind(_) =>
      TermsApart("failedKind", "policyType");
    case Contains(_) =>
      UnreadLink("contains");
    case ScheduledOn(_, _) =>
      UnreadLink("scheduledOn");
    case ReplicasOnNode(_, _, _) =>
      TermsApart("replicasOnNode", "policyType");
  }

  lemma UnreadLink(term: Text)
    requires term == "contains" || term == "scheduledOn"
    ensures K8s(term) != RDF_TYPE && K8s(term) != K8s("appliesTo") && K8s(term) != K8s("allowsIngressFrom")
    ensures K8s(term) != K8s("inNamespace") && K8s(term) != K8s("inCluster")
  {
    NotType(term);
    TermsApart(term, "appliesTo");
    TermsApart(term, "allowsIngressFrom");
    TermsApart(term, "inNamespace");
    TermsApart(term, "inCluster");
  }

  /** Some shown object has this line. */
  ghost predicate ObjectSays(index: ObjectIndex, pl: Counts, pu: Digests, describe: Fragment.Describe, k: Key,
                             l: Fragment.Line) {
    k in index && Fragment.Shown(index, k) && l in Fragment.ObjectLines(index, pl, pu, describe, k)
  }

  lemma DescribedLines(index: ObjectIndex, pl: Counts, pu: Digests, describe: Fragment.Describe, t: NQuads.Triple)
    ensures Fragment.Described(t) in Fragment.IndexLines(index, pl, pu, describe, index.Keys)
       <==> exists k :: ObjectSays(index, pl, pu, describe, k, Fragment.Described(t))
  {
    var l := Fragment.Described(t);
    if l in Fragment.IndexLines(index, pl, pu, describe, index.Keys) {
      var k :| k in index && Fragment.Shown(index, k) && l in Fragment.ObjectLines(index, pl, pu, describe, k);
      assert ObjectSays(index, pl, pu, describe, k, l);
    }
    if k :| ObjectSays(index, pl, pu, describe, k, l) {
      assert l in Fragment.IndexLines(index, pl, pu, describe, index.Keys);
    }
  }

  /** Some shown object has this edge. */
  ghost predicate HasEdge(cluster: Text, index: ObjectIndex, r: Reading, k: Key, e: IriEdge) {
    k in index && Fragment.Shown(index, k) && e in EdgesAbout(cluster, index, r, k)
  }

  lemma DescribedHas(cluster: Text, index: ObjectIndex, pl: Counts, pu: Digests, r: Reading, rest: Fragment.Describe,
                     e: IriEdge)
    requires Quiet(cluster, rest)
    ensures Fragment.Described(TripleOfEdge(cluster, e))
              in Fragment.IndexLines(index, pl, pu, Describing(cluster, r, rest), index.Keys)
       <==> exists k :: HasEdge(cluster, index, r, k, e)
  {
    var describe, l := Describing(cluster, r, rest), Fragment.Described(TripleOfEdge(cluster, e));
    DescribedLines(index, pl, pu, describe, TripleOfEdge(cluster, e));
    if k :| ObjectSays(index, pl, pu, describe, k, l) {
      SaysEdge(cluster, index, pl, pu, r, rest, k, e);
    }
    if k :| HasEdge(cluster, index, r, k, e) {
      SaysEdge(cluster, index, pl, pu, r, rest, k, e);
    }
  }

  lemma SaysEdge(cluster: Text, index: ObjectIndex, pl: Counts, pu: Digests, r: Reading, rest: Fragment.Describe,
                 k: Key, e: IriEdge)
    requires Quiet(cluster, rest)
    ensures ObjectSays(index, pl, pu, Describing(cluster, r, rest), k, Fragment.Described(TripleOfEdge(cluster, e)))
       <==> HasEdge(cluster, index, r, k, e)
  {
    EdgeRead(cluster, e);
    if k in index {
      DescribedLine(cluster, index, pl, pu, r, rest, k, TripleOfEdge(cluster, e));
      TriplesAboutHas(cluster, index, r, k, e);
    }
  }

  lemma DescribedLine(cluster: Text, index: ObjectIndex, pl: Counts, pu: Digests, r: Reading,
                      rest: Fragment.Describe, k: Key, t: NQuads.Triple)
    requires Quiet(cluster, rest) && ReadEdge(cluster, t).Some? && k in index
    ensures Fragment.Described(t) in Fragment.ObjectLines(index, pl, pu, Describing(cluster, r, rest), k)
       <==> t in TriplesAbout(cluster, index, r, k)
  {
    var describe := Describing(cluster, r, rest);
    var l := Fragment.Described(t);
    assert t in describe(index, k, Inner(pu, k)) <==> t in TriplesAbout(cluster, index, r, k);
    assert l in Fragment.ObjectLines(index, pl, pu, describe, k) <==> t in describe(index, k, Inner(pu, k));
  }

  lemma TriplesAboutHas(cluster: Text, index: ObjectIndex, r: Reading, k: Key, e: IriEdge)
    requires k in index
    ensures TripleOfEdge(cluster, e) in TriplesAbout(cluster, index, r, k) <==> e in EdgesAbout(cluster, index, r, k)
  {
    if TripleOfEdge(cluster, e) in TriplesAbout(cluster, index, r, k) {
      var d :| d in EdgesAbout(cluster, index, r, k) && TripleOfEdge(cluster, d) == TripleOfEdge(cluster, e);
      EdgeRead(cluster, d);
      EdgeRead(cluster, e);
    }
  }

  lemma TripleWritten(cluster: Text, lines: set<Fragment.Line>, t: NQuads.Triple)
    requires ReadEdge(cluster, t).Some?
    ensures t in Fragment.TriplesOf(cluster, lines) <==> Fragment.Described(t) in lines
  {
    if t in Fragment.TriplesOf(cluster, lines) {
      var l :| l in lines && Fragment.TripleOf(cluster, l) == t;
      if !l.Described? { OtherLineUnread(cluster, l); }
    }
    if Fragment.Described(t) in lines {
      assert Fragment.TripleOf(cluster, Fragment.Described(t)) == t;
    }
  }

  lemma DescribedInSnapshot(objects: seq<Object>, pods: seq<Pod>, failed: seq<Text>, describe: Fragment.Describe,
                            t: NQuads.Triple)
    ensures var index := IndexOfObjects(objects);
            Fragment.Described(t) in Fragment.SnapshotLines(objects, pods, failed, describe)
            <==> Fragment.Described(t) in Fragment.IndexLines(index, PlacementOf(index, pods), PulledOf(index, pods),
                                                              describe, index.Keys)
  {
    assert Fragment.Described(t) !in Fragment.FailedLines(Elements(failed));
  }

  lemma LinesEdge(cluster: Text, lines: set<Fragment.Line>, e: IriEdge)
    ensures e in EdgesIn(cluster, Fragment.TriplesOf(cluster, lines))
       <==> Fragment.Described(TripleOfEdge(cluster, e)) in lines
  {
    EdgesInHas(cluster, Fragment.TriplesOf(cluster, lines), e);
    EdgeRead(cluster, e);
    TripleWritten(cluster, lines, TripleOfEdge(cluster, e));
  }

  lemma FragmentEdge(cluster: Text, objects: seq<Object>, pods: seq<Pod>, failed: seq<Text>, r: Reading,
                     rest: Fragment.Describe, e: IriEdge)
    requires Quiet(cluster, rest)
    ensures e in EdgesIn(cluster, FragmentTriples(cluster, objects, pods, failed, r, rest))
       <==> e in AllEdges(cluster, IndexOfObjects(objects), r)
  {
    var index, describe := IndexOfObjects(objects), Describing(cluster, r, rest);
    LinesEdge(cluster, Fragment.SnapshotLines(objects, pods, failed, describe), e);
    DescribedInSnapshot(objects, pods, failed, describe, TripleOfEdge(cluster, e));
    IndexEdge(cluster, index, PlacementOf(index, pods), PulledOf(index, pods), r, rest, e);
  }

  lemma IndexEdge(cluster: Text, index: ObjectIndex, pl: Counts, pu: Digests, r: Reading, rest: Fragment.Describe,
                  e: IriEdge)
    requires Quiet(cluster, rest)
    ensures Fragment.Described(TripleOfEdge(cluster, e))
              in Fragment.IndexLines(index, pl, pu, Describing(cluster, r, rest), index.Keys)
       <==> e in AllEdges(cluster, index, r)
  {
    DescribedHas(cluster, index, pl, pu, r, rest, e);
    AllEdgesHas(cluster, index, r, e);
  }

  /** The rules read exactly the edges the builder wrote. */
  lemma FragmentEdges(cluster: Text, objects: seq<Object>, pods: seq<Pod>, failed: seq<Text>, r: Reading,
                      rest: Fragment.Describe)
    requires Quiet(cluster, rest)
    ensures EdgesIn(cluster, FragmentTriples(cluster, objects, pods, failed, r, rest))
         == AllEdges(cluster, IndexOfObjects(objects), r)
  {
    var index, ts := IndexOfObjects(objects), FragmentTriples(cluster, objects, pods, failed, r, rest);
    forall e
      ensures e in EdgesIn(cluster, ts) <==> e in AllEdges(cluster, index, r)
    {
      FragmentEdge(cluster, objects, pods, failed, r, rest, e);
    }
  }

  lemma AllEdgesHas(cluster: Text, index: ObjectIndex, r: Reading, e: IriEdge)
    ensures e in AllEdges(cluster, index, r) <==> exists k :: HasEdge(cluster, index, r, k, e)
  {
    if k :| HasEdge(cluster, index, r, k, e) {
      assert k in index && Fragment.Shown(index, k) && e in EdgesAbout(cluster, index, r, k);
    }
    if e in AllEdges(cluster, index, r) {
      var k :| k in index && Fragment.Shown(index, k) && e in EdgesAbout(cluster, index, r, k);
      assert HasEdge(cluster, index, r, k, e);
    }
  }

  // ----- edges the rules ignore ---------------------------------------------------------------------------

  /** `g` has further clusters and namespaces, of things that are not workloads. */
  ghost predicate Extends<N(!new)>(f: set<EdgeOf<N>>, g: set<EdgeOf<N>>) {
    && f <= g
    && forall e :: e in g && e !in f ==> (e.InCluster? || e.InNamespace?) && IsWorkload(e.x) !in g
  }

  lemma ExtrasIgnored<N(!new)>(f: set<EdgeOf<N>>, g: set<EdgeOf<N>>, a: N, b: N)
    requires Extends(f, g)
    ensures EffectiveReachability(f, a, b) <==> EffectiveReachability(g, a, b)
  {
    forall x
      ensures WCluster(f, x) <==> WCluster(g, x)
    {
      assert IsWorkload(x) in f <==> IsWorkload(x) in g;
    }
    forall np, w
      ensures Governs(f, np, w) <==> Governs(g, np, w)
    {
      assert AppliesTo(np, w) in f <==> AppliesTo(np, w) in g;
      assert PolicyType(np, "Ingress") in f <==> PolicyType(np, "Ingress") in g;
    }
    forall np
      ensures Allows(f, np, a, b) <==> Allows(g, np, a, b)
    {
      AllowsIgnores(f, g, np, a, b);
    }
    assert HasIngressPolicy(f, b) <==> HasIngressPolicy(g, b);
  }

  lemma AllowsIgnores<N(!new)>(f: set<EdgeOf<N>>, g: set<EdgeOf<N>>, np: N, a: N, b: N)
    requires Extends(f, g)
    ensures Allows(f, np, a, b) <==> Allows(g, np, a, b)
  {
    assert IsWorkload(a) in f <==> IsWorkload(a) in g;
    assert IsWorkload(b) in f <==> IsWorkload(b) in g;
    assert AllowsIngressFrom(np, a) in f <==> AllowsIngressFrom(np, a) in g;
    assert AllowsAllIngress(np) in f <==> AllowsAllIngress(np) in g;
    assert SameCluster(f, a, b) <==> SameCluster(g, a, b);
    forall ns
      ensures AllowedNamespace(f, np, ns, a) <==> AllowedNamespace(g, np, ns, a)
    {
      assert AllowsIngressFrom(np, ns) in f <==> AllowsIngressFrom(np, ns) in g;
      assert IsNamespace(ns) in f <==> IsNamespace(ns) in g;
    }
  }

  // ----- the written edges and the compiled policies ----------------------------------------------------

  /** Plain kinds and byte-string names; namespaced objects have a namespace. */
  ghost predicate PlainObjects(objects: seq<Object>) {
    forall o :: o in objects && Indexed(o) ==>
      && '/' !in o.kind && IsBytes(o.name)
      && (ClusterKind(o.kind) || (OrDefault(o.ns) != [] && IsBytes(OrDefault(o.ns))))
  }

  ghost predicate PlainIndex(index: ObjectIndex) {
    forall k :: k in index ==> PlainKey(k)
  }

  predicate PlainKey(k: Key) {
    '/' !in k.kind && IsBytes(k.ns) && IsBytes(k.name) && (k.ns == [] <==> ClusterKind(k.kind))
  }

  lemma {:induction false} PlainObjectsIndex(objects: seq<Object>)
    requires PlainObjects(objects)
    ensures PlainIndex(IndexOfObjects(objects))
  {
    if objects != [] {
      var front, o := objects[..|objects| - 1], objects[|objects| - 1];
      PlainObjectsIndex(front);
      assert o in objects;
      if Indexed(o) { assert PlainKey(KeyOf(o)); }
    }
  }

  function KeyOfNode(n: Node): Key {
    match n
    case WorkloadNode(w) => Key(w.kind, w.ns, w.name)
    case NamespaceNode(ns) => Key("Namespace", [], ns)
    case PolicyNode(p) => Key("NetworkPolicy", p.ns, p.name)
  }

  predicate HasNode(index: ObjectIndex, n: Node) {
    KeyOfNode(n) in index && (n.WorkloadNode? ==> WorkloadKind(n.w.kind))
  }

  /** Nodes of policies and reachability are named as the objects are. */
  lemma NodeIriOfKey(cluster: Text, index: ObjectIndex, n: Node)
    requires PlainIndex(index) && HasNode(index, n)
    ensures NodeIri(cluster, n) == Fragment.ObjectIri(cluster, KeyOfNode(n)) && ValidNode(n)
    ensures Fragment.Shown(index, KeyOfNode(n))
  {
    assert PlainKey(KeyOfNode(n));
  }

  lemma ViewValid(index: ObjectIndex, r: Reading)
    requires PlainIndex(index)
    ensures ValidSnapshot(ViewOf(index, r))
  {
    var c := ViewOf(index, r);
    ViewHas(index, r);
    forall w | w in c.workloads
      ensures ValidNode(WorkloadNode(w)) && IsBytes(w.ns)
    {
      assert PlainKey(Key(w.kind, w.ns, w.name));
    }
    forall n | n in c.namespaces
      ensures IsBytes(n)
    {
      assert PlainKey(Key("Namespace", [], n));
    }
    forall k | k in c.policies
      ensures IsBytes(k.ns) && IsBytes(k.name)
    {
      assert PlainKey(Key("NetworkPolicy", k.ns, k.name));
    }
  }

  /** Objects with the IRI of a workload are that workload. */
  lemma WorkloadIriUnique(cluster: Text, k: Key, w: Key)
    requires PlainKey(k) && PlainKey(w) && WorkloadKind(w.kind)
    requires Fragment.ObjectIri(cluster, k) == Fragment.ObjectIri(cluster, w)
    ensures k == w
  {
    if k.ns == [] {
      var kind := if k.kind == "Node" then "node" else if k.kind == "Namespace" then "ns" else k.kind;
      Iri.ScopesDisjoint(cluster, w.kind, w.ns, w.name, kind, k.name);
    } else {
      Iri.NamespacedObjectInjective(cluster, k.kind, k.ns, k.name, w.kind, w.ns, w.name);
    }
  }

  /** What kind of edge comes from where. */
  lemma AboutCases(cluster: Text, index: ObjectIndex, r: Reading, k: Key, d: IriEdge)
    requires k in index && d in EdgesAbout(cluster, index, r, k)
    ensures match d
            case InCluster(x) => x == Fragment.ObjectIri(cluster, k)
            case InNamespace(x, n) =>
              x == Fragment.ObjectIri(cluster, k) && k.ns != [] && n == Iri.ClusterObject(cluster, "ns", k.ns)
            case IsWorkload(x) => x == Fragment.ObjectIri(cluster, k) && WorkloadKind(k.kind)
            case IsNamespace(x) => x == Fragment.ObjectIri(cluster, k) && k.kind == "Namespace"
            case _ => k.kind == "NetworkPolicy" && d in PolicyEdgesOf(cluster, index, r, k)
  {
    if k.kind == "NetworkPolicy" && d in PolicyEdgesOf(cluster, index, r, k) {
      ViewHas(index, r);
      var p := PolicyKey(k.ns, k.name);
      var e :| e in PolicyEdges(ViewOf(index, r), p) && d == MapEdge(IriOf(cluster), e);
      PolicyEdgeShape(ViewOf(index, r), p, e);
    }
  }

  lemma PolicyEdgeWritten(cluster: Text, index: ObjectIndex, r: Reading, p: PolicyKey, e: Edge)
    requires PlainIndex(index) && p in ViewOf(index, r).policies && e in PolicyEdges(ViewOf(index, r), p)
    ensures MapEdge(IriOf(cluster), e) in AllEdges(cluster, index, r)
  {
    ViewHas(index, r);
    var k := Key("NetworkPolicy", p.ns, p.name);
    assert PolicyKey(k.ns, k.name) == p;
    assert MapEdge(IriOf(cluster), e) in PolicyEdgesOf(cluster, index, r, k);
    assert HasEdge(cluster, index, r, k, MapEdge(IriOf(cluster), e));
    AllEdgesHas(cluster, index, r, MapEdge(IriOf(cluster), e));
  }

  predicate AboutNode(e: Edge) {
    e.IsWorkload? || e.IsNamespace? || e.InNamespace? || e.InCluster?
  }

  predicate NodeIn(c: Snapshot, n: Node) {
    match n
    case WorkloadNode(w) => w in c.workloads
    case NamespaceNode(ns) => ns in c.namespaces
    case PolicyNode(p) => p in c.policies
  }

  lemma NodeInView(index: ObjectIndex, r: Reading, n: Node)
    ensures NodeIn(ViewOf(index, r), n) <==> HasNode(index, n)
  {
    ViewHas(index, r);
  }

  /** The edges of objects that are not policy edges, by the node they are about. */
  predicate FitsNode(e: Edge) {
    match e
    case IsWorkload(x) => x.WorkloadNode?
    case IsNamespace(x) => x.NamespaceNode?
    case InNamespace(x, n) => !x.NamespaceNode? && n == NamespaceNode(KeyOfNode(x).ns)
    case InCluster(x) => true
    case _ => false
  }

  lemma ObjectEdgeFits(c: Snapshot, e: Edge)
    requires e in NetworkPolicies.ObjectEdges(c)
    ensures AboutNode(e) && FitsNode(e) && NodeIn(c, e.x)
  {
  }

  lemma FittingEdge(c: Snapshot, e: Edge)
    requires AboutNode(e) && FitsNode(e) && NodeIn(c, e.x)
    ensures e in NetworkPolicies.ObjectEdges(c)
  {
  }

  lemma ObjectEdgeExactly(c: Snapshot, e: Edge)
    ensures e in NetworkPolicies.ObjectEdges(c) <==> AboutNode(e) && FitsNode(e) && NodeIn(c, e.x)
  {
    if e in NetworkPolicies.ObjectEdges(c) {
      ObjectEdgeFits(c, e);
    }
    if AboutNode(e) && FitsNode(e) && NodeIn(c, e.x) {
      FittingEdge(c, e);
    }
  }

  lemma AboutHas(cluster: Text, index: ObjectIndex, r: Reading, k: Key)
    requires k in index
    ensures var x, about := Fragment.ObjectIri(cluster, k), EdgesAbout(cluster, index, r, k);
            && InCluster(x) in about
            && (k.ns != [] ==> InNamespace(x, Iri.ClusterObject(cluster, "ns", k.ns)) in about)
            && (WorkloadKind(k.kind) ==> IsWorkload(x) in about)
            && (k.kind == "Namespace" ==> IsNamespace(x) in about)
  {
  }

  lemma NodeEdgeWritten(cluster: Text, index: ObjectIndex, r: Reading, e: Edge)
    requires PlainIndex(index) && AboutNode(e) && FitsNode(e) && HasNode(index, e.x)
    ensures MapEdge(IriOf(cluster), e) in EdgesAbout(cluster, index, r, KeyOfNode(e.x))
  {
    NodeIriOfKey(cluster, index, e.x);
    AboutHas(cluster, index, r, KeyOfNode(e.x));
    assert PlainKey(KeyOfNode(e.x));
  }

  lemma ObjectEdgeWritten(cluster: Text, index: ObjectIndex, r: Reading, e: Edge)
    requires PlainIndex(index) && e in NetworkPolicies.ObjectEdges(ViewOf(index, r))
    ensures MapEdge(IriOf(cluster), e) in AllEdges(cluster, index, r)
  {
    ObjectEdgeExactly(ViewOf(index, r), e);
    NodeInView(index, r, e.x);
    NodeIriOfKey(cluster, index, e.x);
    NodeEdgeWritten(cluster, index, r, e);
    AboutInAll(cluster, index, r, KeyOfNode(e.x), MapEdge(IriOf(cluster), e));
  }

  lemma AboutInAll(cluster: Text, index: ObjectIndex, r: Reading, k: Key, d: IriEdge)
    requires k in index && Fragment.Shown(index, k) && d in EdgesAbout(cluster, index, r, k)
    ensures d in AllEdges(cluster, index, r)
  {
    assert HasEdge(cluster, index, r, k, d);
    AllEdgesHas(cluster, index, r, d);
  }

  /** Every compiled edge is written. */
  lemma CompiledWritten(cluster: Text, index: ObjectIndex, r: Reading, d: IriEdge)
    requires PlainIndex(index) && d in ImageOf(IriOf(cluster), Compiled(ViewOf(index, r)))
    ensures d in AllEdges(cluster, index, r)
  {
    var c := ViewOf(index, r);
    var e :| e in Compiled(c) && d == MapEdge(IriOf(cluster), e);
    if e in AllPolicyEdges(c) {
      var p :| p in c.policies && e in PolicyEdges(c, p);
      PolicyEdgeWritten(cluster, index, r, p, e);
    } else {
      ObjectEdgeWritten(cluster, index, r, e);
    }
  }

  predicate NetworkKind(kind: Text) {
    WorkloadKind(kind) || kind == "Namespace" || kind == "NetworkPolicy"
  }

  function NodeOfKey(k: Key): Node
    requires NetworkKind(k.kind)
  {
    if WorkloadKind(k.kind) then WorkloadNode(WorkloadKey(k.kind, k.ns, k.name))
    else if k.kind == "Namespace" then NamespaceNode(k.name)
    else PolicyNode(PolicyKey(k.ns, k.name))
  }

  /** The edge of a node that is written for its object. */
  function NodeEdge(n: Node, d: IriEdge): Edge {
    match d
    case IsWorkload(_) => IsWorkload(n)
    case IsNamespace(_) => IsNamespace(n)
    case InNamespace(_, _) => InNamespace(n, NamespaceNode(KeyOfNode(n).ns))
    case _ => InCluster(n)
  }

  lemma NodeEdgeMapped(cluster: Text, index: ObjectIndex, r: Reading, k: Key, d: IriEdge)
    requires PlainIndex(index) && k in index && NetworkKind(k.kind) && d in EdgesAbout(cluster, index, r, k)
    requires d.IsWorkload? || d.IsNamespace? || d.InNamespace? || d.InCluster?
    ensures var e := NodeEdge(NodeOfKey(k), d);
            MapEdge(IriOf(cluster), e) == d && FitsNode(e) && HasNode(index, NodeOfKey(k))
  {
    assert PlainKey(k) && KeyOfNode(NodeOfKey(k)) == k;
    NodeIriOfKey(cluster, index, NodeOfKey(k));
    AboutCases(cluster, index, r, k, d);
  }

  lemma NodeEdgeCompiled(cluster: Text, index: ObjectIndex, r: Reading, k: Key, d: IriEdge)
    requires PlainIndex(index) && k in index && NetworkKind(k.kind) && d in EdgesAbout(cluster, index, r, k)
    requires d.IsWorkload? || d.IsNamespace? || d.InNamespace? || d.InCluster?
    ensures d in ImageOf(IriOf(cluster), Compiled(ViewOf(index, r)))
  {
    var e := NodeEdge(NodeOfKey(k), d);
    NodeEdgeMapped(cluster, index, r, k, d);
    NodeInView(index, r, NodeOfKey(k));
    ObjectEdgeExactly(ViewOf(index, r), e);
    assert e in Compiled(ViewOf(index, r));
  }

  lemma PolicyEdgeCompiled(cluster: Text, index: ObjectIndex, r: Reading, k: Key, d: IriEdge)
    requires k in index && k.kind == "NetworkPolicy" && d in PolicyEdgesOf(cluster, index, r, k)
    ensures d in ImageOf(IriOf(cluster), Compiled(ViewOf(index, r)))
  {
    ViewHas(index, r);
    var c, p := ViewOf(index, r), PolicyKey(k.ns, k.name);
    var e :| e in PolicyEdges(c, p) && d == MapEdge(IriOf(cluster), e);
    assert e in AllPolicyEdges(c);
  }

  /** Every written edge is compiled, but for the clusters and namespaces of other objects. */
  lemma ExtraWritten(cluster: Text, index: ObjectIndex, r: Reading, d: IriEdge)
    requires PlainIndex(index) && d in AllEdges(cluster, index, r)
    requires d !in ImageOf(IriOf(cluster), Compiled(ViewOf(index, r)))
    ensures (d.InCluster? || d.InNamespace?) && IsWorkload(d.x) !in AllEdges(cluster, index, r)
  {
    AllEdgesHas(cluster, index, r, d);
    var k :| HasEdge(cluster, index, r, k, d);
    AboutCases(cluster, index, r, k, d);
    if d.IsWorkload? || d.IsNamespace? || d.InNamespace? || d.InCluster? {
      if NetworkKind(k.kind) { NodeEdgeCompiled(cluster, index, r, k, d); }
      NoWorkload(cluster, index, r, k);
    } else {
      PolicyEdgeCompiled(cluster, index, r, k, d);
    }
  }

  lemma NoWorkload(cluster: Text, index: ObjectIndex, r: Reading, k: Key)
    requires PlainIndex(index) && k in index
    ensures !WorkloadKind(k.kind) ==> IsWorkload(Fragment.ObjectIri(cluster, k)) !in AllEdges(cluster, index, r)
  {
    var d := IsWorkload(Fragment.ObjectIri(cluster, k));
    AllEdgesHas(cluster, index, r, d);
    if w :| HasEdge(cluster, index, r, w, d) {
      AboutCases(cluster, index, r, w, d);
      WorkloadIriUnique(cluster, k, w);
    }
  }

  lemma AllEdgesExtend(cluster: Text, index: ObjectIndex, r: Reading)
    requires PlainIndex(index)
    ensures Extends(ImageOf(IriOf(cluster), Compiled(ViewOf(index, r))), AllEdges(cluster, index, r))
  {
    var f, g := ImageOf(IriOf(cluster), Compiled(ViewOf(index, r))), AllEdges(cluster, index, r);
    forall d | d in f
      ensures d in g
    {
      CompiledWritten(cluster, index, r, d);
    }
    forall d | d in g && d !in f
      ensures (d.InCluster? || d.InNamespace?) && IsWorkload(d.x) !in g
    {
      ExtraWritten(cluster, index, r, d);
    }
  }

  // ----- reachability of the fragment -----------------------------------------------------------------------

  /** Who may reach whom, by direct evaluation of the policies among the objects, up to peers without
      selectors. */
  ghost predicate Reaches(index: ObjectIndex, r: Reading, a: WorkloadKey, b: WorkloadKey) {
    MayReach(ViewOf(index, r), a, b) || AdmittedByBlock(ViewOf(index, r), a, b)
  }

  /** From manifests to the fragment and back: the ingress rules over the triples of the snapshot relate two
      workload IRIs exactly when direct evaluation of the policies in the manifests relates the workloads. */
  lemma FragmentReachabilityExactly(cluster: Text, objects: seq<Object>, pods: seq<Pod>, failed: seq<Text>,
                                    r: Reading, rest: Fragment.Describe, a: WorkloadKey, b: WorkloadKey)
    requires PlainObjects(objects) && Quiet(cluster, rest)
    requires ValidNode(WorkloadNode(a)) && ValidNode(WorkloadNode(b))
    ensures EffectiveReachability(EdgesIn(cluster, FragmentTriples(cluster, objects, pods, failed, r, rest)),
                                  NodeIri(cluster, WorkloadNode(a)), NodeIri(cluster, WorkloadNode(b)))
       <==> Reaches(IndexOfObjects(objects), r, a, b)
  {
    var index := IndexOfObjects(objects);
    var x, y := NodeIri(cluster, WorkloadNode(a)), NodeIri(cluster, WorkloadNode(b));
    PlainObjectsIndex(objects);
    FragmentEdges(cluster, objects, pods, failed, r, rest);
    AllEdgesExtend(cluster, index, r);
    ExtrasIgnored(ImageOf(IriOf(cluster), Compiled(ViewOf(index, r))), AllEdges(cluster, index, r), x, y);
    ViewValid(index, r);
    IriReachabilityExactly(cluster, ViewOf(index, r), a, b);
  }

  /** The text that names a snapshot, of these objects and pods. */
  ghost function HashedText(cluster: Text, objects: seq<Object>, pods: seq<Pod>, failed: seq<Text>,
                            r: Reading, rest: Fragment.Describe): Text {
    Fragment.SnapshotText(cluster, Fragment.SnapshotLines(objects, pods, failed, Describing(cluster, r, rest)))
  }

  ghost predicate ValidLines(cluster: Text, objects: seq<Object>, pods: seq<Pod>, failed: seq<Text>,
                             r: Reading, rest: Fragment.Describe) {
    forall l :: l in Fragment.SnapshotLines(objects, pods, failed, Describing(cluster, r, rest))
      ==> Fragment.ValidLine(l)
  }

  /** Two snapshots of a cluster with one hash agree on who may reach whom, whatever their objects, pods and
      order, if the hash does not collide on their texts. */
  lemma SameHashSameReachability(cluster: Text, objects: seq<Object>, pods: seq<Pod>, failed: seq<Text>,
                                 objects': seq<Object>, pods': seq<Pod>, failed': seq<Text>,
                                 r: Reading, rest: Fragment.Describe, sha: Text -> Text,
                                 a: WorkloadKey, b: WorkloadKey)
    requires PlainObjects(objects) && PlainObjects(objects') && Quiet(cluster, rest)
    requires ValidLines(cluster, objects, pods, failed, r, rest)
    requires ValidLines(cluster, objects', pods', failed', r, rest)
    requires ValidNode(WorkloadNode(a)) && ValidNode(WorkloadNode(b))
    requires var s, t := HashedText(cluster, objects, pods, failed, r, rest),
                         HashedText(cluster, objects', pods', failed', r, rest);
             sha(s) == sha(t) && (sha(s) == sha(t) ==> s == t)
    ensures Reaches(IndexOfObjects(objects), r, a, b) <==> Reaches(IndexOfObjects(objects'), r, a, b)
  {
    var describe := Describing(cluster, r, rest);
    Fragment.SnapshotHashIdentifies(cluster, Fragment.SnapshotLines(objects, pods, failed, describe),
                                    Fragment.SnapshotLines(objects', pods', failed', describe), sha);
    FragmentReachabilityExactly(cluster, objects, pods, failed, r, rest, a, b);
    FragmentReachabilityExactly(cluster, objects', pods', failed', r, rest, a, b);
  }
}
