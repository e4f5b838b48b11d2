/** NetworkPolicies, ingress side: the snapshot builder's expansion of selectors into edges
    (k8s/snapshot.rs, k8s/model.rs), the rules of the k8s pack that read those edges, and the direct
    evaluation of the policies that the two together must agree with. */
module NetworkPolicies {
  import opened Texts
  import opened Sorting
  import Iri

  type Labels = map<Text, Text>

  // ----- label selectors -------------------------------------------------------------

  datatype Operator = In | NotIn | Exists | DoesNotExist | UnknownOperator

  datatype Requirement = Requirement(key: Text, op: Operator, values: seq<Text>)

  datatype Selector = Selector(matchLabels: Labels, exprs: seq<Requirement>)

  predicate RequirementHolds(e: Requirement, labels: Labels) {
    match e.op
    case In => e.key in labels && labels[e.key] in e.values
    case NotIn => e.key in labels ==> labels[e.key] !in e.values
    case Exists => e.key in labels
    case DoesNotExist => e.key !in labels
    case UnknownOperator => false
  }

  /** What a requirement asks for: one of its values, none of them, any value at all, or none at all. */
  ghost predicate Demands(e: Requirement, labels: Labels) {
    match e.op
    case In => exists v :: v in e.values && LabelsHold(map[e.key := v], labels)
    case NotIn => forall v :: v in e.values ==> !LabelsHold(map[e.key := v], labels)
    case Exists => exists v :: LabelsHold(map[e.key := v], labels)
    case DoesNotExist => forall v :: !LabelsHold(map[e.key := v], labels)
    case UnknownOperator => false
  }

  lemma OneLabel(k: Text, v: Text, labels: Labels)
    ensures LabelsHold(map[k := v], labels) <==> k in labels && labels[k] == v
  {
    assert k in map[k := v];
  }

  /** The code's test of a requirement is what the requirement asks for. */
  lemma RequirementExactly(e: Requirement, labels: Labels)
    ensures RequirementHolds(e, labels) <==> Demands(e, labels)
  {
    forall v
      ensures LabelsHold(map[e.key := v], labels) <==> e.key in labels && labels[e.key] == v
    {
      OneLabel(e.key, v, labels);
    }
    if e.key in labels { assert LabelsHold(map[e.key := labels[e.key]], labels); }
  }

  /** Operator by operator, for every key, value list and label map. */
  lemma OperatorsExactly(k: Text, vs: seq<Text>, labels: Labels)
    ensures RequirementHolds(Requirement(k, In, vs), labels)
       <==> exists v :: v in vs && LabelsHold(map[k := v], labels)
    ensures RequirementHolds(Requirement(k, NotIn, vs), labels)
       <==> !exists v :: v in vs && LabelsHold(map[k := v], labels)
    ensures RequirementHolds(Requirement(k, Exists, vs), labels) <==> exists v :: LabelsHold(map[k := v], labels)
    ensures RequirementHolds(Requirement(k, DoesNotExist, vs), labels)
       <==> !exists v :: LabelsHold(map[k := v], labels)
    ensures !RequirementHolds(Requirement(k, UnknownOperator, vs), labels)
  {
    RequirementExactly(Requirement(k, In, vs), labels);
    RequirementExactly(Requirement(k, NotIn, vs), labels);
    RequirementExactly(Requirement(k, Exists, vs), labels);
    RequirementExactly(Requirement(k, DoesNotExist, vs), labels);
  }

  /** Required labels hold when they are among the labels, with their values. */
  lemma LabelsHoldExactly(ml: Labels, labels: Labels)
    ensures LabelsHold(ml, labels) <==> ml.Items <= labels.Items
  {
    if LabelsHold(ml, labels) {
      forall i | i in ml.Items
        ensures i in labels.Items
      {
        assert i.0 in labels && labels[i.0] == i.1;
      }
    }
    if ml.Items <= labels.Items {
      forall k | k in ml
        ensures k in labels && labels[k] == ml[k]
      {
        assert (k, ml[k]) in ml.Items;
      }
    }
  }

  /** Kubernetes' reading of a selector: every label and every requirement; an empty one always. */
  ghost predicate SelectorHolds(sel: Selector, labels: Labels) {
    && LabelsHold(sel.matchLabels, labels)
    && (forall e :: e in sel.exprs ==> Demands(e, labels))
  }

  predicate EmptySelector(sel: Selector) {
    sel.matchLabels == map[] && sel.exprs == []
  }

  /** A missing or empty selector matches everything or nothing, as the caller says. */
  ghost predicate Matches(sel: Option<Selector>, labels: Labels, emptyMatchesAll: bool) {
    match sel
    case None => emptyMatchesAll
    case Some(s) => if EmptySelector(s) then emptyMatchesAll else SelectorHolds(s, labels)
  }

  ghost predicate LabelsHold(ml: Labels, labels: Labels) {
    forall k :: k in ml ==> k in labels && labels[k] == ml[k]
  }

  method LabelsMatch(ml: Labels, labels: Labels) returns (ok: bool)
    ensures ok <==> LabelsHold(ml, labels)
  {
    var keys := InOrder(ml.Keys);
    for i := 0 to |keys|
      invariant forall j :: 0 <= j < i ==> keys[j] in ml && keys[j] in labels && labels[keys[j]] == ml[keys[j]]
    {
      assert keys[i] in Elements(keys);
      var k := keys[i];
      if k !in labels || labels[k] != ml[k] {
        return false;
      }
    }
    forall k | k in ml
      ensures k in labels && labels[k] == ml[k]
    {
      assert k in Elements(keys);
    }
    ok := true;
  }

  method SelectorMatches(sel: Option<Selector>, labels: Labels, emptyMatchesAll: bool) returns (ok: bool)
    ensures ok <==> Matches(sel, labels, emptyMatchesAll)
  {
    if sel.None? {
      return emptyMatchesAll;
    }
    var ml, exprs := sel.value.matchLabels, sel.value.exprs;
    if ml == map[] && exprs == [] {
      return emptyMatchesAll;
    }
    var labelsOk := LabelsMatch(ml, labels);
    if !labelsOk {
      return false;
    }
    for i := 0 to |exprs|
      invariant forall j :: 0 <= j < i ==> Demands(exprs[j], labels)
    {
      RequirementExactly(exprs[i], labels);
      if !RequirementHolds(exprs[i], labels) {
        return false;
      }
    }
    ok := true;
  }

  // ----- the objects of a snapshot ---------------------------------------------------------

  datatype WorkloadKey = WorkloadKey(kind: Text, ns: Text, name: Text)

  datatype PolicyKey = PolicyKey(ns: Text, name: Text)

  datatype Peer = Peer(namespaceSelector: Option<Selector>, podSelector: Option<Selector>)

  datatype IngressRule = IngressRule(from: seq<Peer>, to: seq<Peer>) {
    function Peers(): seq<Peer> {
      from + to
    }
  }

  datatype Policy = Policy(policyTypes: seq<Text>, podSelector: Option<Selector>, ingress: seq<IngressRule>) {
    /** Without explicit types a policy is an ingress policy. */
    function Types(): seq<Text> {
      if policyTypes == [] then ["Ingress"] else policyTypes
    }
  }

  /** One snapshot: pod labels of the workloads, labels of the Namespace objects, and the policies. */
  datatype Snapshot = Snapshot(workloads: map<WorkloadKey, Labels>, namespaces: map<Text, Labels>,
                               policies: map<PolicyKey, Policy>)

  datatype Node = WorkloadNode(w: WorkloadKey) | NamespaceNode(ns: Text) | PolicyNode(np: PolicyKey)

  /** The triples the ingress rules read, over nodes or over IRIs. */
  datatype EdgeOf<N> =
    | AppliesTo(np: N, target: N)
    | AllowsIngressFrom(np: N, source: N)
    | AllowsAllIngress(np: N)
    | PolicyType(np: N, type_: Text)
    | IsWorkload(x: N)
    | IsNamespace(x: N)
    | InNamespace(x: N, nsNode: N)
    | InCluster(x: N)

  type Edge = EdgeOf<Node>

  /** The IRI of a node in the fragment. */
  function NodeIri(cluster: Text, n: Node): Text {
    match n
    case WorkloadNode(w) => Iri.NamespacedObject(cluster, w.kind, w.ns, w.name)
    case NamespaceNode(ns) => Iri.ClusterObject(cluster, "ns", ns)
    case PolicyNode(np) => Iri.NamespacedObject(cluster, "NetworkPolicy", np.ns, np.name)
  }

  predicate ValidNode(n: Node) {
    match n
    case WorkloadNode(w) => '/' !in w.kind && w.kind != "NetworkPolicy" && IsBytes(w.ns) && IsBytes(w.name)
    case NamespaceNode(ns) => IsBytes(ns)
    case PolicyNode(np) => IsBytes(np.ns) && IsBytes(np.name)
  }

  /** Different nodes have different IRIs, so edges between IRIs are edges between nodes. */
  lemma NodeIriInjective(cluster: Text, m: Node, n: Node)
    requires ValidNode(m) && ValidNode(n) && NodeIri(cluster, m) == NodeIri(cluster, n)
    ensures m == n
  {
    if m.NamespaceNode? && n.NamespaceNode? {
      NamespaceIriInjective(cluster, m.ns, n.ns);
    } else if m.NamespaceNode? {
      var (k, ns, name) := Parts(n);
      Iri.ScopesDisjoint(cluster, k, ns, name, "ns", m.ns);
    } else if n.NamespaceNode? {
      var (k, ns, name) := Parts(m);
      Iri.ScopesDisjoint(cluster, k, ns, name, "ns", n.ns);
    } else {
      var (k1, ns1, n1) := Parts(m);
      var (k2, ns2, n2) := Parts(n);
      Iri.NamespacedObjectInjective(cluster, k1, ns1, n1, k2, ns2, n2);
    }
  }

  function Parts(n: Node): (Text, Text, Text)
    requires !n.NamespaceNode?
  {
    if n.WorkloadNode? then (n.w.kind, n.w.ns, n.w.name) else ("NetworkPolicy", n.np.ns, n.np.name)
  }

  lemma NamespaceIriInjective(cluster: Text, a: Text, b: Text)
    requires IsBytes(a) && IsBytes(b) && Iri.ClusterObject(cluster, "ns", a) == Iri.ClusterObject(cluster, "ns", b)
    ensures a == b
  {
    var prefix := Iri.Id("k8s/" + Iri.Encode(cluster) + "/");
    var x := Iri.ClusterObject(cluster, "ns", a);
    assert x[|prefix|..] == Iri.Slash("ns", Iri.Encode(a)) && x[|prefix|..] == Iri.Slash("ns", Iri.Encode(b));
    Iri.SlashInjective("ns", Iri.Encode(a), "ns", Iri.Encode(b));
    Iri.EncodeInjective(a, b);
  }

  // ----- the expansion, declaratively -----------------------------------------------------------

  ghost function WorkloadsMatching(c: Snapshot, ns: Text, sel: Option<Selector>): set<WorkloadKey> {
    set w | w in c.workloads && w.ns == ns && Matches(sel, c.workloads[w], true)
  }

  /** The namespaces a peer covers: its own policy's, unless it has a namespace selector. */
  ghost function PeerNamespaces(c: Snapshot, k: PolicyKey, peer: Peer): set<Text> {
    match peer.namespaceSelector
    case None => {k.ns}
    case Some(sel) => set n | n in c.namespaces && Matches(Some(sel), c.namespaces[n], true)
  }

  ghost function NamespacePeerEdges(c: Snapshot, k: PolicyKey, pns: Text, podSel: Option<Selector>): set<Edge> {
    match podSel
    case None => {AllowsIngressFrom(PolicyNode(k), NamespaceNode(pns))}
    case Some(_) => set w | w in WorkloadsMatching(c, pns, podSel) :: AllowsIngressFrom(PolicyNode(k), WorkloadNode(w))
  }

  ghost function PeerEdges(c: Snapshot, k: PolicyKey, peer: Peer): set<Edge> {
    set n, e | n in PeerNamespaces(c, k, peer) && e in NamespacePeerEdges(c, k, n, peer.podSelector) :: e
  }

  ghost function RuleEdges(c: Snapshot, k: PolicyKey, rule: IngressRule): set<Edge> {
    if rule.Peers() == [] then {AllowsAllIngress(PolicyNode(k))}
    else set peer, e | peer in rule.Peers() && e in PeerEdges(c, k, peer) :: e
  }

  ghost function IngressEdges(c: Snapshot, k: PolicyKey, rules: seq<IngressRule>): set<Edge> {
    set rule, e | rule in rules && e in RuleEdges(c, k, rule) :: e
  }

  ghost function TypeEdges(k: PolicyKey, types: seq<Text>): set<Edge> {
    set t | t in types :: PolicyType(PolicyNode(k), t)
  }

  ghost function AppliesEdges(c: Snapshot, k: PolicyKey, podSel: Option<Selector>): set<Edge> {
    set w | w in WorkloadsMatching(c, k.ns, podSel) :: AppliesTo(PolicyNode(k), WorkloadNode(w))
  }

  ghost function PolicyEdges(c: Snapshot, k: PolicyKey): set<Edge>
    requires k in c.policies
  {
    var p := c.policies[k];
    TypeEdges(k, p.Types()) + AppliesEdges(c, k, p.podSelector)
    + if "Ingress" in p.Types() then IngressEdges(c, k, p.ingress) else {}
  }

  // ----- the expansion, as it runs -----------------------------------------------------------------

  method MatchingWorkloads(c: Snapshot, keys: seq<WorkloadKey>, ns: Text, sel: Option<Selector>)
    returns (out: set<WorkloadKey>)
    requires Elements(keys) == c.workloads.Keys
    ensures out == WorkloadsMatching(c, ns, sel)
  {
    out := {};
    for i := 0 to |keys|
      invariant out == set w | w in keys[..i] && w in c.workloads && w.ns == ns && Matches(sel, c.workloads[w], true)
    {
      var w := keys[i];
      assert w in Elements(keys);
      assert keys[..i + 1] == keys[..i] + [w];
      if w.ns == ns {
        var ok := SelectorMatches(sel, c.workloads[w], true);
        if ok {
          out := out + {w};
        }
      }
    }
    assert keys[..|keys|] == keys;
    assert forall w :: w in keys <==> w in Elements(keys);
  }

  ghost predicate NamespaceMatches(c: Snapshot, sel: Selector, n: Text) {
    n in c.namespaces && Matches(Some(sel), c.namespaces[n], true)
  }

  method MatchingNamespaces(c: Snapshot, sel: Selector) returns (nss: seq<Text>)
    ensures Elements(nss) == set n | n in c.namespaces && Matches(Some(sel), c.namespaces[n], true)
  {
    var names := InOrder(c.namespaces.Keys);
    nss := [];
    for i := 0 to |names|
      invariant forall n :: n in nss <==> n in names[..i] && NamespaceMatches(c, sel, n)
    {
      var n := names[i];
      assert n in Elements(names);
      assert names[..i + 1] == names[..i] + [n];
      var ok := SelectorMatches(Some(sel), c.namespaces[n], true);
      assert ok <==> NamespaceMatches(c, sel, n);
      if ok {
        nss := nss + [n];
      }
    }
    assert names[..|names|] == names;
    assert forall n :: n in names <==> n in Elements(names);
    assert forall n :: n in nss <==> NamespaceMatches(c, sel, n);
  }

  method ExpandNamespaces(c: Snapshot, k: PolicyKey, peer: Peer) returns (nss: seq<Text>)
    ensures Elements(nss) == PeerNamespaces(c, k, peer)
  {
    match peer.namespaceSelector {
      case None => nss := [k.ns];
      case Some(sel) => nss := MatchingNamespaces(c, sel);
    }
  }

  method ExpandPeer(c: Snapshot, keys: seq<WorkloadKey>, k: PolicyKey, peer: Peer) returns (out: set<Edge>)
    requires Elements(keys) == c.workloads.Keys
    ensures out == PeerEdges(c, k, peer)
  {
    var nss := ExpandNamespaces(c, k, peer);
    out := {};
    for i := 0 to |nss|
      invariant out == set n, e | n in nss[..i] && e in NamespacePeerEdges(c, k, n, peer.podSelector) :: e
    {
      assert nss[..i + 1] == nss[..i] + [nss[i]];
      var edges: set<Edge>;
      if peer.podSelector.Some? {
        var ws := MatchingWorkloads(c, keys, nss[i], peer.podSelector);
        edges := set w | w in ws :: AllowsIngressFrom(PolicyNode(k), WorkloadNode(w));
      } else {
        edges := {AllowsIngressFrom(PolicyNode(k), NamespaceNode(nss[i]))};
      }
      assert edges == NamespacePeerEdges(c, k, nss[i], peer.podSelector);
      out := out + edges;
    }
    assert nss[..|nss|] == nss;
    assert forall n :: n in nss <==> n in Elements(nss);
  }

  method ExpandRules(c: Snapshot, keys: seq<WorkloadKey>, k: PolicyKey, rules: seq<IngressRule>)
    returns (out: set<Edge>)
    requires Elements(keys) == c.workloads.Keys
    ensures out == IngressEdges(c, k, rules)
  {
    out := {};
    for i := 0 to |rules|
      invariant out == IngressEdges(c, k, rules[..i])
    {
      assert rules[..i + 1] == rules[..i] + [rules[i]];
      var from := rules[i].Peers();
      var edges: set<Edge> := {};
      if from == [] {
        edges := {AllowsAllIngress(PolicyNode(k))};
      } else {
        for j := 0 to |from|
          invariant edges == set peer, e | peer in from[..j] && e in PeerEdges(c, k, peer) :: e
        {
          assert from[..j + 1] == from[..j] + [from[j]];
          var more := ExpandPeer(c, keys, k, from[j]);
          edges := edges + more;
        }
        assert from[..|from|] == from;
      }
      assert edges == RuleEdges(c, k, rules[i]);
      out := out + edges;
    }
    assert rules[..|rules|] == rules;
  }

  method ExpandPolicy(c: Snapshot, keys: seq<WorkloadKey>, k: PolicyKey) returns (out: set<Edge>)
    requires k in c.policies && Elements(keys) == c.workloads.Keys
    ensures out == PolicyEdges(c, k)
  {
    var p := c.policies[k];
    var types := p.Types();
    out := set t | t in types :: PolicyType(PolicyNode(k), t);
    var targets := MatchingWorkloads(c, keys, k.ns, p.podSelector);
    out := out + set w | w in targets :: AppliesTo(PolicyNode(k), WorkloadNode(w));
    if "Ingress" in types {
      var edges := ExpandRules(c, keys, k, p.ingress);
      out := out + edges;
    }
  }

  // ----- the fragment ----------------------------------------------------------------------------------

  ghost function ObjectEdges(c: Snapshot): set<Edge> {
    (set w | w in c.workloads :: IsWorkload(WorkloadNode(w)))
    + (set w | w in c.workloads :: InNamespace(WorkloadNode(w), NamespaceNode(w.ns)))
    + (set w | w in c.workloads :: InCluster(WorkloadNode(w)))
    + (set n | n in c.namespaces :: IsNamespace(NamespaceNode(n)))
    + (set n | n in c.namespaces :: InCluster(NamespaceNode(n)))
    + (set k | k in c.policies :: InCluster(PolicyNode(k)))
    + (set k | k in c.policies :: InNamespace(PolicyNode(k), NamespaceNode(k.ns)))
  }

  ghost function Compiled(c: Snapshot): set<Edge> {
    ObjectEdges(c) + AllPolicyEdges(c)
  }

  method CompilePolicies(c: Snapshot, keys: seq<WorkloadKey>, policies: seq<PolicyKey>) returns (out: set<Edge>)
    requires Elements(keys) == c.workloads.Keys && Elements(policies) == c.policies.Keys
    ensures ObjectEdges(c) + out == Compiled(c)
  {
    out := {};
    for i := 0 to |policies|
      invariant out == set k, e | k in policies[..i] && k in c.policies && e in PolicyEdges(c, k) :: e
    {
      assert policies[i] in Elements(policies);
      assert policies[..i + 1] == policies[..i] + [policies[i]];
      var edges := ExpandPolicy(c, keys, policies[i]);
      out := out + edges;
    }
    assert policies[..|policies|] == policies;
    assert forall k :: k in policies <==> k in Elements(policies);
  }

  // ----- the ingress rules of the k8s pack -----------------------------------------------------------------

  ghost predicate IngressPolicy<N(!new)>(f: set<EdgeOf<N>>, np: N) {
    PolicyType(np, "Ingress") in f
  }

  ghost predicate Governs<N(!new)>(f: set<EdgeOf<N>>, np: N, w: N) {
    AppliesTo(np, w) in f && IngressPolicy(f, np)
  }

  ghost predicate HasIngressPolicy<N(!new)>(f: set<EdgeOf<N>>, w: N) {
    exists np :: Governs(f, np, w)
  }

  ghost predicate WCluster<N(!new)>(f: set<EdgeOf<N>>, w: N) {
    IsWorkload(w) in f && InCluster(w) in f
  }

  ghost predicate SameCluster<N(!new)>(f: set<EdgeOf<N>>, a: N, b: N) {
    WCluster(f, a) && WCluster(f, b)
  }

  ghost predicate AllowedNamespace<N(!new)>(f: set<EdgeOf<N>>, np: N, ns: N, a: N) {
    AllowsIngressFrom(np, ns) in f && IsNamespace(ns) in f && InNamespace(a, ns) in f && IsWorkload(a) in f
  }

  /** A policy lets `a` in: directly, through its namespace, or because it lets everyone in. */
  ghost predicate Allows<N(!new)>(f: set<EdgeOf<N>>, np: N, a: N, b: N) {
    || (AllowsIngressFrom(np, a) in f && IsWorkload(a) in f)
    || (exists ns :: AllowedNamespace(f, np, ns, a))
    || (AllowsAllIngress(np) in f && SameCluster(f, a, b))
  }

  /** The four rules for `effectiveReachability`. */
  ghost predicate EffectiveReachability<N(!new)>(f: set<EdgeOf<N>>, a: N, b: N) {
    || (SameCluster(f, a, b) && !HasIngressPolicy(f, b))
    || (exists np :: Governs(f, np, b) && Allows(f, np, a, b))
  }

  // ----- direct evaluation ------------------------------------------------------------------------------------

  /** A policy of type `Ingress`, or of no stated type. */
  predicate ControlsIngress(p: Policy) {
    p.policyTypes == [] || "Ingress" in p.policyTypes
  }

  lemma TypesIngress(p: Policy)
    ensures "Ingress" in p.Types() <==> ControlsIngress(p)
  {
    assert "Ingress" in ["Ingress"];
  }

  /** The peers of an ingress rule are those of `from`, and of `to` should a manifest have it. */
  predicate HasPeer(rule: IngressRule, peer: Peer) {
    peer in rule.from || peer in rule.to
  }

  predicate AdmitsAll(rule: IngressRule) {
    rule.from == [] && rule.to == []
  }

  lemma PeersExactly(rule: IngressRule)
    ensures AdmitsAll(rule) <==> rule.Peers() == []
    ensures forall peer :: peer in rule.Peers() <==> HasPeer(rule, peer)
  {
  }

  ghost predicate Selects(c: Snapshot, k: PolicyKey, b: WorkloadKey) {
    && k in c.policies && b in c.workloads && b.ns == k.ns && ControlsIngress(c.policies[k])
    && (c.policies[k].podSelector.Some? ==> SelectorHolds(c.policies[k].podSelector.value, c.workloads[b]))
  }

  /** A peer with a selector admits a workload whose namespace and pod labels it selects; a peer without
      any (an `ipBlock`) admits no workload. */
  ghost predicate PeerAdmits(c: Snapshot, k: PolicyKey, peer: Peer, a: WorkloadKey)
    requires a in c.workloads
  {
    && (peer.namespaceSelector.Some? || peer.podSelector.Some?)
    && (match peer.namespaceSelector
        case None => a.ns == k.ns
        case Some(sel) => a.ns in c.namespaces && SelectorHolds(sel, c.namespaces[a.ns]))
    && (peer.podSelector.Some? ==> SelectorHolds(peer.podSelector.value, c.workloads[a]))
  }

  ghost predicate RuleAdmits(c: Snapshot, k: PolicyKey, rule: IngressRule, a: WorkloadKey)
    requires a in c.workloads
  {
    AdmitsAll(rule) || exists peer :: HasPeer(rule, peer) && PeerAdmits(c, k, peer, a)
  }

  ghost predicate PolicyAdmits(c: Snapshot, k: PolicyKey, a: WorkloadKey)
    requires k in c.policies && a in c.workloads
  {
    exists rule :: rule in c.policies[k].ingress && RuleAdmits(c, k, rule, a)
  }

  /** `a` may reach `b`: no ingress policy selects `b`, or one that does admits `a`. */
  ghost predicate MayReach(c: Snapshot, a: WorkloadKey, b: WorkloadKey) {
    && a in c.workloads && b in c.workloads
    && ((forall k :: !Selects(c, k, b)) || exists k :: Selects(c, k, b) && PolicyAdmits(c, k, a))
  }

  predicate HasNoSelector(peer: Peer) {
    peer.namespaceSelector.None? && peer.podSelector.None?
  }

  /** A selecting policy lists a peer without selectors, and `a` lives in the policy's own namespace. */
  ghost predicate AdmittedByBlock(c: Snapshot, a: WorkloadKey, b: WorkloadKey) {
    a in c.workloads && exists k :: Selects(c, k, b) && OwnNamespaceBlock(c, k, a)
  }

  // ----- the two agree ---------------------------------------------------------------------------------------

  lemma MatchesAll(sel: Option<Selector>, labels: Labels)
    ensures Matches(sel, labels, true) <==> (sel.Some? ==> SelectorHolds(sel.value, labels))
  {
  }

  predicate IsPolicyEdge(e: Edge) {
    e.AppliesTo? || e.PolicyType? || e.AllowsIngressFrom? || e.AllowsAllIngress?
  }

  lemma PolicyEdgeShape(c: Snapshot, k: PolicyKey, e: Edge)
    requires k in c.policies && e in PolicyEdges(c, k)
    ensures IsPolicyEdge(e) && e.np == PolicyNode(k)
  {
    var p := c.policies[k];
    if e in IngressEdges(c, k, p.ingress) && !e.PolicyType? && !e.AppliesTo? {
      var rule :| rule in p.ingress && e in RuleEdges(c, k, rule);
      if rule.Peers() != [] {
        var peer :| peer in rule.Peers() && e in PeerEdges(c, k, peer);
        var n :| n in PeerNamespaces(c, k, peer) && e in NamespacePeerEdges(c, k, n, peer.podSelector);
      }
    } else if e in IngressEdges(c, k, p.ingress) {
      IngressEdgeShape(c, k, p.ingress, e);
    }
  }

  lemma IngressEdgeShape(c: Snapshot, k: PolicyKey, rules: seq<IngressRule>, e: Edge)
    requires e in IngressEdges(c, k, rules)
    ensures (e.AllowsIngressFrom? || e.AllowsAllIngress?) && e.np == PolicyNode(k)
  {
    var rule :| rule in rules && e in RuleEdges(c, k, rule);
    if rule.Peers() != [] {
      var peer :| peer in rule.Peers() && e in PeerEdges(c, k, peer);
      var n :| n in PeerNamespaces(c, k, peer) && e in NamespacePeerEdges(c, k, n, peer.podSelector);
    }
  }

  lemma ObjectEdgeShape(c: Snapshot, e: Edge)
    ensures e in ObjectEdges(c) ==> !IsPolicyEdge(e)
    ensures e.IsWorkload? ==> (e in ObjectEdges(c) <==> e.x.WorkloadNode? && e.x.w in c.workloads)
    ensures e.IsNamespace? ==> (e in ObjectEdges(c) <==> e.x.NamespaceNode? && e.x.ns in c.namespaces)
    ensures e.InNamespace? && e.x.WorkloadNode?
      ==> (e in ObjectEdges(c) <==> e.x.w in c.workloads && e.nsNode == NamespaceNode(e.x.w.ns))
    ensures e.InCluster? && e.x.WorkloadNode? ==> (e in ObjectEdges(c) <==> e.x.w in c.workloads)
  {
  }

  ghost function AllPolicyEdges(c: Snapshot): set<Edge> {
    set k, e | k in c.policies && e in PolicyEdges(c, k) :: e
  }

  /** An edge of the fragment comes from an object or from the policy it is about. */
  lemma InCompiled(c: Snapshot, e: Edge)
    ensures !IsPolicyEdge(e) ==> (e in Compiled(c) <==> e in ObjectEdges(c))
    ensures IsPolicyEdge(e) ==>
      (e in Compiled(c) <==> e.np.PolicyNode? && e.np.np in c.policies && e in PolicyEdges(c, e.np.np))
  {
    ObjectEdgeShape(c, e);
    if e in AllPolicyEdges(c) {
      var k :| k in c.policies && e in PolicyEdges(c, k);
      PolicyEdgeShape(c, k, e);
    }
    if IsPolicyEdge(e) && e.np.PolicyNode? && e.np.np in c.policies && e in PolicyEdges(c, e.np.np) {
      assert e in AllPolicyEdges(c);
    }
  }

  lemma WorkloadFacts(c: Snapshot, x: Node)
    ensures IsWorkload(x) in Compiled(c) <==> x.WorkloadNode? && x.w in c.workloads
    ensures WCluster(Compiled(c), x) <==> x.WorkloadNode? && x.w in c.workloads
  {
    InCompiled(c, IsWorkload(x));
    ObjectEdgeShape(c, IsWorkload(x));
    InCompiled(c, InCluster(x));
    ObjectEdgeShape(c, InCluster(x));
  }

  lemma NamespaceFacts(c: Snapshot, ns: Node, a: WorkloadKey)
    ensures IsNamespace(ns) in Compiled(c) <==> ns.NamespaceNode? && ns.ns in c.namespaces
    ensures InNamespace(WorkloadNode(a), ns) in Compiled(c) <==> a in c.workloads && ns == NamespaceNode(a.ns)
  {
    InCompiled(c, IsNamespace(ns));
    ObjectEdgeShape(c, IsNamespace(ns));
    InCompiled(c, InNamespace(WorkloadNode(a), ns));
    ObjectEdgeShape(c, InNamespace(WorkloadNode(a), ns));
  }

  lemma TypeEdgeIff(c: Snapshot, k: PolicyKey)
    requires k in c.policies
    ensures PolicyType(PolicyNode(k), "Ingress") in PolicyEdges(c, k) <==> "Ingress" in c.policies[k].Types()
  {
    var e := PolicyType(PolicyNode(k), "Ingress");
    if e in IngressEdges(c, k, c.policies[k].ingress) { IngressEdgeShape(c, k, c.policies[k].ingress, e); }
  }

  lemma AppliesEdgeIff(c: Snapshot, k: PolicyKey, b: Node)
    requires k in c.policies
    ensures AppliesTo(PolicyNode(k), b) in PolicyEdges(c, k)
       <==> b.WorkloadNode? && b.w in WorkloadsMatching(c, k.ns, c.policies[k].podSelector)
  {
    var e := AppliesTo(PolicyNode(k), b);
    if e in IngressEdges(c, k, c.policies[k].ingress) { IngressEdgeShape(c, k, c.policies[k].ingress, e); }
  }

  lemma GovernsIffSelects(c: Snapshot, np: Node, b: Node)
    ensures Governs(Compiled(c), np, b)
       <==> np.PolicyNode? && b.WorkloadNode? && Selects(c, np.np, b.w)
  {
    InCompiled(c, PolicyType(np, "Ingress"));
    InCompiled(c, AppliesTo(np, b));
    if np.PolicyNode? && np.np in c.policies {
      TypeEdgeIff(c, np.np);
      AppliesEdgeIff(c, np.np, b);
      if b.WorkloadNode? && b.w in c.workloads {
        MatchesAll(c.policies[np.np].podSelector, c.workloads[b.w]);
      }
    }
  }

  lemma PeerEdgeDirect(c: Snapshot, k: PolicyKey, peer: Peer, a: WorkloadKey)
    requires a in c.workloads
    ensures AllowsIngressFrom(PolicyNode(k), WorkloadNode(a)) in PeerEdges(c, k, peer)
       <==> peer.podSelector.Some? && PeerAdmits(c, k, peer, a)
  {
    var e := AllowsIngressFrom(PolicyNode(k), WorkloadNode(a));
    MatchesAll(peer.podSelector, c.workloads[a]);
    if peer.namespaceSelector.Some? && a.ns in c.namespaces {
      MatchesAll(peer.namespaceSelector, c.namespaces[a.ns]);
    }
    if e in PeerEdges(c, k, peer) {
      var n :| n in PeerNamespaces(c, k, peer) && e in NamespacePeerEdges(c, k, n, peer.podSelector);
      assert a in WorkloadsMatching(c, n, peer.podSelector);
    }
    if peer.podSelector.Some? && PeerAdmits(c, k, peer, a) {
      assert a in WorkloadsMatching(c, a.ns, peer.podSelector);
      assert a.ns in PeerNamespaces(c, k, peer) && e in NamespacePeerEdges(c, k, a.ns, peer.podSelector);
    }
  }

  lemma PeerEdgeNamespace(c: Snapshot, k: PolicyKey, peer: Peer, ns: Text)
    ensures AllowsIngressFrom(PolicyNode(k), NamespaceNode(ns)) in PeerEdges(c, k, peer)
       <==> peer.podSelector.None? && ns in PeerNamespaces(c, k, peer)
  {
    var e := AllowsIngressFrom(PolicyNode(k), NamespaceNode(ns));
    assert e in PeerEdges(c, k, peer)
      <==> exists n :: n in PeerNamespaces(c, k, peer) && e in NamespacePeerEdges(c, k, n, peer.podSelector);
  }

  /** What the compiled edges of one peer let in: what the peer admits, or, for a peer without selectors,
      the policy's own namespace. */
  ghost predicate PeerAllows(c: Snapshot, k: PolicyKey, peer: Peer, a: WorkloadKey)
    requires a in c.workloads
  {
    PeerAdmits(c, k, peer, a) || (HasNoSelector(peer) && a.ns == k.ns && a.ns in c.namespaces)
  }

  lemma PeerCompiled(c: Snapshot, k: PolicyKey, peer: Peer, a: WorkloadKey)
    requires a in c.workloads
    ensures PeerAllows(c, k, peer, a)
       <==> || AllowsIngressFrom(PolicyNode(k), WorkloadNode(a)) in PeerEdges(c, k, peer)
            || (a.ns in c.namespaces && AllowsIngressFrom(PolicyNode(k), NamespaceNode(a.ns)) in PeerEdges(c, k, peer))
  {
    PeerEdgeDirect(c, k, peer, a);
    PeerEdgeNamespace(c, k, peer, a.ns);
    if peer.namespaceSelector.Some? && a.ns in c.namespaces {
      MatchesAll(peer.namespaceSelector, c.namespaces[a.ns]);
    }
  }

  lemma IngressEdgeIff(c: Snapshot, k: PolicyKey, e: Edge)
    requires k in c.policies && (e.AllowsIngressFrom? || e.AllowsAllIngress?)
    ensures e in PolicyEdges(c, k)
       <==> "Ingress" in c.policies[k].Types() &&
            exists rule :: rule in c.policies[k].ingress && e in RuleEdges(c, k, rule)
  {
    assert e in IngressEdges(c, k, c.policies[k].ingress)
      <==> exists rule :: rule in c.policies[k].ingress && e in RuleEdges(c, k, rule);
  }

  /** Some peer of the rule has this edge. */
  ghost predicate RuleLets(c: Snapshot, k: PolicyKey, rule: IngressRule, x: Node) {
    exists peer :: peer in rule.Peers() && AllowsIngressFrom(PolicyNode(k), x) in PeerEdges(c, k, peer)
  }

  lemma RuleEdgeIff(c: Snapshot, k: PolicyKey, rule: IngressRule, x: Node)
    ensures AllowsIngressFrom(PolicyNode(k), x) in RuleEdges(c, k, rule) <==> RuleLets(c, k, rule, x)
    ensures AllowsAllIngress(PolicyNode(k)) in RuleEdges(c, k, rule) <==> rule.Peers() == []
  {
    var e := AllowsIngressFrom(PolicyNode(k), x);
    if RuleLets(c, k, rule, x) {
      var peer :| peer in rule.Peers() && e in PeerEdges(c, k, peer);
      assert rule.Peers() != [];
    }
  }

  /** What one selecting policy lets in through its compiled edges. */
  ghost predicate RuleAllows(c: Snapshot, k: PolicyKey, rule: IngressRule, a: WorkloadKey)
    requires a in c.workloads
  {
    rule.Peers() == [] || exists peer :: peer in rule.Peers() && PeerAllows(c, k, peer, a)
  }

  ghost predicate PolicyAllows(c: Snapshot, k: PolicyKey, a: WorkloadKey)
    requires k in c.policies && a in c.workloads
  {
    exists rule :: rule in c.policies[k].ingress && RuleAllows(c, k, rule, a)
  }

  lemma RuleAllowsIff(c: Snapshot, k: PolicyKey, rule: IngressRule, a: WorkloadKey)
    requires a in c.workloads
    ensures RuleAllows(c, k, rule, a)
       <==> || rule.Peers() == [] || RuleLets(c, k, rule, WorkloadNode(a))
            || (a.ns in c.namespaces && RuleLets(c, k, rule, NamespaceNode(a.ns)))
  {
    if peer :| peer in rule.Peers() && PeerAllows(c, k, peer, a) {
      PeerCompiled(c, k, peer, a);
    }
    if RuleLets(c, k, rule, WorkloadNode(a)) {
      var peer :| peer in rule.Peers() && AllowsIngressFrom(PolicyNode(k), WorkloadNode(a)) in PeerEdges(c, k, peer);
      PeerCompiled(c, k, peer, a);
    }
    if a.ns in c.namespaces && RuleLets(c, k, rule, NamespaceNode(a.ns)) {
      var peer :| peer in rule.Peers() &&
          AllowsIngressFrom(PolicyNode(k), NamespaceNode(a.ns)) in PeerEdges(c, k, peer);
      PeerCompiled(c, k, peer, a);
    }
  }

  lemma AllowsEdges(c: Snapshot, k: PolicyKey, a: WorkloadKey, b: WorkloadKey)
    requires k in c.policies && a in c.workloads && b in c.workloads
    ensures Allows(Compiled(c), PolicyNode(k), WorkloadNode(a), WorkloadNode(b))
       <==> || AllowsIngressFrom(PolicyNode(k), WorkloadNode(a)) in PolicyEdges(c, k)
            || (a.ns in c.namespaces && AllowsIngressFrom(PolicyNode(k), NamespaceNode(a.ns)) in PolicyEdges(c, k))
            || AllowsAllIngress(PolicyNode(k)) in PolicyEdges(c, k)
  {
    var f, np, x := Compiled(c), PolicyNode(k), WorkloadNode(a);
    WorkloadFacts(c, x);
    WorkloadFacts(c, WorkloadNode(b));
    InCompiled(c, AllowsIngressFrom(np, x));
    InCompiled(c, AllowsIngressFrom(np, NamespaceNode(a.ns)));
    InCompiled(c, AllowsAllIngress(np));
    NamespaceFacts(c, NamespaceNode(a.ns), a);
    if ns :| AllowedNamespace(f, np, ns, x) {
      NamespaceFacts(c, ns, a);
    }
    if a.ns in c.namespaces && AllowsIngressFrom(np, NamespaceNode(a.ns)) in PolicyEdges(c, k) {
      assert AllowedNamespace(f, np, NamespaceNode(a.ns), x);
    }
  }

  lemma AllowsIffPolicyAllows(c: Snapshot, k: PolicyKey, a: WorkloadKey, b: WorkloadKey)
    requires Selects(c, k, b) && a in c.workloads
    ensures Allows(Compiled(c), PolicyNode(k), WorkloadNode(a), WorkloadNode(b)) <==> PolicyAllows(c, k, a)
  {
    var np, x, y := PolicyNode(k), WorkloadNode(a), NamespaceNode(a.ns);
    AllowsEdges(c, k, a, b);
    IngressEdgeIff(c, k, AllowsIngressFrom(np, x));
    IngressEdgeIff(c, k, AllowsIngressFrom(np, y));
    IngressEdgeIff(c, k, AllowsAllIngress(np));
    forall rule | rule in c.policies[k].ingress
      ensures RuleAllows(c, k, rule, a)
         <==> || AllowsAllIngress(np) in RuleEdges(c, k, rule)
              || AllowsIngressFrom(np, x) in RuleEdges(c, k, rule)
              || (a.ns in c.namespaces && AllowsIngressFrom(np, y) in RuleEdges(c, k, rule))
    {
      RuleAllowsIff(c, k, rule, a);
      RuleEdgeIff(c, k, rule, x);
      RuleEdgeIff(c, k, rule, y);
    }
  }

  ghost predicate OwnNamespaceBlock(c: Snapshot, k: PolicyKey, a: WorkloadKey)
    requires k in c.policies
  {
    a.ns == k.ns && a.ns in c.namespaces
    && exists rule, peer :: rule in c.policies[k].ingress && HasPeer(rule, peer) && HasNoSelector(peer)
  }

  lemma PolicyAllowsIff(c: Snapshot, k: PolicyKey, a: WorkloadKey)
    requires k in c.policies && a in c.workloads
    ensures PolicyAllows(c, k, a) <==> PolicyAdmits(c, k, a) || OwnNamespaceBlock(c, k, a)
  {
    if PolicyAdmits(c, k, a) {
      var rule :| rule in c.policies[k].ingress && RuleAdmits(c, k, rule, a);
      if rule.Peers() != [] {
        var peer :| peer in rule.Peers() && PeerAdmits(c, k, peer, a);
        assert PeerAllows(c, k, peer, a);
      }
      assert RuleAllows(c, k, rule, a);
    }
    if OwnNamespaceBlock(c, k, a) {
      var rule, peer :| rule in c.policies[k].ingress && peer in rule.Peers() && HasNoSelector(peer);
      assert PeerAllows(c, k, peer, a);
      assert RuleAllows(c, k, rule, a);
    }
    if PolicyAllows(c, k, a) {
      var rule :| rule in c.policies[k].ingress && RuleAllows(c, k, rule, a);
      if rule.Peers() == [] {
        assert RuleAdmits(c, k, rule, a);
      } else {
        var peer :| peer in rule.Peers() && PeerAllows(c, k, peer, a);
        if PeerAdmits(c, k, peer, a) {
          assert RuleAdmits(c, k, rule, a);
        }
      }
    }
  }

  lemma DefaultAllow(c: Snapshot, b: WorkloadKey)
    ensures HasIngressPolicy(Compiled(c), WorkloadNode(b)) <==> exists k :: Selects(c, k, b)
  {
    if np :| Governs(Compiled(c), np, WorkloadNode(b)) {
      GovernsIffSelects(c, np, WorkloadNode(b));
      assert Selects(c, np.np, b);
    }
    if k :| Selects(c, k, b) {
      GovernsIffSelects(c, PolicyNode(k), WorkloadNode(b));
    }
  }

  lemma AllowedByPolicy(c: Snapshot, k: PolicyKey, a: WorkloadKey, b: WorkloadKey)
    requires Selects(c, k, b) && a in c.workloads
    ensures Allows(Compiled(c), PolicyNode(k), WorkloadNode(a), WorkloadNode(b))
       <==> PolicyAdmits(c, k, a) || OwnNamespaceBlock(c, k, a)
  {
    AllowsIffPolicyAllows(c, k, a, b);
    PolicyAllowsIff(c, k, a);
  }

  /** Compiling the policies to edges and running the ingress rules reaches exactly the pairs that direct
      evaluation allows, plus, for `ipBlock` peers only, those inside the policy's own namespace. */
  lemma ReachabilityExactly(c: Snapshot, a: WorkloadKey, b: WorkloadKey)
    ensures EffectiveReachability(Compiled(c), WorkloadNode(a), WorkloadNode(b))
       <==> MayReach(c, a, b) || AdmittedByBlock(c, a, b)
  {
    var f, x, y := Compiled(c), WorkloadNode(a), WorkloadNode(b);
    WorkloadFacts(c, x);
    WorkloadFacts(c, y);
    DefaultAllow(c, b);
    if np :| Governs(f, np, y) && Allows(f, np, x, y) {
      GovernsIffSelects(c, np, y);
      AllowedByPolicy(c, np.np, a, b);
    }
    if a in c.workloads {
      if k :| Selects(c, k, b) && (PolicyAdmits(c, k, a) || OwnNamespaceBlock(c, k, a)) {
        AllowedByPolicy(c, k, a, b);
        GovernsIffSelects(c, PolicyNode(k), y);
      }
    }
  }

  /** Only workloads are ever related. */
  lemma ReachabilityOnWorkloads(c: Snapshot, a: Node, b: Node)
    ensures EffectiveReachability(Compiled(c), a, b) ==>
            a.WorkloadNode? && b.WorkloadNode? && a.w in c.workloads && b.w in c.workloads
  {
    WorkloadFacts(c, a);
    WorkloadFacts(c, b);
    if np :| Governs(Compiled(c), np, b) && Allows(Compiled(c), np, a, b) {
      GovernsIffSelects(c, np, b);
    }
  }

  ghost predicate EveryPeerSelects(c: Snapshot) {
    forall k, rule, peer :: k in c.policies && rule in c.policies[k].ingress && HasPeer(rule, peer) ==>
        !HasNoSelector(peer)
  }

  /** When every peer has a selector the two evaluations agree on every pair. */
  lemma ReachabilityAgrees(c: Snapshot, a: WorkloadKey, b: WorkloadKey)
    requires EveryPeerSelects(c)
    ensures EffectiveReachability(Compiled(c), WorkloadNode(a), WorkloadNode(b)) <==> MayReach(c, a, b)
  {
    ReachabilityExactly(c, a, b);
  }

  /** An `ipBlock` peer is compiled to an edge from the policy's own namespace: when the only policy has
      a single such peer, every neighbour in the namespace is reported to reach the workloads it isolates. */
  lemma BlockPeerAdmitsNeighbour(c: Snapshot, k: PolicyKey, a: WorkloadKey, b: WorkloadKey)
    requires c.policies.Keys == {k} && c.policies[k] == Policy([], None, [IngressRule([Peer(None, None)], [])])
    requires a in c.workloads && b in c.workloads && a.ns == k.ns && b.ns == k.ns && k.ns in c.namespaces
    ensures EffectiveReachability(Compiled(c), WorkloadNode(a), WorkloadNode(b)) && !MayReach(c, a, b)
  {
    var peer := Peer(None, None);
    var rule := IngressRule([peer], []);
    assert rule.Peers() == [peer];
    assert c.policies[k].ingress == [rule] && c.policies[k].ingress[0] == rule && rule.Peers()[0] == peer;
    assert c.policies[k].Types() == ["Ingress"] && ["Ingress"][0] == "Ingress";
    assert Selects(c, k, b);
    assert rule in c.policies[k].ingress && peer in rule.Peers() && HasNoSelector(peer);
    assert OwnNamespaceBlock(c, k, a);
    ReachabilityExactly(c, a, b);
    assert !RuleAdmits(c, k, rule, a);
    assert !PolicyAdmits(c, k, a);
  }
}
