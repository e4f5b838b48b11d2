/** The ingress rules of the k8s pack over IRIs, as the store holds them: because node IRIs are distinct,
    the rules relate two IRIs exactly when they relate the objects behind them. */
module ReachabilityIris {
  import opened Texts
  import opened NetworkPolicies

  function MapEdge<M, N>(f: M -> N, e: EdgeOf<M>): EdgeOf<N> {
    match e
    case AppliesTo(np, target) => AppliesTo(f(np), f(target))
    case AllowsIngressFrom(np, source) => AllowsIngressFrom(f(np), f(source))
    case AllowsAllIngress(np) => AllowsAllIngress(f(np))
    case PolicyType(np, t) => PolicyType(f(np), t)
    case IsWorkload(x) => IsWorkload(f(x))
    case IsNamespace(x) => IsNamespace(f(x))
    case InNamespace(x, n) => InNamespace(f(x), f(n))
    case InCluster(x) => InCluster(f(x))
  }

  ghost function ImageOf<M, N>(f: M -> N, s: set<EdgeOf<M>>): set<EdgeOf<N>> {
    set e | e in s :: MapEdge(f, e)
  }

  ghost predicate NodesIn<M(!new)>(e: EdgeOf<M>, dom: iset<M>) {
    match e
    case AppliesTo(np, target) => np in dom && target in dom
    case AllowsIngressFrom(np, source) => np in dom && source in dom
    case AllowsAllIngress(np) => np in dom
    case PolicyType(np, _) => np in dom
    case IsWorkload(x) => x in dom
    case IsNamespace(x) => x in dom
    case InNamespace(x, n) => x in dom && n in dom
    case InCluster(x) => x in dom
  }

  /** `f` keeps the nodes of `dom` apart, and the edges are about those nodes. */
  ghost predicate Faithful<M(!new), N>(f: M -> N, dom: iset<M>, s: set<EdgeOf<M>>) {
    && (forall x, y :: x in dom && y in dom && f(x) == f(y) ==> x == y)
    && (forall e :: e in s ==> NodesIn(e, dom))
  }

  lemma EdgeMapped<M(!new), N>(f: M -> N, dom: iset<M>, s: set<EdgeOf<M>>, e: EdgeOf<M>)
    requires Faithful(f, dom, s) && NodesIn(e, dom)
    ensures MapEdge(f, e) in ImageOf(f, s) <==> e in s
  {
    if MapEdge(f, e) in ImageOf(f, s) {
      var d :| d in s && MapEdge(f, d) == MapEdge(f, e);
      assert NodesIn(d, dom);
    }
  }

  lemma GovernsMapped<M(!new), N(!new)>(f: M -> N, dom: iset<M>, s: set<EdgeOf<M>>, np: M, w: M)
    requires Faithful(f, dom, s) && np in dom && w in dom
    ensures Governs(ImageOf(f, s), f(np), f(w)) <==> Governs(s, np, w)
  {
    EdgeMapped(f, dom, s, AppliesTo(np, w));
    EdgeMapped(f, dom, s, PolicyType(np, "Ingress"));
  }

  /** A governing policy over IRIs is the image of one over nodes. */
  lemma GovernorMapped<M(!new), N(!new)>(f: M -> N, dom: iset<M>, s: set<EdgeOf<M>>, q: N, w: M) returns (np: M)
    requires Faithful(f, dom, s) && w in dom && Governs(ImageOf(f, s), q, f(w))
    ensures np in dom && q == f(np) && Governs(s, np, w)
  {
    var e :| e in s && MapEdge(f, e) == AppliesTo(q, f(w));
    assert NodesIn(e, dom);
    np := e.np;
    GovernsMapped(f, dom, s, np, w);
  }

  lemma HasPolicyMapped<M(!new), N(!new)>(f: M -> N, dom: iset<M>, s: set<EdgeOf<M>>, w: M)
    requires Faithful(f, dom, s) && w in dom
    ensures HasIngressPolicy(ImageOf(f, s), f(w)) <==> HasIngressPolicy(s, w)
  {
    if q :| Governs(ImageOf(f, s), q, f(w)) {
      var np := GovernorMapped(f, dom, s, q, w);
    }
    if np :| Governs(s, np, w) {
      assert NodesIn(AppliesTo(np, w), dom);
      GovernsMapped(f, dom, s, np, w);
    }
  }

  lemma WorkloadMapped<M(!new), N(!new)>(f: M -> N, dom: iset<M>, s: set<EdgeOf<M>>, w: M)
    requires Faithful(f, dom, s) && w in dom
    ensures IsWorkload(f(w)) in ImageOf(f, s) <==> IsWorkload(w) in s
    ensures WCluster(ImageOf(f, s), f(w)) <==> WCluster(s, w)
  {
    EdgeMapped(f, dom, s, IsWorkload(w));
    EdgeMapped(f, dom, s, InCluster(w));
  }

  lemma NamespaceMapped<M(!new), N(!new)>(f: M -> N, dom: iset<M>, s: set<EdgeOf<M>>, np: M, ns: M, a: M)
    requires Faithful(f, dom, s) && np in dom && ns in dom && a in dom
    ensures AllowedNamespace(ImageOf(f, s), f(np), f(ns), f(a)) <==> AllowedNamespace(s, np, ns, a)
  {
    EdgeMapped(f, dom, s, AllowsIngressFrom(np, ns));
    EdgeMapped(f, dom, s, IsNamespace(ns));
    EdgeMapped(f, dom, s, InNamespace(a, ns));
    EdgeMapped(f, dom, s, IsWorkload(a));
  }

  lemma AllowsMapped<M(!new), N(!new)>(f: M -> N, dom: iset<M>, s: set<EdgeOf<M>>, np: M, a: M, b: M)
    requires Faithful(f, dom, s) && np in dom && a in dom && b in dom
    ensures Allows(ImageOf(f, s), f(np), f(a), f(b)) <==> Allows(s, np, a, b)
  {
    EdgeMapped(f, dom, s, AllowsIngressFrom(np, a));
    EdgeMapped(f, dom, s, AllowsAllIngress(np));
    WorkloadMapped(f, dom, s, a);
    WorkloadMapped(f, dom, s, b);
    if m :| AllowedNamespace(ImageOf(f, s), f(np), m, f(a)) {
      var e :| e in s && MapEdge(f, e) == IsNamespace(m);
      assert NodesIn(e, dom);
      NamespaceMapped(f, dom, s, np, e.x, a);
    }
    if ns :| AllowedNamespace(s, np, ns, a) {
      assert NodesIn(IsNamespace(ns), dom);
      NamespaceMapped(f, dom, s, np, ns, a);
    }
  }

  /** The rules commute with a renaming of the nodes that keeps them apart. */
  lemma RulesMapped<M(!new), N(!new)>(f: M -> N, dom: iset<M>, s: set<EdgeOf<M>>, a: M, b: M)
    requires Faithful(f, dom, s) && a in dom && b in dom
    ensures EffectiveReachability(ImageOf(f, s), f(a), f(b)) <==> EffectiveReachability(s, a, b)
  {
    WorkloadMapped(f, dom, s, a);
    WorkloadMapped(f, dom, s, b);
    HasPolicyMapped(f, dom, s, b);
    if q :| Governs(ImageOf(f, s), q, f(b)) && Allows(ImageOf(f, s), q, f(a), f(b)) {
      var np := GovernorMapped(f, dom, s, q, b);
      AllowsMapped(f, dom, s, np, a, b);
    }
    if np :| Governs(s, np, b) && Allows(s, np, a, b) {
      assert NodesIn(AppliesTo(np, b), dom);
      GovernsMapped(f, dom, s, np, b);
      AllowsMapped(f, dom, s, np, a, b);
    }
  }

  // ----- the compiled edges -------------------------------------------------------------------

  ghost function ValidNodes(): iset<Node> {
    iset n | ValidNode(n)
  }

  function IriOf(cluster: Text): Node -> Text {
    (n: Node) => NodeIri(cluster, n)
  }

  /** Names are byte strings and kinds are plain. */
  ghost predicate ValidSnapshot(c: Snapshot) {
    && (forall w :: w in c.workloads ==> ValidNode(WorkloadNode(w)) && IsBytes(w.ns))
    && (forall n :: n in c.namespaces ==> IsBytes(n))
    && (forall k :: k in c.policies ==> IsBytes(k.ns) && IsBytes(k.name))
  }

  lemma PeerEdgeValid(c: Snapshot, k: PolicyKey, peer: Peer, e: Edge)
    requires ValidSnapshot(c) && k in c.policies && e in PeerEdges(c, k, peer)
    ensures NodesIn(e, ValidNodes())
  {
    var n :| n in PeerNamespaces(c, k, peer) && e in NamespacePeerEdges(c, k, n, peer.podSelector);
    assert IsBytes(n);
    if peer.podSelector.Some? {
      var w :| w in WorkloadsMatching(c, n, peer.podSelector) && e == AllowsIngressFrom(PolicyNode(k), WorkloadNode(w));
      assert w in c.workloads;
    }
  }

  lemma PolicyEdgeValid(c: Snapshot, k: PolicyKey, e: Edge)
    requires ValidSnapshot(c) && k in c.policies && e in PolicyEdges(c, k)
    ensures NodesIn(e, ValidNodes())
  {
    var p := c.policies[k];
    if e in AppliesEdges(c, k, p.podSelector) {
      var w :| w in WorkloadsMatching(c, k.ns, p.podSelector) && e == AppliesTo(PolicyNode(k), WorkloadNode(w));
      assert w in c.workloads;
    } else if e !in TypeEdges(k, p.Types()) {
      var rule :| rule in p.ingress && e in RuleEdges(c, k, rule);
      if rule.Peers() != [] {
        var peer :| peer in rule.Peers() && e in PeerEdges(c, k, peer);
        PeerEdgeValid(c, k, peer, e);
      }
    }
  }

  lemma CompiledFaithful(cluster: Text, c: Snapshot)
    requires ValidSnapshot(c)
    ensures Faithful(IriOf(cluster), ValidNodes(), Compiled(c))
  {
    forall e | e in Compiled(c)
      ensures NodesIn(e, ValidNodes())
    {
      if e in AllPolicyEdges(c) {
        var k :| k in c.policies && e in PolicyEdges(c, k);
        PolicyEdgeValid(c, k, e);
      }
    }
    forall x, y | x in ValidNodes() && y in ValidNodes() && IriOf(cluster)(x) == IriOf(cluster)(y)
      ensures x == y
    {
      NodeIriInjective(cluster, x, y);
    }
  }

  /** Over the triples of the fragment, the rules relate two workload IRIs exactly when direct evaluation
      relates the workloads, up to the peers without selectors. */
  lemma IriReachabilityExactly(cluster: Text, c: Snapshot, a: WorkloadKey, b: WorkloadKey)
    requires ValidSnapshot(c) && ValidNode(WorkloadNode(a)) && ValidNode(WorkloadNode(b))
    ensures EffectiveReachability(ImageOf(IriOf(cluster), Compiled(c)), NodeIri(cluster, WorkloadNode(a)),
            NodeIri(cluster, WorkloadNode(b)))
       <==> MayReach(c, a, b) || AdmittedByBlock(c, a, b)
  {
    CompiledFaithful(cluster, c);
    RulesMapped(IriOf(cluster), ValidNodes(), Compiled(c), WorkloadNode(a), WorkloadNode(b));
    ReachabilityExactly(c, a, b);
  }
}
