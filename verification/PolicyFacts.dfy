/** The edges that one network policy contributes to the fragment, in terms of the policy's own fields: also
    those that no ingress rule reads. */
module PolicyFacts {
  import opened Texts
  import opened NetworkPolicies

  /** A workload in namespace `ns` whose pod labels the selector, if there is one, matches. */
  ghost predicate Picked(c: Snapshot, ns: Text, sel: Option<Selector>, w: WorkloadKey) {
    w in c.workloads && w.ns == ns && (sel.Some? ==> SelectorHolds(sel.value, c.workloads[w]))
  }

  /** The peer covers the namespace: the policy's own, or one whose labels its selector matches. */
  ghost predicate Covers(c: Snapshot, k: PolicyKey, peer: Peer, ns: Text) {
    match peer.namespaceSelector
    case None => ns == k.ns
    case Some(sel) => ns in c.namespaces && SelectorHolds(sel, c.namespaces[ns])
  }

  /** What the peer lists: whole namespaces, or the workloads it picks in them. */
  ghost predicate Lists(c: Snapshot, k: PolicyKey, peer: Peer, source: Node) {
    match source
    case NamespaceNode(ns) => peer.podSelector.None? && Covers(c, k, peer, ns)
    case WorkloadNode(w) => peer.podSelector.Some? && Covers(c, k, peer, w.ns) && Picked(c, w.ns, peer.podSelector, w)
    case PolicyNode(_) => false
  }

  ghost predicate RuleLists(c: Snapshot, k: PolicyKey, rule: IngressRule, source: Node) {
    exists peer :: HasPeer(rule, peer) && Lists(c, k, peer, source)
  }

  ghost predicate States(c: Snapshot, k: PolicyKey, e: Edge)
    requires k in c.policies
  {
    var p := c.policies[k];
    match e
    case AppliesTo(_, target) => target.WorkloadNode? && Picked(c, k.ns, p.podSelector, target.w)
    case PolicyType(_, t) => t in p.policyTypes || (p.policyTypes == [] && t == "Ingress")
    case AllowsAllIngress(_) => ControlsIngress(p) && exists rule :: rule in p.ingress && AdmitsAll(rule)
    case AllowsIngressFrom(_, source) =>
      ControlsIngress(p) && exists rule :: rule in p.ingress && RuleLists(c, k, rule, source)
    case _ => false
  }

  lemma WorkloadsPicked(c: Snapshot, ns: Text, sel: Option<Selector>, w: WorkloadKey)
    ensures w in WorkloadsMatching(c, ns, sel) <==> Picked(c, ns, sel, w)
  {
    if w in c.workloads { MatchesAll(sel, c.workloads[w]); }
  }

  lemma NamespacesCovered(c: Snapshot, k: PolicyKey, peer: Peer, ns: Text)
    ensures ns in PeerNamespaces(c, k, peer) <==> Covers(c, k, peer, ns)
  {
    if ns in c.namespaces { MatchesAll(peer.namespaceSelector, c.namespaces[ns]); }
  }

  lemma PeerLists(c: Snapshot, k: PolicyKey, peer: Peer, source: Node)
    ensures AllowsIngressFrom(PolicyNode(k), source) in PeerEdges(c, k, peer) <==> Lists(c, k, peer, source)
  {
    var e := AllowsIngressFrom(PolicyNode(k), source);
    match source
    case NamespaceNode(ns) =>
      PeerEdgeNamespace(c, k, peer, ns);
      NamespacesCovered(c, k, peer, ns);
    case WorkloadNode(w) =>
      NamespacesCovered(c, k, peer, w.ns);
      WorkloadsPicked(c, w.ns, peer.podSelector, w);
      if e in PeerEdges(c, k, peer) {
        var n :| n in PeerNamespaces(c, k, peer) && e in NamespacePeerEdges(c, k, n, peer.podSelector);
        assert w in WorkloadsMatching(c, n, peer.podSelector);
      }
      if Lists(c, k, peer, source) {
        assert e in NamespacePeerEdges(c, k, w.ns, peer.podSelector);
      }
    case PolicyNode(_) =>
  }

  lemma RuleListed(c: Snapshot, k: PolicyKey, rule: IngressRule, source: Node)
    ensures AllowsIngressFrom(PolicyNode(k), source) in RuleEdges(c, k, rule) <==> RuleLists(c, k, rule, source)
    ensures AllowsAllIngress(PolicyNode(k)) in RuleEdges(c, k, rule) <==> AdmitsAll(rule)
  {
    var e := AllowsIngressFrom(PolicyNode(k), source);
    PeersExactly(rule);
    if peer :| HasPeer(rule, peer) && Lists(c, k, peer, source) {
      PeerLists(c, k, peer, source);
      assert peer in rule.Peers() && e in PeerEdges(c, k, peer);
    }
    if rule.Peers() != [] {
      if e in RuleEdges(c, k, rule) {
        var peer :| peer in rule.Peers() && e in PeerEdges(c, k, peer);
        PeerLists(c, k, peer, source);
      }
    }
  }

  lemma IngressListed(c: Snapshot, k: PolicyKey, rules: seq<IngressRule>, source: Node)
    ensures AllowsIngressFrom(PolicyNode(k), source) in IngressEdges(c, k, rules)
       <==> exists rule :: rule in rules && RuleLists(c, k, rule, source)
    ensures AllowsAllIngress(PolicyNode(k)) in IngressEdges(c, k, rules)
       <==> exists rule :: rule in rules && AdmitsAll(rule)
  {
    forall rule
      ensures AllowsIngressFrom(PolicyNode(k), source) in RuleEdges(c, k, rule) <==> RuleLists(c, k, rule, source)
      ensures AllowsAllIngress(PolicyNode(k)) in RuleEdges(c, k, rule) <==> AdmitsAll(rule)
    {
      RuleListed(c, k, rule, source);
    }
  }

  /** A policy contributes exactly the edges its fields state, all of them about itself. */
  lemma PolicyEdgesExactly(c: Snapshot, k: PolicyKey, e: Edge)
    requires k in c.policies
    ensures e in PolicyEdges(c, k) <==> IsPolicyEdge(e) && e.np == PolicyNode(k) && States(c, k, e)
  {
    var p := c.policies[k];
    if e in PolicyEdges(c, k) {
      PolicyEdgeShape(c, k, e);
    }
    if IsPolicyEdge(e) && e.np == PolicyNode(k) {
      TypesIngress(p);
      if e in IngressEdges(c, k, p.ingress) {
        IngressEdgeShape(c, k, p.ingress, e);
      }
      match e
      case AppliesTo(_, target) =>
        AppliesEdgeIff(c, k, target);
        if target.WorkloadNode? { WorkloadsPicked(c, k.ns, p.podSelector, target.w); }
      case PolicyType(_, t) =>
        assert t in ["Ingress"] <==> t == "Ingress";
      case AllowsAllIngress(_) => IngressListed(c, k, p.ingress, PolicyNode(k));
      case AllowsIngressFrom(_, source) => IngressListed(c, k, p.ingress, source);
    }
  }

  ghost predicate ObjectStates(c: Snapshot, e: Edge) {
    match e
    case IsWorkload(x) => x.WorkloadNode? && x.w in c.workloads
    case IsNamespace(x) => x.NamespaceNode? && x.ns in c.namespaces
    case InNamespace(x, n) =>
      || (x.WorkloadNode? && x.w in c.workloads && n == NamespaceNode(x.w.ns))
      || (x.PolicyNode? && x.np in c.policies && n == NamespaceNode(x.np.ns))
    case InCluster(x) =>
      || (x.WorkloadNode? && x.w in c.workloads)
      || (x.NamespaceNode? && x.ns in c.namespaces)
      || (x.PolicyNode? && x.np in c.policies)
    case _ => false
  }

  /** Everything the compiled fragment says of workloads, namespaces and policies. */
  lemma CompiledExactly(c: Snapshot, e: Edge)
    ensures e in Compiled(c)
       <==> if IsPolicyEdge(e) then e.np.PolicyNode? && e.np.np in c.policies && States(c, e.np.np, e)
            else ObjectStates(c, e)
  {
    InCompiled(c, e);
    if IsPolicyEdge(e) {
      if e.np.PolicyNode? && e.np.np in c.policies { PolicyEdgesExactly(c, e.np.np, e); }
    } else {
      ObjectEdgeShape(c, e);
    }
  }
}
