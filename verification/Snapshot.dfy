/** The snapshot fragment of a cluster (k8s/snapshot.rs): its lines as a function of the objects, the pods
    and the kinds that could not be listed, and the hash that names it.

    What the fragment says about one object apart from its placement is the parameter `describe`: it
    may depend on all indexed objects and on the digests pulled for the object's containers. */
module Snapshot {
  import opened Texts
  import opened Sorting
  import opened Placement
  import Iri
  import NTriples
  import NQuads

  datatype Line =
    | Partial
    | FailedKind(kind: Text)
    | Contains(k: Key)
    | ScheduledOn(k: Key, node: Text)
    | ReplicasOnNode(k: Key, node: Text, count: nat)
    | Described(t: NQuads.Triple)

  type Describe = (ObjectIndex, Key, map<Text, set<Text>>) -> set<NQuads.Triple>

  ghost function FailedLines(failed: set<Text>): set<Line> {
    if failed == {} then {} else {Partial} + set fk | fk in failed :: FailedKind(fk)
  }

  ghost function NodeLines(k: Key, nodes: map<Text, nat>, n: Text): set<Line>
    requires n in nodes
  {
    {ScheduledOn(k, n), ReplicasOnNode(k, n, nodes[n])}
  }

  ghost function PlacementLines(k: Key, nodes: map<Text, nat>, some: set<Text>): set<Line> {
    set n, l | n in some && n in nodes && l in NodeLines(k, nodes, n) :: l
  }

  ghost function ObjectLines(index: ObjectIndex, pl: Counts, pu: Digests, describe: Describe, k: Key): set<Line> {
    {Contains(k)}
    + (set t | t in describe(index, k, Inner(pu, k)) :: Described(t))
    + if WorkloadKind(k.kind) then PlacementLines(k, Inner(pl, k), Inner(pl, k).Keys) else {}
  }

  predicate Shown(index: ObjectIndex, k: Key) {
    k in index && k.kind != "ReplicaSet"
  }

  ghost function IndexLines(index: ObjectIndex, pl: Counts, pu: Digests, describe: Describe,
                            keys: set<Key>): set<Line>
  {
    set k, l | k in keys && Shown(index, k) && l in ObjectLines(index, pl, pu, describe, k) :: l
  }

  ghost function SnapshotLines(objects: seq<Object>, pods: seq<Pod>, failed: seq<Text>, describe: Describe): set<Line> {
    var index := IndexOfObjects(objects);
    FailedLines(Elements(failed))
    + IndexLines(index, PlacementOf(index, pods), PulledOf(index, pods), describe, index.Keys)
  }

  // ----- build_snapshot -------------------------------------------------------------------

  method AddPlacement(k: Key, nodes: map<Text, nat>) returns (lines: set<Line>)
    ensures lines == PlacementLines(k, nodes, nodes.Keys)
  {
    lines := {};
    var todo := nodes.Keys;
    while todo != {}
      invariant todo <= nodes.Keys
      invariant lines == PlacementLines(k, nodes, nodes.Keys - todo)
      decreases |todo|
    {
      var n :| n in todo;
      PlacementStep(k, nodes, todo, n);
      lines := lines + {ScheduledOn(k, n), ReplicasOnNode(k, n, nodes[n])};
      todo := todo - {n};
    }
    assert nodes.Keys - {} == nodes.Keys;
  }

  lemma PlacementStep(k: Key, nodes: map<Text, nat>, todo: set<Text>, n: Text)
    requires todo <= nodes.Keys && n in todo
    ensures PlacementLines(k, nodes, nodes.Keys - (todo - {n}))
         == PlacementLines(k, nodes, nodes.Keys - todo) + NodeLines(k, nodes, n)
  {
    assert nodes.Keys - (todo - {n}) == (nodes.Keys - todo) + {n};
  }

  method AddObject(index: ObjectIndex, pl: Counts, pu: Digests, describe: Describe, k: Key) returns (lines: set<Line>)
    ensures lines == ObjectLines(index, pl, pu, describe, k)
  {
    lines := {Contains(k)} + set t | t in describe(index, k, Inner(pu, k)) :: Described(t);
    if WorkloadKind(k.kind) {
      var more := AddPlacement(k, Inner(pl, k));
      lines := lines + more;
    }
  }

  method AddFailed(failed: seq<Text>) returns (lines: set<Line>)
    ensures lines == FailedLines(Elements(failed))
  {
    lines := {};
    if failed != [] {
      lines := {Partial};
      for i := 0 to |failed|
        invariant lines == {Partial} + set fk | fk in failed[..i] :: FailedKind(fk)
      {
        assert failed[..i + 1] == failed[..i] + [failed[i]];
        lines := lines + {FailedKind(failed[i])};
      }
      assert failed[..|failed|] == failed;
      assert failed[0] in Elements(failed);
    }
  }

  /** Objects are visited in some order; `count` is the number of objects shown. */
  method AddObjects(index: ObjectIndex, pl: Counts, pu: Digests, describe: Describe)
    returns (lines: set<Line>, count: nat)
    ensures lines == IndexLines(index, pl, pu, describe, index.Keys)
    ensures count == |ShownKeys(index, index.Keys)|
  {
    lines, count := {}, 0;
    var todo := index.Keys;
    while todo != {}
      invariant todo <= index.Keys
      invariant lines == IndexLines(index, pl, pu, describe, index.Keys - todo)
      invariant count == |ShownKeys(index, index.Keys - todo)|
      decreases |todo|
    {
      var k :| k in todo;
      IndexStep(index, pl, pu, describe, todo, k);
      ShownStep(index, todo, k);
      todo := todo - {k};
      if k.kind == "ReplicaSet" {
        continue;
      }
      count := count + 1;
      var more := AddObject(index, pl, pu, describe, k);
      lines := lines + more;
    }
    assert index.Keys - {} == index.Keys;
  }

  function ShownKeys(index: ObjectIndex, keys: set<Key>): set<Key> {
    set k | k in keys && Shown(index, k)
  }

  lemma ShownStep(index: ObjectIndex, todo: set<Key>, k: Key)
    requires todo <= index.Keys && k in todo
    ensures |ShownKeys(index, index.Keys - (todo - {k}))|
         == |ShownKeys(index, index.Keys - todo)| + if Shown(index, k) then 1 else 0
  {
    var before, after := ShownKeys(index, index.Keys - todo), ShownKeys(index, index.Keys - (todo - {k}));
    assert after == if Shown(index, k) then before + {k} else before;
  }

  method BuildSnapshot(objects: seq<Object>, pods: seq<Pod>, failed: seq<Text>, describe: Describe)
    returns (lines: set<Line>, count: nat)
    ensures lines == SnapshotLines(objects, pods, failed, describe)
    ensures count == |ShownKeys(IndexOfObjects(objects), IndexOfObjects(objects).Keys)|
  {
    var index := BuildIndex(objects);
    var placement, pulled := ReadPods(index, pods);
    var head := AddFailed(failed);
    lines, count := AddObjects(index, placement, pulled, describe);
    lines := head + lines;
  }

  lemma IndexStep(index: ObjectIndex, pl: Counts, pu: Digests, describe: Describe, todo: set<Key>, k: Key)
    requires todo <= index.Keys && k in todo
    ensures IndexLines(index, pl, pu, describe, index.Keys - (todo - {k}))
         == IndexLines(index, pl, pu, describe, index.Keys - todo)
            + if Shown(index, k) then ObjectLines(index, pl, pu, describe, k) else {}
  {
    assert index.Keys - (todo - {k}) == (index.Keys - todo) + {k};
  }

  // ----- what the fragment says -------------------------------------------------------------

  /** A line about the placement of `k` on `n`. */
  predicate About(l: Line, k: Key, n: Text) {
    (l.ScheduledOn? && l.k == k && l.node == n) || (l.ReplicasOnNode? && l.k == k && l.node == n)
  }

  lemma PlacementLineIff(k: Key, nodes: map<Text, nat>, l: Line, n: Text)
    requires About(l, k, n)
    ensures l in PlacementLines(k, nodes, nodes.Keys) <==> n in nodes && (l.ReplicasOnNode? ==> nodes[n] == l.count)
  {
    if n in nodes { assert l in NodeLines(k, nodes, n) <==> (l.ReplicasOnNode? ==> nodes[n] == l.count); }
  }

  lemma ObjectLineIff(index: ObjectIndex, pl: Counts, pu: Digests, describe: Describe, j: Key, k: Key, l: Line, n: Text)
    requires About(l, k, n)
    ensures l in ObjectLines(index, pl, pu, describe, j)
       <==> j == k && WorkloadKind(k.kind) && n in Inner(pl, k) && (l.ReplicasOnNode? ==> Inner(pl, k)[n] == l.count)
  {
    if l in PlacementLines(j, Inner(pl, j), Inner(pl, j).Keys) {
      var m :| m in Inner(pl, j) && l in NodeLines(j, Inner(pl, j), m);
      assert j == k;
    }
    PlacementLineIff(k, Inner(pl, k), l, n);
  }

  lemma SnapshotLineIff(objects: seq<Object>, pods: seq<Pod>, failed: seq<Text>, describe: Describe, k: Key,
                        l: Line, n: Text)
    requires About(l, k, n)
    ensures var index := IndexOfObjects(objects);
            var nodes := Inner(PlacementOf(index, pods), k);
            l in SnapshotLines(objects, pods, failed, describe)
            <==> Shown(index, k) && WorkloadKind(k.kind) && n in nodes && (l.ReplicasOnNode? ==> nodes[n] == l.count)
  {
    var index := IndexOfObjects(objects);
    var pl, pu := PlacementOf(index, pods), PulledOf(index, pods);
    if l in IndexLines(index, pl, pu, describe, index.Keys) {
      var j :| Shown(index, j) && l in ObjectLines(index, pl, pu, describe, j);
      ObjectLineIff(index, pl, pu, describe, j, k, l, n);
    }
    ObjectLineIff(index, pl, pu, describe, k, k, l, n);
  }

  /** A workload is scheduled on a node, with a count, exactly when that many of its pods run there and
      there is at least one. */
  lemma ScheduledExactly(objects: seq<Object>, pods: seq<Pod>, failed: seq<Text>, describe: Describe, k: Key,
                         n: Text, c: nat)
    ensures var index := IndexOfObjects(objects);
            var lines := SnapshotLines(objects, pods, failed, describe);
            && (ScheduledOn(k, n) in lines <==>
                Shown(index, k) && WorkloadKind(k.kind) && Places(index, pods)[Some((k, n))] > 0)
            && (ReplicasOnNode(k, n, c) in lines
                <==> Shown(index, k) && WorkloadKind(k.kind) && c > 0 && Places(index, pods)[Some((k, n))] == c)
  {
    SnapshotLineIff(objects, pods, failed, describe, k, ScheduledOn(k, n), n);
    SnapshotLineIff(objects, pods, failed, describe, k, ReplicasOnNode(k, n, c), n);
    NodeIffCounted(IndexOfObjects(objects), pods, k, n);
    CountsExactly(IndexOfObjects(objects), pods, k, n);
  }

  /** With distinct objects, neither the order of objects, nor of pods, nor of failed kinds matters. */
  lemma SnapshotOrderFree(objects: seq<Object>, objects': seq<Object>, pods: seq<Pod>, pods': seq<Pod>,
                          failed: seq<Text>, failed': seq<Text>, describe: Describe)
    requires multiset(objects) == multiset(objects') && DistinctObjects(objects) && DistinctObjects(objects')
    requires multiset(pods) == multiset(pods') && multiset(failed) == multiset(failed')
    ensures SnapshotLines(objects, pods, failed, describe) == SnapshotLines(objects', pods', failed', describe)
  {
    IndexOrderFree(objects, objects');
    PlacementOrderFree(IndexOfObjects(objects), pods, pods');
    PulledOrderFree(IndexOfObjects(objects), pods, pods');
    forall t
      ensures t in Elements(failed) <==> t in Elements(failed')
    {
      assert t in multiset(failed) <==> t in multiset(failed');
    }
    assert Elements(failed) == Elements(failed');
  }

  // ----- the triples and the hash --------------------------------------------------------------

  const XSD_BOOLEAN: Text := "http://www.w3.org/2001/XMLSchema#boolean"
  const PLACEHOLDER: Text := "PENDINGHASH"

  /** The graph IRI under which the fragment is hashed. */
  function PlaceholderGraph(cluster: Text): Text {
    Iri.Id("k8s/" + Iri.Encode(cluster) + "/snapshot/" + PLACEHOLDER)
  }

  function ObjectIri(cluster: Text, k: Key): Text {
    if k.kind == "Node" then Iri.ClusterObject(cluster, "node", k.name)
    else if k.kind == "Namespace" then Iri.ClusterObject(cluster, "ns", k.name)
    else if k.ns == [] then Iri.ClusterObject(cluster, k.kind, k.name)
    else Iri.NamespacedObject(cluster, k.kind, k.ns, k.name)
  }

  function Decimal(n: nat): Text {
    if n < 10 then [('0' as int + n) as char] else Decimal(n / 10) + [('0' as int + n % 10) as char]
  }

  function TripleOf(cluster: Text, l: Line): NQuads.Triple {
    var snap := NTriples.NamedNode(PlaceholderGraph(cluster));
    match l
    case Partial => NQuads.Triple(snap, Iri.K8S_NS + "partial", NTriples.Typed("true", XSD_BOOLEAN))
    case FailedKind(kind) => NQuads.Triple(snap, Iri.K8S_NS + "failedKind", NTriples.Simple(kind))
    case Contains(k) => NQuads.Triple(snap, Iri.K8S_NS + "contains", NTriples.NamedNode(ObjectIri(cluster, k)))
    case ScheduledOn(k, node) =>
      NQuads.Triple(NTriples.NamedNode(ObjectIri(cluster, k)), Iri.K8S_NS + "scheduledOn",
                    NTriples.NamedNode(Iri.ClusterObject(cluster, "node", node)))
    case ReplicasOnNode(k, node, count) =>
      NQuads.Triple(NTriples.NamedNode(ObjectIri(cluster, k)), Iri.K8S_NS + "replicasOnNode",
                    NTriples.Simple(node + ":" + Decimal(count)))
    case Described(t) => t
  }

  ghost function TriplesOf(cluster: Text, lines: set<Line>): set<NQuads.Triple> {
    set l | l in lines :: TripleOf(cluster, l)
  }

  /** The text that is hashed: the fragment under its placeholder graph. */
  ghost function SnapshotText(cluster: Text, lines: set<Line>): Text {
    NQuads.NquadsText(NQuads.LinesOf(TriplesOf(cluster, lines)), PlaceholderGraph(cluster))
  }

  // ----- valid triples ------------------------------------------------------------------------------

  lemma EncodedValid(s: Text)
    ensures NQuads.ValidIri(Iri.Encode(s))
  {
    Iri.EncodedShape(s);
  }

  lemma SlashValid(a: Text, b: Text)
    requires NQuads.ValidIri(a) && NQuads.ValidIri(b)
    ensures NQuads.ValidIri(Iri.Slash(a, b))
  {
    NQuads.AppendValid(['/'], b);
    NQuads.AppendValid(a, ['/'] + b);
  }

  lemma ClusterPrefixValid(cluster: Text)
    ensures NQuads.ValidIri(Iri.Id("k8s/" + Iri.Encode(cluster) + "/"))
  {
    EncodedValid(cluster);
    NQuads.AppendValid("k8s/", Iri.Encode(cluster));
    NQuads.AppendValid("k8s/" + Iri.Encode(cluster), "/");
    NQuads.AppendValid(Iri.ID_BASE, "k8s/" + Iri.Encode(cluster) + "/");
  }

  lemma ClusterObjectValid(cluster: Text, kind: Text, name: Text)
    requires NQuads.ValidIri(kind)
    ensures NQuads.ValidIri(Iri.ClusterObject(cluster, kind, name))
  {
    ClusterPrefixValid(cluster);
    EncodedValid(name);
    SlashValid(kind, Iri.Encode(name));
    NQuads.AppendValid(Iri.Id("k8s/" + Iri.Encode(cluster) + "/"), Iri.Slash(kind, Iri.Encode(name)));
  }

  lemma NamespacedObjectValid(cluster: Text, kind: Text, ns: Text, name: Text)
    requires NQuads.ValidIri(kind)
    ensures NQuads.ValidIri(Iri.NamespacedObject(cluster, kind, ns, name))
  {
    ClusterPrefixValid(cluster);
    EncodedValid(ns);
    EncodedValid(name);
    SlashValid(Iri.Encode(ns), Iri.Encode(name));
    SlashValid(kind, Iri.Slash(Iri.Encode(ns), Iri.Encode(name)));
    NQuads.AppendValid(Iri.Id("k8s/" + Iri.Encode(cluster) + "/"),
        Iri.Slash(kind, Iri.Slash(Iri.Encode(ns), Iri.Encode(name))));
  }

  lemma ObjectIriValid(cluster: Text, k: Key)
    requires NQuads.ValidIri(k.kind)
    ensures NQuads.ValidIri(ObjectIri(cluster, k))
  {
    ClusterObjectValid(cluster, "node", k.name);
    ClusterObjectValid(cluster, "ns", k.name);
    ClusterObjectValid(cluster, k.kind, k.name);
    NamespacedObjectValid(cluster, k.kind, k.ns, k.name);
  }

  lemma PlaceholderGraphValid(cluster: Text)
    ensures NQuads.ValidIri(PlaceholderGraph(cluster))
  {
    ClusterPrefixValid(cluster);
    var prefix := Iri.Id("k8s/" + Iri.Encode(cluster) + "/");
    NQuads.AppendValid(prefix, "snapshot/" + PLACEHOLDER);
    assert PlaceholderGraph(cluster) == prefix + ("snapshot/" + PLACEHOLDER);
  }

  lemma PredicateValid(term: Text)
    requires NQuads.ValidIri(term)
    ensures NQuads.ValidIri(Iri.K8S_NS + term)
  {
    NQuads.AppendValid(Iri.K8S_NS, term);
  }

  /** What a line needs for its triple to be valid RDF: a kind that is valid in an IRI. */
  predicate ValidLine(l: Line) {
    match l
    case Contains(k) => NQuads.ValidIri(k.kind)
    case ScheduledOn(k, _) => NQuads.ValidIri(k.kind)
    case ReplicasOnNode(k, _, _) => NQuads.ValidIri(k.kind)
    case Described(t) => NQuads.ValidTriple(t)
    case _ => true
  }

  lemma LineValid(cluster: Text, l: Line)
    requires ValidLine(l)
    ensures NQuads.ValidTriple(TripleOf(cluster, l))
  {
    match l
    case Partial => PartialValid(cluster);
    case FailedKind(kind) => FailedValid(cluster, kind);
    case Contains(k) => ContainsValid(cluster, k);
    case ScheduledOn(k, node) => ScheduledValid(cluster, k, node);
    case ReplicasOnNode(k, node, count) => ReplicasValid(cluster, k, node, count);
    case Described(t) =>
  }

  lemma BooleanValid()
    ensures NQuads.ValidIri(XSD_BOOLEAN)
  {
  }

  lemma PartialValid(cluster: Text)
    ensures NQuads.ValidTriple(TripleOf(cluster, Partial))
  {
    PlaceholderGraphValid(cluster);
    PredicateValid("partial");
    BooleanValid();
  }

  lemma FailedValid(cluster: Text, kind: Text)
    ensures NQuads.ValidTriple(TripleOf(cluster, FailedKind(kind)))
  {
    PlaceholderGraphValid(cluster);
    PredicateValid("failedKind");
  }

  lemma ContainsValid(cluster: Text, k: Key)
    requires NQuads.ValidIri(k.kind)
    ensures NQuads.ValidTriple(TripleOf(cluster, Contains(k)))
  {
    PlaceholderGraphValid(cluster);
    PredicateValid("contains");
    ObjectIriValid(cluster, k);
  }

  lemma ReplicasValid(cluster: Text, k: Key, node: Text, count: nat)
    requires NQuads.ValidIri(k.kind)
    ensures NQuads.ValidTriple(TripleOf(cluster, ReplicasOnNode(k, node, count)))
  {
    PredicateValid("replicasOnNode");
    ObjectIriValid(cluster, k);
  }

  lemma ScheduledValid(cluster: Text, k: Key, node: Text)
    requires NQuads.ValidIri(k.kind)
    ensures NQuads.ValidTriple(TripleOf(cluster, ScheduledOn(k, node)))
  {
    PredicateValid("scheduledOn");
    ObjectIriValid(cluster, k);
    ClusterObjectValid(cluster, "node", node);
  }

  /** The hash identifies the triples: two snapshots of a cluster hash alike exactly when their fragments
      have the same triples, if the hash does not collide on the two texts. */
  lemma SnapshotHashIdentifies(cluster: Text, a: set<Line>, b: set<Line>, sha: Text -> Text)
    requires forall l :: l in a + b ==> ValidLine(l)
    requires sha(SnapshotText(cluster, a)) == sha(SnapshotText(cluster, b)) ==>
             SnapshotText(cluster, a) == SnapshotText(cluster, b)
    ensures sha(SnapshotText(cluster, a)) == sha(SnapshotText(cluster, b)) <==>
            TriplesOf(cluster, a) == TriplesOf(cluster, b)
  {
    PlaceholderGraphValid(cluster);
    forall l | l in a + b
      ensures NQuads.ValidTriple(TripleOf(cluster, l))
    {
      LineValid(cluster, l);
    }
    NQuads.TextExactly(TriplesOf(cluster, a), TriplesOf(cluster, b), PlaceholderGraph(cluster));
  }

  /** With distinct objects the hash does not depend on any order either. */
  lemma SnapshotHashOrderFree(cluster: Text, objects: seq<Object>, objects': seq<Object>, pods: seq<Pod>,
                              pods': seq<Pod>, failed: seq<Text>, failed': seq<Text>, describe: Describe,
                              sha: Text -> Text)
    requires multiset(objects) == multiset(objects') && DistinctObjects(objects) && DistinctObjects(objects')
    requires multiset(pods) == multiset(pods') && multiset(failed) == multiset(failed')
    ensures sha(SnapshotText(cluster, SnapshotLines(objects, pods, failed, describe)))
         == sha(SnapshotText(cluster, SnapshotLines(objects', pods', failed', describe)))
  {
    SnapshotOrderFree(objects, objects', pods, pods', failed, failed', describe);
  }
}
