/** The snapshot fragment, statement by statement: which lines it has, in terms of the pods and objects that
    were listed, and the triple each line is. */
module SnapshotFacts {
  import opened Texts
  import opened Sorting
  import opened Placement
  import opened Snapshot
  import Iri
  import Names
  import NTriples
  import NQuads

  // ----- counted pods ---------------------------------------------------------------------

  ghost predicate Owned(index: ObjectIndex, pod: Pod, k: Key) {
    exists chain :: PodChain(index, pod, chain, k)
  }

  ghost predicate Counted(index: ObjectIndex, pod: Pod, k: Key, n: Text) {
    pod.node == Some(n) && Owned(index, pod, k)
  }

  /** The pods of workload `k` that are scheduled on node `n`, by position in the list. */
  ghost function PodsOn(index: ObjectIndex, pods: seq<Pod>, k: Key, n: Text): set<nat> {
    set i: nat | i < |pods| && Counted(index, pods[i], k, n)
  }

  lemma PlaceCounted(index: ObjectIndex, pod: Pod, k: Key, n: Text)
    ensures PlaceOf(index)(pod) == Some((k, n)) <==> Counted(index, pod, k, n)
  {
    OwnerExactly(index, pod, k);
  }

  lemma BagStep<T>(m: multiset<T>, x: T, y: T)
    ensures (m + multiset{x})[y] == m[y] + if x == y then 1 else 0
  {
  }

  lemma {:induction false} PlacesCounted(index: ObjectIndex, pods: seq<Pod>, k: Key, n: Text)
    ensures Places(index, pods)[Some((k, n))] == |PodsOn(index, pods, k, n)|
  {
    if pods == [] {
      assert PodsOn(index, pods, k, n) == {};
    } else {
      var front, last := pods[..|pods| - 1], pods[|pods| - 1];
      assert pods == front + [last];
      PlacesCounted(index, front, k, n);
      PlacesStep(index, pods);
      BagStep(Places(index, front), PlaceOf(index)(last), Some((k, n)));
      PlaceCounted(index, last, k, n);
      PodsOnStep(index, front, last, k, n);
    }
  }

  lemma PodsOnStep(index: ObjectIndex, front: seq<Pod>, last: Pod, k: Key, n: Text)
    ensures |PodsOn(index, front + [last], k, n)|
         == |PodsOn(index, front, k, n)| + if Counted(index, last, k, n) then 1 else 0
  {
    var j: nat := |front|;
    var before, after := PodsOn(index, front, k, n), PodsOn(index, front + [last], k, n);
    forall i: nat
      ensures i in after <==> i in before || (i == j && Counted(index, last, k, n))
    {
      if i < j { assert (front + [last])[i] == front[i]; }
    }
    assert after == before + if Counted(index, last, k, n) then {j} else {};
    assert j !in before;
  }

  // ----- the lines -----------------------------------------------------------------------------

  lemma FailedLineIff(failed: seq<Text>, l: Line)
    ensures l in FailedLines(Elements(failed)) <==> (l.Partial? && failed != []) || (l.FailedKind? && l.kind in failed)
  {
    if failed != [] { assert failed[0] in Elements(failed); }
  }

  lemma HeadLineIff(index: ObjectIndex, pl: Counts, pu: Digests, describe: Describe, l: Line)
    requires l.Partial? || l.FailedKind?
    ensures l !in IndexLines(index, pl, pu, describe, index.Keys)
  {
  }

  ghost predicate Describes(index: ObjectIndex, pods: seq<Pod>, describe: Describe, k: Key, t: NQuads.Triple) {
    k in index && k.kind != "ReplicaSet" && t in describe(index, k, Inner(PulledOf(index, pods), k))
  }

  lemma OtherLineIff(index: ObjectIndex, pods: seq<Pod>, describe: Describe, l: Line)
    requires l.Contains? || l.Described?
    ensures l in IndexLines(index, PlacementOf(index, pods), PulledOf(index, pods), describe, index.Keys)
       <==> if l.Contains? then l.k in index && l.k.kind != "ReplicaSet"
            else exists k :: Describes(index, pods, describe, k, l.t)
  {
    var pl, pu := PlacementOf(index, pods), PulledOf(index, pods);
    forall k
      ensures l in ObjectLines(index, pl, pu, describe, k)
         <==> if l.Contains? then l.k == k else l.t in describe(index, k, Inner(pu, k))
    {
    }
    if l.Described? {
      if k :| Describes(index, pods, describe, k, l.t) {
        assert Shown(index, k) && l in ObjectLines(index, pl, pu, describe, k);
      }
      if l in IndexLines(index, pl, pu, describe, index.Keys) {
        var k :| k in index && Shown(index, k) && l in ObjectLines(index, pl, pu, describe, k);
        assert Describes(index, pods, describe, k, l.t);
      }
    } else if Shown(index, l.k) {
      assert l in ObjectLines(index, pl, pu, describe, l.k);
    }
  }

  /** What the fragment of a snapshot says. */
  lemma LinesExactly(objects: seq<Object>, pods: seq<Pod>, failed: seq<Text>, describe: Describe, l: Line)
    ensures var index := IndexOfObjects(objects);
      l in SnapshotLines(objects, pods, failed, describe)
      <==> match l
           case Partial => failed != []
           case FailedKind(kind) => kind in failed
           case Contains(k) => k in index && k.kind != "ReplicaSet"
           case ScheduledOn(k, n) => k in index && WorkloadKind(k.kind) && |PodsOn(index, pods, k, n)| > 0
           case ReplicasOnNode(k, n, c) =>
             k in index && WorkloadKind(k.kind) && c > 0 && |PodsOn(index, pods, k, n)| == c
           case Described(t) => exists k :: Describes(index, pods, describe, k, t)
  {
    var index := IndexOfObjects(objects);
    FailedLineIff(failed, l);
    match l
    case Partial => HeadLineIff(index, PlacementOf(index, pods), PulledOf(index, pods), describe, l);
    case FailedKind(_) => HeadLineIff(index, PlacementOf(index, pods), PulledOf(index, pods), describe, l);
    case Contains(_) => OtherLineIff(index, pods, describe, l);
    case ScheduledOn(k, n) =>
      ScheduledExactly(objects, pods, failed, describe, k, n, 0);
      PlacesCounted(index, pods, k, n);
    case ReplicasOnNode(k, n, c) =>
      ScheduledExactly(objects, pods, failed, describe, k, n, c);
      PlacesCounted(index, pods, k, n);
    case Described(_) => OtherLineIff(index, pods, describe, l);
  }

  // ----- the triples -----------------------------------------------------------------------------

  /** The number a string of decimal digits stands for. */
  function DecimalRead(s: Text): Option<nat> {
    if s == [] then Some(0)
    else
      match DecimalRead(s[..|s| - 1])
      case None => None
      case Some(n) =>
        var c := s[|s| - 1];
        if '0' <= c <= '9' then Some(n * 10 + (c as int - '0' as int)) else None
  }

  /** A count is printed in decimal, without leading zeros. */
  lemma {:induction false} DecimalExactly(n: nat)
    ensures DecimalRead(Decimal(n)) == Some(n)
    ensures Decimal(n) != [] && (n > 0 ==> Decimal(n)[0] != '0')
  {
    var s := Decimal(n);
    if n < 10 {
      assert s[..0] == [];
    } else {
      DecimalExactly(n / 10);
      assert s[..|s| - 1] == Decimal(n / 10);
    }
  }

  const K8S: Text := "https://w3id.org/nix2rdf/k8s#"

  lemma GraphText(cluster: Text)
    ensures PlaceholderGraph(cluster) == Names.K8SID + Iri.Encode(cluster) + "/" + "snapshot/PENDINGHASH"
  {
    var e := Iri.Encode(cluster);
    Names.ClusterPrefix(e);
    GraphTail(e);
  }

  lemma GraphTail(e: Text)
    ensures Iri.Id("k8s/" + e + "/snapshot/" + "PENDINGHASH") == Iri.Id("k8s/" + e + "/") + "snapshot/PENDINGHASH"
  {
    assert "/snapshot/" + "PENDINGHASH" == "/" + "snapshot/PENDINGHASH";
  }

  /** Objects without a namespace and objects within one. */
  lemma ObjectText(cluster: Text, k: Key)
    ensures var prefix, name := Names.K8SID + Iri.Encode(cluster) + "/", Iri.Encode(k.name);
      ObjectIri(cluster, k)
        == prefix + if k.kind == "Node" then "node" + "/" + name
                    else if k.kind == "Namespace" then "ns" + "/" + name
                    else if k.ns == [] then k.kind + "/" + name
                    else k.kind + "/" + Iri.Encode(k.ns) + "/" + name
  {
    Names.ClusterWideText(cluster, "node", k.name);
    Names.ClusterWideText(cluster, "ns", k.name);
    Names.ClusterWideText(cluster, k.kind, k.name);
    Names.NamespacedText(cluster, k.kind, k.ns, k.name);
  }

  ghost predicate Says(t: NQuads.Triple, s: Text, term: Text, o: NTriples.Term) {
    t == NQuads.Triple(NTriples.NamedNode(s), K8S + term, o)
  }

  /** The triple of each line. */
  lemma TriplesExactly(cluster: Text, l: Line)
    ensures var graph, t := PlaceholderGraph(cluster), TripleOf(cluster, l);
      match l
      case Partial =>
        Says(t, graph, "partial", NTriples.Typed("true", "http://www.w3.org/2001/XMLSchema#boolean"))
      case FailedKind(kind) => Says(t, graph, "failedKind", NTriples.Simple(kind))
      case Contains(k) => Says(t, graph, "contains", NTriples.NamedNode(ObjectIri(cluster, k)))
      case ScheduledOn(k, n) =>
        Says(t, ObjectIri(cluster, k), "scheduledOn", NTriples.NamedNode(ObjectIri(cluster, Key("Node", [], n))))
      case ReplicasOnNode(k, n, c) =>
        Says(t, ObjectIri(cluster, k), "replicasOnNode", NTriples.Simple(n + ":" + Decimal(c)))
      case Described(u) => t == u
  {
  }
}
