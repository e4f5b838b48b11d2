/** From the objects and pods of a cluster to workload placement and pulled image digests
    (k8s/snapshot.rs, k8s/model.rs).  Everything else an object carries is its `body`. */
module Placement {
  import opened Texts
  import opened Sorting

  datatype OwnerRef = OwnerRef(kind: Text, name: Text)

  datatype Object = Object(kind: Text, ns: Option<Text>, name: Text, owners: seq<OwnerRef>, body: Text)

  datatype ContainerStatus = ContainerStatus(name: Text, imageId: Option<Text>)

  /** `statuses` are the container statuses followed by those of init containers. */
  datatype Pod = Pod(ns: Option<Text>, owners: seq<OwnerRef>, node: Option<Text>, statuses: seq<ContainerStatus>)

  datatype Key = Key(kind: Text, ns: Text, name: Text)

  type ObjectIndex = map<Key, Object>

  predicate WorkloadKind(k: Text) {
    k == "Deployment" || k == "StatefulSet" || k == "DaemonSet" || k == "Job" || k == "CronJob"
  }

  predicate ClusterKind(k: Text) {
    k == "Node" || k == "Namespace" || k == "PersistentVolume" || k == "StorageClass" || k == "ClusterRole"
    || k == "ClusterRoleBinding"
  }

  function OrDefault(ns: Option<Text>): Text {
    if ns.Some? then ns.value else "default"
  }

  // ----- the object index ---------------------------------------------------------------

  predicate Indexed(o: Object) {
    o.kind != [] && o.kind != "Pod"
  }

  function KeyOf(o: Object): Key {
    Key(o.kind, if ClusterKind(o.kind) then [] else OrDefault(o.ns), o.name)
  }

  /** A later object replaces an earlier one with the same key. */
  function IndexOfObjects(objects: seq<Object>): ObjectIndex {
    if objects == [] then map[]
    else
      var m := IndexOfObjects(objects[..|objects| - 1]);
      var o := objects[|objects| - 1];
      if Indexed(o) then m[KeyOf(o) := o] else m
  }

  method BuildIndex(objects: seq<Object>) returns (index: ObjectIndex)
    ensures index == IndexOfObjects(objects)
  {
    index := map[];
    for i := 0 to |objects|
      invariant index == IndexOfObjects(objects[..i])
    {
      var o := objects[i];
      assert objects[..i + 1][..i] == objects[..i];
      if o.kind == [] || o.kind == "Pod" {
        continue;
      }
      index := index[KeyOf(o) := o];
    }
    assert objects[..|objects|] == objects;
  }

  /** Indexed objects have different keys. */
  predicate DistinctObjects(objects: seq<Object>) {
    forall i, j :: 0 <= i < j < |objects| && Indexed(objects[i]) && Indexed(objects[j])
      ==> KeyOf(objects[i]) != KeyOf(objects[j])
  }

  lemma {:induction false} IndexHas(objects: seq<Object>, k: Key)
    requires DistinctObjects(objects)
    ensures k in IndexOfObjects(objects) <==> exists o :: o in objects && Indexed(o) && KeyOf(o) == k
    ensures forall o :: o in objects && Indexed(o) && KeyOf(o) == k ==> IndexOfObjects(objects)[k] == o
  {
    if objects != [] {
      var n := |objects| - 1;
      assert objects == objects[..n] + [objects[n]];
      IndexHas(objects[..n], k);
    }
  }

  /** With distinct keys the index does not depend on the order of the objects. */
  lemma IndexOrderFree(a: seq<Object>, b: seq<Object>)
    requires multiset(a) == multiset(b) && DistinctObjects(a) && DistinctObjects(b)
    ensures IndexOfObjects(a) == IndexOfObjects(b)
  {
    forall o: Object
      ensures o in a <==> o in b
    {
      assert o in multiset(a) <==> o in multiset(b);
    }
    forall k
      ensures k in IndexOfObjects(a) <==> k in IndexOfObjects(b)
      ensures k in IndexOfObjects(a) && k in IndexOfObjects(b) ==> IndexOfObjects(a)[k] == IndexOfObjects(b)[k]
    {
      IndexHas(a, k);
      IndexHas(b, k);
    }
  }

  /** Object `o` is indexed under kind, namespace and name, and stands at place `i`. */
  ghost predicate StandsAt(objects: seq<Object>, i: nat, kind: Text, ns: Text, name: Text) {
    i < |objects| && objects[i].kind == kind && objects[i].name == name && kind != "" && kind != "Pod"
    && ns == if ClusterKind(kind) then "" else if objects[i].ns == None then "default" else objects[i].ns.value
  }

  /** The index holds, under each kind, namespace and name, the last object that has them. */
  ghost predicate LastAt(objects: seq<Object>, i: nat, k: Key) {
    StandsAt(objects, i, k.kind, k.ns, k.name) && forall j: nat :: StandsAt(objects, j, k.kind, k.ns, k.name) ==> j <= i
  }

  lemma {:induction false} IndexExactly(objects: seq<Object>, k: Key)
    ensures k in IndexOfObjects(objects) <==> exists i :: LastAt(objects, i, k)
    ensures forall i: nat :: LastAt(objects, i, k) ==>
              k in IndexOfObjects(objects) && IndexOfObjects(objects)[k] == objects[i]
  {
    if objects != [] {
      var n: nat := |objects| - 1;
      IndexExactly(objects[..n], k);
      StandsBefore(objects, k);
      KeyExactly(objects[n]);
      if Indexed(objects[n]) && KeyOf(objects[n]) == k {
        assert LastAt(objects, n, k);
      } else {
        assert !StandsAt(objects, n, k.kind, k.ns, k.name);
        forall i: nat
          ensures LastAt(objects, i, k) <==> LastAt(objects[..n], i, k)
        {
        }
      }
    }
  }

  /** Without the last object, the others stand where they stood. */
  lemma StandsBefore(objects: seq<Object>, k: Key)
    requires objects != []
    ensures var n := |objects| - 1;
      forall j: nat :: StandsAt(objects[..n], j, k.kind, k.ns, k.name)
                  <==> j < n && StandsAt(objects, j, k.kind, k.ns, k.name)
  {
  }

  // ----- pod owners -----------------------------------------------------------------------

  /** A Job whose first owner is a CronJob counts for the CronJob. */
  function Attributed(index: ObjectIndex, ns: Text, w: OwnerRef): Key {
    var k := Key(w.kind, ns, w.name);
    if w.kind == "Job" && k in index && index[k].owners != [] && index[k].owners[0].kind == "CronJob"
    then Key("CronJob", ns, index[k].owners[0].name)
    else k
  }

  /** The first owner of a ReplicaSet. */
  function NextOwner(index: ObjectIndex, ns: Text, o: OwnerRef): Option<OwnerRef> {
    var k := Key("ReplicaSet", ns, o.name);
    if o.kind == "ReplicaSet" && k in index && index[k].owners != [] then Some(index[k].owners[0]) else None
  }

  function OwnerFrom(index: ObjectIndex, ns: Text, o: OwnerRef, steps: nat): Option<Key>
    decreases steps
  {
    if steps == 0 then None
    else if WorkloadKind(o.kind) then Some(Attributed(index, ns, o))
    else if NextOwner(index, ns, o).Some? then OwnerFrom(index, ns, NextOwner(index, ns, o).value, steps - 1)
    else None
  }

  function OwnerOf(index: ObjectIndex, pod: Pod): Option<Key> {
    if pod.owners == [] then None else OwnerFrom(index, OrDefault(pod.ns), pod.owners[0], 3)
  }

  method PodOwner(index: ObjectIndex, pod: Pod) returns (owner: Option<Key>)
    ensures owner == OwnerOf(index, pod)
  {
    var ns := OrDefault(pod.ns);
    if pod.owners == [] {
      return None;
    }
    var curKind, curName := pod.owners[0].kind, pod.owners[0].name;
    for step := 0 to 3
      invariant OwnerOf(index, pod) == OwnerFrom(index, ns, OwnerRef(curKind, curName), 3 - step)
    {
      if WorkloadKind(curKind) {
        if curKind == "Job" {
          var j := Key("Job", ns, curName);
          if j in index && index[j].owners != [] && index[j].owners[0].kind == "CronJob" {
            return Some(Key("CronJob", ns, index[j].owners[0].name));
          }
        }
        return Some(Key(curKind, ns, curName));
      }
      if curKind == "ReplicaSet" {
        var rs := Key("ReplicaSet", ns, curName);
        if rs !in index || index[rs].owners == [] {
          return None;
        }
        curKind, curName := index[rs].owners[0].kind, index[rs].owners[0].name;
        continue;
      }
      return None;
    }
    owner := None;
  }

  /** The object of this kind and name, in this namespace, has `b` as its first owner. */
  predicate FirstOwner(index: ObjectIndex, ns: Text, a: OwnerRef, b: OwnerRef) {
    var k := Key(a.kind, ns, a.name);
    k in index && |index[k].owners| > 0 && index[k].owners[0] == b
  }

  lemma NextOwnerExactly(index: ObjectIndex, ns: Text, a: OwnerRef, b: OwnerRef)
    ensures NextOwner(index, ns, a) == Some(b) <==> a.kind == "ReplicaSet" && FirstOwner(index, ns, a, b)
  {
  }

  /** A chain of first owners, every link but the last a ReplicaSet, ending in a workload. */
  ghost predicate OwnerChain(index: ObjectIndex, ns: Text, chain: seq<OwnerRef>) {
    && chain != [] && WorkloadKind(chain[|chain| - 1].kind)
    && forall i :: 0 <= i < |chain| - 1 ==>
         chain[i].kind == "ReplicaSet" && FirstOwner(index, ns, chain[i], chain[i + 1])
  }

  lemma {:induction false} ChainFound(index: ObjectIndex, ns: Text, chain: seq<OwnerRef>, steps: nat)
    requires OwnerChain(index, ns, chain)
    ensures OwnerFrom(index, ns, chain[0], steps)
         == if |chain| <= steps then Some(Attributed(index, ns, chain[|chain| - 1])) else None
  {
    if |chain| > 1 {
      NextOwnerExactly(index, ns, chain[0], chain[1]);
      if steps > 0 {
        assert chain[1..][|chain| - 2] == chain[|chain| - 1];
        ChainFound(index, ns, chain[1..], steps - 1);
      }
    }
  }

  lemma {:induction false} FoundChain(index: ObjectIndex, ns: Text, o: OwnerRef, steps: nat)
    returns (chain: seq<OwnerRef>)
    requires OwnerFrom(index, ns, o, steps).Some?
    ensures OwnerChain(index, ns, chain) && chain[0] == o && |chain| <= steps
    decreases steps
  {
    if WorkloadKind(o.kind) {
      chain := [o];
    } else {
      var rest := FoundChain(index, ns, NextOwner(index, ns, o).value, steps - 1);
      chain := [o] + rest;
      NextOwnerExactly(index, ns, o, rest[0]);
      forall i | 0 <= i < |chain| - 1
        ensures chain[i].kind == "ReplicaSet" && FirstOwner(index, ns, chain[i], chain[i + 1])
      {
        if i > 0 { assert chain[i] == rest[i - 1] && chain[i + 1] == rest[i]; }
      }
    }
  }

  /** What a workload at the end of a chain counts for: the CronJob that owns it first, if it is a Job and one
      does, and otherwise itself. */
  ghost predicate CountsFor(index: ObjectIndex, ns: Text, w: OwnerRef, k: Key) {
    if exists name :: w.kind == "Job" && FirstOwner(index, ns, w, OwnerRef("CronJob", name)) then
      k.kind == "CronJob" && k.ns == ns && FirstOwner(index, ns, w, OwnerRef("CronJob", k.name))
    else k.kind == w.kind && k.ns == ns && k.name == w.name
  }

  lemma AttributedExactly(index: ObjectIndex, ns: Text, w: OwnerRef, k: Key)
    ensures Attributed(index, ns, w) == k <==> CountsFor(index, ns, w, k)
  {
    var j := Key(w.kind, ns, w.name);
    if w.kind == "Job" && j in index && index[j].owners != [] && index[j].owners[0].kind == "CronJob" {
      assert FirstOwner(index, ns, w, OwnerRef("CronJob", index[j].owners[0].name));
    }
  }

  ghost predicate PodChain(index: ObjectIndex, pod: Pod, chain: seq<OwnerRef>, k: Key) {
    var ns := if pod.ns == None then "default" else pod.ns.value;
    && OwnerChain(index, ns, chain) && |chain| <= 3 && pod.owners != [] && chain[0] == pod.owners[0]
    && CountsFor(index, ns, chain[|chain| - 1], k)
  }

  /** A pod belongs to the workload that the end of its chain of first owners counts for, if at most two
      ReplicaSets lie between them. */
  lemma OwnerExactly(index: ObjectIndex, pod: Pod, k: Key)
    ensures OwnerOf(index, pod) == Some(k) <==> exists chain :: PodChain(index, pod, chain, k)
  {
    var ns := OrDefault(pod.ns);
    if OwnerOf(index, pod) == Some(k) {
      var chain := FoundChain(index, ns, pod.owners[0], 3);
      ChainFound(index, ns, chain, 3);
      AttributedExactly(index, ns, chain[|chain| - 1], k);
      assert PodChain(index, pod, chain, k);
    }
    if chain :| PodChain(index, pod, chain, k) {
      ChainFound(index, ns, chain, 3);
      AttributedExactly(index, ns, chain[|chain| - 1], k);
    }
  }

  /** The kinds that own pods, and the kinds that have no namespace. */
  lemma KindsExactly(k: Text)
    ensures WorkloadKind(k) <==> k in {"Deployment", "StatefulSet", "DaemonSet", "Job", "CronJob"}
    ensures ClusterKind(k) <==> k in {"Node", "Namespace", "PersistentVolume", "StorageClass", "ClusterRole",
                                      "ClusterRoleBinding"}
  {
  }

  /** What an object is indexed under. */
  lemma KeyExactly(o: Object)
    ensures KeyOf(o).kind == o.kind && KeyOf(o).name == o.name
    ensures ClusterKind(o.kind) ==> |KeyOf(o).ns| == 0
    ensures !ClusterKind(o.kind) ==> KeyOf(o).ns == if o.ns == None then "default" else o.ns.value
    ensures Indexed(o) <==> o.kind != "" && o.kind != "Pod"
  {
  }

  /** Pods are attributed to workloads of their own namespace only, and never to a Job that a CronJob owns. */
  lemma {:induction false} OwnerIsWorkload(index: ObjectIndex, ns: Text, o: OwnerRef, steps: nat)
    requires OwnerFrom(index, ns, o, steps).Some?
    ensures var k := OwnerFrom(index, ns, o, steps).value;
            && WorkloadKind(k.kind) && k.ns == ns
            && (k.kind == "Job" && k in index && index[k].owners != [] ==> index[k].owners[0].kind != "CronJob")
    decreases steps
  {
    if !WorkloadKind(o.kind) {
      OwnerIsWorkload(index, ns, NextOwner(index, ns, o).value, steps - 1);
    }
  }

  // ----- image digests ------------------------------------------------------------------------

  const PULLABLE: Text := "docker-pullable://"
  const SHA256: Text := "sha256:"

  predicate HexChar(c: char) {
    '0' <= c <= '9' || 'a' <= c <= 'f' || 'A' <= c <= 'F'
  }

  function Lower(s: Text): Text {
    if s == [] then []
    else [if 'A' <= s[0] <= 'Z' then (s[0] as int + 32) as char else s[0]] + Lower(s[1..])
  }

  function DigestHex(d: Text): Option<Text> {
    if !StartsWith(d, SHA256) then None
    else
      var h := d[|SHA256|..];
      if |h| == 64 && forall i :: 0 <= i < |h| ==> HexChar(h[i]) then Some(Lower(h)) else None
  }

  function AfterAt(s: Text): Text {
    var p := RSplitOnce(s, '@');
    if p.Some? then p.value.1 else s
  }

  function Unprefixed(d: Text): Text {
    if StartsWith(d, PULLABLE) then d[|PULLABLE|..] else d
  }

  /** The digest in the image ID that a runtime reports for a container. */
  function PulledDigest(id: Text): Option<Text> {
    var d := AfterAt(id);
    DigestHex(AfterAt(Unprefixed(d)))
  }

  predicate HexDigest(h: Text) {
    |h| == 64 && forall i :: 0 <= i < |h| ==> HexChar(h[i])
  }

  lemma {:induction false} LowerHex(h: Text)
    requires forall i :: 0 <= i < |h| ==> HexChar(h[i])
    ensures |Lower(h)| == |h| && forall i :: 0 <= i < |h| ==> '0' <= Lower(h)[i] <= '9' || 'a' <= Lower(h)[i] <= 'f'
  {
    if h != [] {
      LowerHex(h[1..]);
      forall i | 0 <= i < |h|
        ensures '0' <= Lower(h)[i] <= '9' || 'a' <= Lower(h)[i] <= 'f'
      {
        if i > 0 { assert h[i] == h[1..][i - 1] && Lower(h)[i] == Lower(h[1..])[i - 1]; }
      }
    }
  }

  lemma AfterAtOf(x: Text, d: Text)
    requires '@' !in d
    ensures AfterAt(d) == d && AfterAt(x + ['@'] + d) == d
  {
    RSplitOnceJoin(x, '@', d);
  }

  lemma DigestOfHex(h: Text)
    requires HexDigest(h)
    ensures DigestHex(SHA256 + h) == Some(Lower(h)) && '@' !in SHA256 + h && !StartsWith(SHA256 + h, PULLABLE)
  {
    assert (SHA256 + h)[|SHA256|..] == h;
    assert (SHA256 + h)[0] == 's' && PULLABLE[0] == 'd';
    assert '@' !in SHA256;
    forall c | c in h
      ensures c != '@'
    {
      var i :| 0 <= i < |h| && h[i] == c;
    }
  }

  /** The image ID ends in a digest, alone, after `docker-pullable://`, or after an at sign. */
  ghost predicate EndsInDigest(id: Text, h: Text) {
    || id == "sha256:" + h || id == "docker-pullable://" + ("sha256:" + h)
    || (exists x :: id == x + ['@'] + ("sha256:" + h))
    || (exists x :: id == x + ['@'] + ("docker-pullable://" + ("sha256:" + h)))
  }

  /** What `AfterAt` and `Unprefixed` make of an ID in one of these forms. */
  lemma DigestPart(id: Text, d: Text, e: Text)
    requires '@' !in d && '@' !in e && d == Unprefixed(d) == Unprefixed(e)
    requires id == d || id == e || (exists x :: id == x + ['@'] + d) || (exists x :: id == x + ['@'] + e)
    ensures AfterAt(Unprefixed(AfterAt(id))) == d
  {
    AfterAtOf([], d);
    AfterAtOf([], e);
    if x :| id == x + ['@'] + d { AfterAtOf(x, d); }
    if x :| id == x + ['@'] + e { AfterAtOf(x, e); }
  }

  lemma DigestFound(id: Text, h: Text)
    requires HexDigest(h) && EndsInDigest(id, h)
    ensures PulledDigest(id) == Some(Lower(h))
  {
    var d, e := SHA256 + h, PULLABLE + (SHA256 + h);
    DigestOfHex(h);
    assert '@' !in PULLABLE;
    assert e[|PULLABLE|..] == d && StartsWith(e, PULLABLE);
    DigestPart(id, d, e);
  }

  lemma HexForm(e: Text) returns (h: Text)
    requires DigestHex(e).Some?
    ensures e == SHA256 + h && HexDigest(h) && DigestHex(e) == Some(Lower(h))
  {
    h := e[|SHA256|..];
  }

  lemma Prefixed(d: Text)
    ensures d == Unprefixed(d) || d == PULLABLE + Unprefixed(d)
  {
  }

  lemma BeforeAt(id: Text)
    ensures '@' !in AfterAt(id)
    ensures id == AfterAt(id) || exists x :: id == x + ['@'] + AfterAt(id)
  {
    var p := RSplitOnce(id, '@');
    if p.Some? { assert id == p.value.0 + ['@'] + AfterAt(id); }
  }

  lemma DigestForm(id: Text) returns (h: Text)
    requires PulledDigest(id).Some?
    ensures HexDigest(h) && EndsInDigest(id, h) && PulledDigest(id) == Some(Lower(h))
  {
    var d := AfterAt(id);
    var e := Unprefixed(d);
    BeforeAt(id);
    Prefixed(d);
    AfterAtOf([], e);
    h := HexForm(e);
  }

  /** A digest is taken from an image ID exactly when the ID ends in 64 hex digits in one of the forms
      runtimes use, and it is those digits in lower case. */
  lemma PulledDigestExactly(id: Text, r: Text)
    ensures PulledDigest(id) == Some(r) <==> exists h :: HexDigest(h) && EndsInDigest(id, h) && r == Lower(h)
    ensures PulledDigest(id) == Some(r) ==> |r| == 64 && forall i :: 0 <= i < 64 ==>
            '0' <= r[i] <= '9' || 'a' <= r[i] <= 'f'
  {
    if PulledDigest(id) == Some(r) {
      var h := DigestForm(id);
      LowerHex(h);
    }
    if h :| HexDigest(h) && EndsInDigest(id, h) && r == Lower(h) {
      DigestFound(id, h);
    }
  }

  /** Lower case changes letters only, each to its own. */
  lemma {:induction false} LowerExactly(h: Text, i: nat)
    requires HexDigest(h) && i < |h|
    ensures |Lower(h)| == |h|
    ensures Lower(h)[i] == if 'A' <= h[i] <= 'F' then "abcdef"[h[i] as int - 'A' as int] else h[i]
  {
    LowerAt(h, i);
  }

  lemma {:induction false} LowerAt(s: Text, i: nat)
    requires i < |s|
    ensures |Lower(s)| == |s|
    ensures Lower(s)[i] == if 'A' <= s[i] <= 'Z' then (s[i] as int + 32) as char else s[i]
  {
    if |s| > 1 { LowerAt(s[1..], if i > 0 then i - 1 else 0); }
  }

  lemma HexCharExactly(c: char)
    ensures HexChar(c) <==> c in "0123456789abcdefABCDEF"
  {
  }

  // ----- accumulation ------------------------------------------------------------------------------

  type Counts = map<Key, map<Text, nat>>

  type Digests = map<Key, map<Text, set<Text>>>

  function Inner<T>(m: map<Key, map<Text, T>>, k: Key): map<Text, T> {
    if k in m then m[k] else map[]
  }

  function CountAt(m: map<Text, nat>, n: Text): nat {
    if n in m then m[n] else 0
  }

  function Place(pl: Counts, k: Key, n: Text): Counts {
    pl[k := Inner(pl, k)[n := CountAt(Inner(pl, k), n) + 1]]
  }

  function PlacePod(index: ObjectIndex, pl: Counts, pod: Pod): Counts {
    var p := PlaceOf(index)(pod);
    if p.Some? then Place(pl, p.value.0, p.value.1) else pl
  }

  /** The workload and node a pod counts for, if it is attributable and scheduled. */
  function PlaceOf(index: ObjectIndex): Pod -> Option<(Key, Text)> {
    (pod: Pod) =>
      var o := OwnerOf(index, pod);
      if o.Some? && pod.node.Some? then Some((o.value, pod.node.value)) else None
  }

  function PlacementOf(index: ObjectIndex, pods: seq<Pod>): Counts {
    if pods == [] then map[]
    else PlacePod(index, PlacementOf(index, pods[..|pods| - 1]), pods[|pods| - 1])
  }

  function AddDigest(pu: Digests, k: Key, c: Text, h: Text): Digests {
    var inner := Inner(pu, k);
    pu[k := inner[c := (if c in inner then inner[c] else {}) + {h}]]
  }

  function AddStatus(pu: Digests, k: Key, cs: ContainerStatus): Digests {
    if cs.imageId.Some? && PulledDigest(cs.imageId.value).Some?
    then AddDigest(pu, k, cs.name, PulledDigest(cs.imageId.value).value)
    else pu
  }

  function AddStatuses(pu: Digests, k: Key, statuses: seq<ContainerStatus>): Digests {
    if statuses == [] then pu
    else AddStatus(AddStatuses(pu, k, statuses[..|statuses| - 1]), k, statuses[|statuses| - 1])
  }

  function PulledOf(index: ObjectIndex, pods: seq<Pod>): Digests {
    if pods == [] then map[]
    else
      var pu, pod := PulledOf(index, pods[..|pods| - 1]), pods[|pods| - 1];
      if OwnerOf(index, pod).Some? then AddStatuses(pu, OwnerOf(index, pod).value, pod.statuses) else pu
  }

  method ReadPods(index: ObjectIndex, pods: seq<Pod>) returns (placement: Counts, pulled: Digests)
    ensures placement == PlacementOf(index, pods)
    ensures pulled == PulledOf(index, pods)
  {
    placement, pulled := map[], map[];
    for i := 0 to |pods|
      invariant placement == PlacementOf(index, pods[..i])
      invariant pulled == PulledOf(index, pods[..i])
    {
      var pod := pods[i];
      assert pods[..i + 1][..i] == pods[..i];
      var owner := PodOwner(index, pod);
      if owner.None? {
        continue;
      }
      if pod.node.Some? {
        var nodes := Inner(placement, owner.value);
        var count := if pod.node.value in nodes then nodes[pod.node.value] else 0;
        placement := placement[owner.value := nodes[pod.node.value := count + 1]];
      }
      pulled := ReadStatuses(pulled, owner.value, pod.statuses);
    }
    assert pods[..|pods|] == pods;
  }

  method ReadStatuses(before: Digests, owner: Key, statuses: seq<ContainerStatus>) returns (pulled: Digests)
    ensures pulled == AddStatuses(before, owner, statuses)
  {
    pulled := before;
    for i := 0 to |statuses|
      invariant pulled == AddStatuses(before, owner, statuses[..i])
    {
      var cs := statuses[i];
      assert statuses[..i + 1][..i] == statuses[..i];
      if cs.imageId.Some? {
        var h := PulledDigest(cs.imageId.value);
        if h.Some? {
          pulled := AddDigest(pulled, owner, cs.name, h.value);
        }
      }
    }
    assert statuses[..|statuses|] == statuses;
  }

  // ----- placement counts ------------------------------------------------------------------------

  ghost function Places(index: ObjectIndex, pods: seq<Pod>): multiset<Option<(Key, Text)>> {
    multiset(Map(PlaceOf(index), pods))
  }

  lemma PlacesStep(index: ObjectIndex, pods: seq<Pod>)
    requires pods != []
    ensures Places(index, pods) == Places(index, pods[..|pods| - 1]) + multiset{PlaceOf(index)(pods[|pods| - 1])}
  {
    var n := |pods| - 1;
    assert pods == pods[..n] + [pods[n]];
    MapAppend(PlaceOf(index), pods[..n], [pods[n]]);
    assert Map(PlaceOf(index), [pods[n]]) == [PlaceOf(index)(pods[n])];
  }

  lemma PlaceCount(pl: Counts, p: (Key, Text), k: Key, n: Text)
    ensures CountAt(Inner(Place(pl, p.0, p.1), k), n) == CountAt(Inner(pl, k), n) + if p == (k, n) then 1 else 0
  {
  }

  /** Each attributable scheduled pod is counted once, for its own workload and node. */
  lemma {:induction false} CountsExactly(index: ObjectIndex, pods: seq<Pod>, k: Key, n: Text)
    ensures CountAt(Inner(PlacementOf(index, pods), k), n) == Places(index, pods)[Some((k, n))]
  {
    if pods != [] {
      CountsExactly(index, pods[..|pods| - 1], k, n);
      PlacesStep(index, pods);
      var p := PlaceOf(index)(pods[|pods| - 1]);
      if p.Some? {
        PlaceCount(PlacementOf(index, pods[..|pods| - 1]), p.value, k, n);
      }
    }
  }

  ghost predicate NoZeroCounts(pl: Counts) {
    forall k :: k in pl ==> pl[k] != map[] && forall n :: n in pl[k] ==> pl[k][n] > 0
  }

  lemma {:induction false} CountsPositive(index: ObjectIndex, pods: seq<Pod>)
    ensures NoZeroCounts(PlacementOf(index, pods))
  {
    if pods != [] {
      CountsPositive(index, pods[..|pods| - 1]);
      var p := PlaceOf(index)(pods[|pods| - 1]);
      if p.Some? {
        assert p.value.1 in PlacementOf(index, pods)[p.value.0];
      }
    }
  }

  lemma NodeIffCounted(index: ObjectIndex, pods: seq<Pod>, k: Key, n: Text)
    ensures k in PlacementOf(index, pods) && n in PlacementOf(index, pods)[k] <==> Places(index, pods)[Some((k, n))] > 0
  {
    CountsExactly(index, pods, k, n);
    CountsPositive(index, pods);
  }

  lemma SomeNode<T>(m: map<Text, T>) returns (n: Text)
    requires m != map[]
    ensures n in m
  {
    assert m.Keys != {};
    n :| n in m;
  }

  lemma SameCounts(a: Counts, b: Counts)
    requires NoZeroCounts(a) && NoZeroCounts(b)
    requires forall k, n :: CountAt(Inner(a, k), n) == CountAt(Inner(b, k), n)
    ensures a == b
  {
    forall k
      ensures k in a ==> k in b && a[k] == b[k]
      ensures k in b ==> k in a
    {
      assert forall n :: n in Inner(a, k) <==> CountAt(Inner(a, k), n) > 0;
      assert forall n :: n in Inner(b, k) <==> CountAt(Inner(b, k), n) > 0;
      if k in a { var n := SomeNode(a[k]); assert n in Inner(b, k); }
      if k in b { var n := SomeNode(b[k]); assert n in Inner(a, k); }
    }
  }

  lemma PlacementOrderFree(index: ObjectIndex, a: seq<Pod>, b: seq<Pod>)
    requires multiset(a) == multiset(b)
    ensures PlacementOf(index, a) == PlacementOf(index, b)
  {
    CountsPositive(index, a);
    CountsPositive(index, b);
    MapBag(PlaceOf(index), a, b);
    forall k, n
      ensures CountAt(Inner(PlacementOf(index, a), k), n) == CountAt(Inner(PlacementOf(index, b), k), n)
    {
      CountsExactly(index, a, k, n);
      CountsExactly(index, b, k, n);
    }
    SameCounts(PlacementOf(index, a), PlacementOf(index, b));
  }

  // ----- totals -----------------------------------------------------------------------------------

  ghost function Sum<K>(m: map<K, nat>): nat
    decreases |m|
  {
    if m == map[] then 0
    else
      var k :| k in m;
      m[k] + Sum(m - {k})
  }

  lemma {:induction false} SumRemove<K>(m: map<K, nat>, x: K)
    requires x in m
    ensures Sum(m) == m[x] + Sum(m - {x})
    decreases |m|
  {
    var k :| k in m && Sum(m) == m[k] + Sum(m - {k});
    if k != x {
      SumRemove(m - {k}, x);
      SumRemove(m - {x}, k);
      assert m - {k} - {x} == m - {x} - {k};
    }
  }

  lemma SumUpdate<K>(m: map<K, nat>, x: K, v: nat)
    ensures Sum(m[x := v]) == Sum(m) - (if x in m then m[x] else 0) + v
  {
    SumRemove(m[x := v], x);
    assert m[x := v] - {x} == m - {x};
    if x in m {
      SumRemove(m, x);
    } else {
      assert m - {x} == m;
    }
  }

  /** Scheduled pods of one workload. */
  function PodsOf(index: ObjectIndex, pods: seq<Pod>, k: Key): nat {
    if pods == [] then 0
    else
      var p := PlaceOf(index)(pods[|pods| - 1]);
      PodsOf(index, pods[..|pods| - 1], k) + if p.Some? && p.value.0 == k then 1 else 0
  }

  /** All attributable scheduled pods. */
  function ScheduledPods(index: ObjectIndex, pods: seq<Pod>): nat {
    if pods == [] then 0
    else
      ScheduledPods(index, pods[..|pods| - 1]) + if PlaceOf(index)(pods[|pods| - 1]).Some? then 1 else 0
  }

  /** The counts of a workload sum to the number of its scheduled pods. */
  lemma {:induction false} CountsSum(index: ObjectIndex, pods: seq<Pod>, k: Key)
    ensures Sum(Inner(PlacementOf(index, pods), k)) == PodsOf(index, pods, k)
  {
    if pods != [] {
      var before := PlacementOf(index, pods[..|pods| - 1]);
      CountsSum(index, pods[..|pods| - 1], k);
      var p := PlaceOf(index)(pods[|pods| - 1]);
      if p.Some? && p.value.0 == k {
        SumUpdate(Inner(before, k), p.value.1, CountAt(Inner(before, k), p.value.1) + 1);
      }
    }
  }

  ghost function Totals(pl: Counts): map<Key, nat> {
    map k | k in pl :: Sum(pl[k])
  }

  lemma TotalsPlace(pl: Counts, k: Key, n: Text)
    ensures Sum(Totals(Place(pl, k, n))) == Sum(Totals(pl)) + 1
  {
    var inner: map<Text, nat> := Inner(pl, k);
    var after: map<Text, nat> := inner[n := CountAt(inner, n) + 1];
    SumUpdate(inner, n, CountAt(inner, n) + 1);
    assert Totals(Place(pl, k, n)) == Totals(pl)[k := Sum(after)];
    SumUpdate(Totals(pl), k, Sum(after));
    assert k !in pl ==> Sum(inner) == 0;
  }

  /** Over all workloads, the counts sum to the number of attributable scheduled pods. */
  lemma {:induction false} TotalsSum(index: ObjectIndex, pods: seq<Pod>)
    ensures Sum(Totals(PlacementOf(index, pods))) == ScheduledPods(index, pods)
  {
    if pods != [] {
      TotalsSum(index, pods[..|pods| - 1]);
      var p := PlaceOf(index)(pods[|pods| - 1]);
      if p.Some? {
        TotalsPlace(PlacementOf(index, pods[..|pods| - 1]), p.value.0, p.value.1);
      }
    } else {
      assert Totals(map[]) == map[];
    }
  }

  // ----- pulled digests -------------------------------------------------------------------------------

  predicate HasDigest(pu: Digests, k: Key, c: Text, h: Text) {
    k in pu && c in pu[k] && h in pu[k][c]
  }

  predicate Says(cs: ContainerStatus, c: Text, h: Text) {
    cs.name == c && cs.imageId.Some? && PulledDigest(cs.imageId.value) == Some(h)
  }

  predicate Reports(statuses: seq<ContainerStatus>, c: Text, h: Text) {
    exists cs :: cs in statuses && Says(cs, c, h)
  }

  /** Some pod of the workload reports the digest for the container. */
  predicate PodReports(index: ObjectIndex, pods: seq<Pod>, k: Key, c: Text, h: Text) {
    exists pod :: pod in pods && OwnerOf(index, pod) == Some(k) && Reports(pod.statuses, c, h)
  }

  lemma AddDigestHas(pu: Digests, owner: Key, name: Text, d: Text, k: Key, c: Text, h: Text)
    ensures HasDigest(AddDigest(pu, owner, name, d), k, c, h)
       <==> HasDigest(pu, k, c, h) || (k == owner && c == name && h == d)
  {
  }

  lemma AddStatusHas(pu: Digests, owner: Key, cs: ContainerStatus, k: Key, c: Text, h: Text)
    ensures HasDigest(AddStatus(pu, owner, cs), k, c, h) <==> HasDigest(pu, k, c, h) || (k == owner && Says(cs, c, h))
  {
    if cs.imageId.Some? {
      var d := PulledDigest(cs.imageId.value);
      if d.Some? {
        AddDigestHas(pu, owner, cs.name, d.value, k, c, h);
      }
    }
  }

  lemma ReportsStep(statuses: seq<ContainerStatus>, c: Text, h: Text)
    requires statuses != []
    ensures Reports(statuses, c, h) <==>
            Reports(statuses[..|statuses| - 1], c, h) || Says(statuses[|statuses| - 1], c, h)
  {
    assert statuses == statuses[..|statuses| - 1] + [statuses[|statuses| - 1]];
  }

  lemma {:induction false} StatusesExactly(pu: Digests, owner: Key, statuses: seq<ContainerStatus>, k: Key,
                                           c: Text, h: Text)
    ensures HasDigest(AddStatuses(pu, owner, statuses), k, c, h)
       <==> HasDigest(pu, k, c, h) || (k == owner && Reports(statuses, c, h))
  {
    if statuses != [] {
      var n := |statuses| - 1;
      StatusesExactly(pu, owner, statuses[..n], k, c, h);
      AddStatusHas(AddStatuses(pu, owner, statuses[..n]), owner, statuses[n], k, c, h);
      ReportsStep(statuses, c, h);
    }
  }

  /** A digest is recorded for a container of a workload exactly when some pod of it reports it. */
  lemma {:induction false} PulledExactly(index: ObjectIndex, pods: seq<Pod>, k: Key, c: Text, h: Text)
    ensures HasDigest(PulledOf(index, pods), k, c, h) <==> PodReports(index, pods, k, c, h)
  {
    if pods != [] {
      var n := |pods| - 1;
      assert pods == pods[..n] + [pods[n]];
      PulledExactly(index, pods[..n], k, c, h);
      if OwnerOf(index, pods[n]).Some? {
        StatusesExactly(PulledOf(index, pods[..n]), OwnerOf(index, pods[n]).value, pods[n].statuses, k, c, h);
      }
    }
  }

  ghost predicate NoEmptyDigests(pu: Digests) {
    forall k :: k in pu ==> pu[k] != map[] && forall c :: c in pu[k] ==> pu[k][c] != {}
  }

  lemma AddKeepsNonEmpty(pu: Digests, k: Key, c: Text, h: Text)
    requires NoEmptyDigests(pu)
    ensures NoEmptyDigests(AddDigest(pu, k, c, h))
  {
    var after := AddDigest(pu, k, c, h);
    assert c in after[k] && h in after[k][c];
  }

  lemma {:induction false} StatusesNonEmpty(pu: Digests, k: Key, statuses: seq<ContainerStatus>)
    requires NoEmptyDigests(pu)
    ensures NoEmptyDigests(AddStatuses(pu, k, statuses))
  {
    if statuses != [] {
      var n := |statuses| - 1;
      StatusesNonEmpty(pu, k, statuses[..n]);
      var cs := statuses[n];
      if cs.imageId.Some? && PulledDigest(cs.imageId.value).Some? {
        AddKeepsNonEmpty(AddStatuses(pu, k, statuses[..n]), k, cs.name, PulledDigest(cs.imageId.value).value);
      }
    }
  }

  lemma {:induction false} PulledNonEmpty(index: ObjectIndex, pods: seq<Pod>)
    ensures NoEmptyDigests(PulledOf(index, pods))
  {
    if pods != [] {
      var n := |pods| - 1;
      PulledNonEmpty(index, pods[..n]);
      if OwnerOf(index, pods[n]).Some? {
        StatusesNonEmpty(PulledOf(index, pods[..n]), OwnerOf(index, pods[n]).value, pods[n].statuses);
      }
    }
  }

  lemma SameInner(a: map<Text, set<Text>>, b: map<Text, set<Text>>)
    requires forall c :: c in a ==> a[c] != {}
    requires forall c :: c in b ==> b[c] != {}
    requires forall c, h :: (c in a && h in a[c]) <==> (c in b && h in b[c])
    ensures a == b
  {
    forall c
      ensures c in a ==> c in b && a[c] == b[c]
      ensures c in b ==> c in a
    {
      if c in a { var h :| h in a[c]; assert c in b; }
      if c in b { var h :| h in b[c]; assert c in a; }
    }
  }

  lemma SameDigests(a: Digests, b: Digests)
    requires NoEmptyDigests(a) && NoEmptyDigests(b)
    requires forall k, c, h :: HasDigest(a, k, c, h) <==> HasDigest(b, k, c, h)
    ensures a == b
  {
    forall k
      ensures k in a ==> k in b && a[k] == b[k]
      ensures k in b ==> k in a
    {
      if k in a {
        var c := SomeNode(a[k]);
        var h :| h in a[k][c];
        assert HasDigest(a, k, c, h);
        assert HasDigest(b, k, c, h);
      }
      if k in b {
        var c := SomeNode(b[k]);
        var h :| h in b[k][c];
        assert HasDigest(b, k, c, h);
        assert HasDigest(a, k, c, h);
      }
      if k in a && k in b {
        forall c, h
          ensures (c in a[k] && h in a[k][c]) <==> (c in b[k] && h in b[k][c])
        {
          assert HasDigest(a, k, c, h) <==> HasDigest(b, k, c, h);
        }
        SameInner(a[k], b[k]);
      }
    }
  }

  lemma PulledOrderFree(index: ObjectIndex, a: seq<Pod>, b: seq<Pod>)
    requires multiset(a) == multiset(b)
    ensures PulledOf(index, a) == PulledOf(index, b)
  {
    PulledNonEmpty(index, a);
    PulledNonEmpty(index, b);
    forall pod: Pod
      ensures pod in a <==> pod in b
    {
      assert pod in multiset(a) <==> pod in multiset(b);
    }
    forall k, c, h
      ensures HasDigest(PulledOf(index, a), k, c, h) <==> HasDigest(PulledOf(index, b), k, c, h)
    {
      PulledExactly(index, a, k, c, h);
      PulledExactly(index, b, k, c, h);
    }
    SameDigests(PulledOf(index, a), PulledOf(index, b));
  }
}
