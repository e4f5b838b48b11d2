/** Choosing the input fragments of a rule run (`select_inputs` in reason.rs): a last-in-first-out
    worklist over fragment files that follows the IRIs a fragment mentions to the fragments that
    define them. */
module SelectInputs {
  import opened Texts
  import opened Sorting
  import opened Reachability
  import opened Hashing
  import opened Iri
  import opened Fragments
  import NQuads
  import NTriples

  /** Predicates followed with the outputs of each derivation added. */
  function BuildPredicates(): seq<Text> {
    [NIX_NS + "closureContains", NIX_NS + "hasRoot", NIX_NS + "snapshot", NIX_NS + "inputSrc",
     NIX_NS + "imageDerivation"]
  }

  /** Predicates followed as they are. */
  function RuntimePredicates(): seq<Text> {
    [K8S_NS + "runsImage", K8S_NS + "hostGeneration"]
  }

  /** A store: its root directory and the fragment files in it, by path. */
  datatype Store = Store(root: Text, files: map<Text, Text>) {
    function PathOf(k: Kind): Text {
      Join(root, RelativePath(k))
    }
  }

  function Join(root: Text, p: Text): Text {
    root + "/" + p
  }

  /** How the worklist reads a path: relative ones are taken to be store-relative. */
  function Abs(root: Text, p: Text): Text {
    if StartsWith(p, "/") then p else Join(root, p)
  }

  predicate AbsoluteRoot(root: Text) {
    StartsWith(root, "/")
  }

  datatype SelectError = EmptyFragment(path: Text)

  // ----- references of one fragment ---------------------------------------------------

  ghost function ObjectsOfAny(nquads: Text, preds: seq<Text>): set<Text> {
    if preds == [] then {} else NQuads.Objects(nquads, preds[0]) + ObjectsOfAny(nquads, preds[1..])
  }

  function KindsOf(iri: Text, withOutputs: bool): seq<Kind> {
    match FragmentForIri(iri)
    case None => []
    case Some(k) => if withOutputs && k.Drv? then [Out(k.h), k] else [k]
  }

  ghost function KindsOfAll(iris: set<Text>, withOutputs: bool): set<Kind> {
    set o, k | o in iris && k in KindsOf(o, withOutputs) :: k
  }

  ghost function References(nquads: Text): set<Kind> {
    KindsOfAll(ObjectsOfAny(nquads, BuildPredicates()), true)
    + KindsOfAll(ObjectsOfAny(nquads, RuntimePredicates()), false)
  }

  lemma {:induction false} ObjectsOfAnyAppend(nquads: Text, preds: seq<Text>, p: Text)
    ensures ObjectsOfAny(nquads, preds + [p]) == ObjectsOfAny(nquads, preds) + NQuads.Objects(nquads, p)
  {
    if preds == [] {
      assert preds + [p] == [p];
    } else {
      assert (preds + [p])[1..] == preds[1..] + [p];
      ObjectsOfAnyAppend(nquads, preds[1..], p);
    }
  }

  method KindsOfObjects(iris: set<Text>, withOutputs: bool) returns (refs: seq<Kind>)
    ensures Elements(refs) == KindsOfAll(iris, withOutputs)
  {
    refs := [];
    var ordered := InOrder(iris);
    for j := 0 to |ordered|
      invariant Elements(refs) == KindsOfAll(Elements(ordered[..j]), withOutputs)
    {
      assert ordered[..j + 1] == ordered[..j] + [ordered[j]];
      KindsOfAllAdd(Elements(ordered[..j]), ordered[j], withOutputs);
      assert Elements(ordered[..j + 1]) == Elements(ordered[..j]) + {ordered[j]};
      ElementsAppend(refs, KindsOf(ordered[j], withOutputs));
      refs := refs + KindsOf(ordered[j], withOutputs);
    }
    assert ordered[..|ordered|] == ordered;
  }

  lemma MentionedStep(nquads: Text, preds: seq<Text>, i: nat, withOutputs: bool)
    requires i < |preds|
    ensures KindsOfAll(ObjectsOfAny(nquads, preds[..i + 1]), withOutputs)
         == KindsOfAll(ObjectsOfAny(nquads, preds[..i]), withOutputs)
            + KindsOfAll(NQuads.Objects(nquads, preds[i]), withOutputs)
  {
    assert preds[..i + 1] == preds[..i] + [preds[i]];
    ObjectsOfAnyAppend(nquads, preds[..i], preds[i]);
    KindsOfAllUnion(ObjectsOfAny(nquads, preds[..i]), NQuads.Objects(nquads, preds[i]), withOutputs);
  }

  method KindsMentioned(nquads: Text, preds: seq<Text>, withOutputs: bool) returns (refs: seq<Kind>)
    ensures Elements(refs) == KindsOfAll(ObjectsOfAny(nquads, preds), withOutputs)
  {
    refs := [];
    for i := 0 to |preds|
      invariant Elements(refs) == KindsOfAll(ObjectsOfAny(nquads, preds[..i]), withOutputs)
    {
      var objects := NQuads.ObjectsOf(nquads, preds[i]);
      var more := KindsOfObjects(objects, withOutputs);
      MentionedStep(nquads, preds, i, withOutputs);
      ElementsAppend(refs, more);
      refs := refs + more;
    }
    assert preds[..|preds|] == preds;
  }

  lemma ElementsAppend<T>(a: seq<T>, b: seq<T>)
    ensures Elements(a + b) == Elements(a) + Elements(b)
  {
  }

  lemma KindsOfAllUnion(a: set<Text>, b: set<Text>, withOutputs: bool)
    ensures KindsOfAll(a + b, withOutputs) == KindsOfAll(a, withOutputs) + KindsOfAll(b, withOutputs)
  {
  }

  lemma KindsOfAllAdd(a: set<Text>, o: Text, withOutputs: bool)
    ensures KindsOfAll(a + {o}, withOutputs) == KindsOfAll(a, withOutputs) + Elements(KindsOf(o, withOutputs))
  {
    forall k
      ensures k in KindsOfAll(a + {o}, withOutputs)
         <==> k in KindsOfAll(a, withOutputs) || k in KindsOf(o, withOutputs)
    {
    }
  }

  method CollectReferences(nquads: Text) returns (refs: seq<Kind>)
    ensures Elements(refs) == References(nquads)
  {
    var build := KindsMentioned(nquads, BuildPredicates(), true);
    var runtime := KindsMentioned(nquads, RuntimePredicates(), false);
    ElementsAppend(build, runtime);
    refs := build + runtime;
  }

  // ----- what is to be selected ---------------------------------------------------------

  /** What closure following knows of a file: its graph IRI, and the paths its references name. */
  datatype Info = Info(graph: Option<Text>, refs: set<Text>)

  datatype Net = Net(root: Text, infos: map<Text, Info>)

  ghost function InfoOf(store: Store, nquads: Text): Info {
    Info(NQuads.GraphOf(nquads), set k | k in References(nquads) :: store.PathOf(k))
  }

  ghost function NetOf(store: Store): Net {
    Net(store.root, map p | p in store.files :: InfoOf(store, store.files[p]))
  }

  /** Files lie under the root, and a relative store does not contain a copy of its own path. */
  ghost predicate Valid(n: Net) {
    && n.root != []
    && (forall p :: p in n.infos ==> StartsWith(p, Join(n.root, "")))
    && (!AbsoluteRoot(n.root) ==> forall p :: p in n.infos ==> Join(n.root, p) !in n.infos)
  }

  /** Under an absolute root stored paths are read as they are; under a relative root they are
      joined once more and found missing. */
  lemma AbsOfStored(n: Net, p: Text)
    requires Valid(n) && p in n.infos
    ensures if AbsoluteRoot(n.root) then Abs(n.root, p) == p else Abs(n.root, p) !in n.infos
  {
    assert p[0] == Join(n.root, "")[0] == n.root[0];
  }

  /** From one present file to the present files its references lead to. */
  ghost function Follows(n: Net): Edges<Text> {
    iset p, q | p in n.infos && q in n.infos[p].refs && q in n.infos && Abs(n.root, q) in n.infos :: (p, Abs(n.root, q))
  }

  ghost predicate Seed(n: Net, queue: seq<Text>, p: Text) {
    p in n.infos && exists q :: q in queue && Abs(n.root, q) == p
  }

  ghost predicate LeadsTo(n: Net, follow: bool, s: Text, p: Text) {
    if follow then Reach(Follows(n), s, p) else p == s
  }

  ghost predicate IsWanted(n: Net, queue: seq<Text>, follow: bool, p: Text) {
    exists s :: Seed(n, queue, s) && LeadsTo(n, follow, s, p)
  }

  /** The least set of present fragments that holds the seeds and, when following, is closed under
      references. */
  ghost function Wanted(n: Net, queue: seq<Text>, follow: bool): iset<Text> {
    iset p | IsWanted(n, queue, follow, p)
  }

  ghost predicate SortedByGraph(out: seq<InputGraph>) {
    forall i, j :: 0 <= i < j < |out| ==> Less(out[i].graph, out[j].graph)
  }

  /** Every input holds the text of its file. */
  ghost predicate AllRead(store: Store, inputs: set<InputGraph>) {
    forall ig :: ig in inputs ==> ig.path in store.files && ig.nquads == store.files[ig.path]
  }

  ghost predicate HasGraph(n: Net, p: Text, g: Text) {
    p in n.infos && n.infos[p].graph == Some(g)
  }

  ghost function GraphSet(out: seq<InputGraph>): set<Text> {
    set ig | ig in out :: ig.graph
  }

  /** One input per graph IRI of the wanted files, in graph order, each read from a wanted file. */
  ghost predicate IsSelection(n: Net, wanted: iset<Text>, out: seq<InputGraph>) {
    && SortedByGraph(out)
    && (forall ig :: ig in out ==> ig.path in wanted && HasGraph(n, ig.path, ig.graph))
    && (forall p :: p in wanted ==> p in n.infos && n.infos[p].graph.Some? && n.infos[p].graph.value in GraphSet(out))
  }

  // ----- the worklist -----------------------------------------------------------------------

  /** A reference of a processed file is processed too or still queued. */
  ghost predicate Pending(n: Net, queue: seq<Text>, seen: set<Text>, q: Text) {
    q in n.infos && Abs(n.root, q) in n.infos ==> Abs(n.root, q) in seen || q in queue
  }

  /** Every processed file was wanted, and everything wanted is processed or can be reached through
      the queue. */
  ghost predicate Progress(n: Net, queue0: seq<Text>, follow: bool, queue: seq<Text>, seen: set<Text>) {
    && (forall p :: p in seen && p in n.infos ==> p in Wanted(n, queue0, follow))
    && (forall q :: q in queue && Abs(n.root, q) in n.infos ==> Abs(n.root, q) in Wanted(n, queue0, follow))
    && (forall q :: q in queue0 ==> Abs(n.root, q) in seen || q in queue)
    && (follow ==> forall p, q :: p in seen && p in n.infos && q in n.infos[p].refs ==> Pending(n, queue, seen, q))
  }

  /** Every file processed so far is represented in the result map, and nothing else is. */
  ghost predicate Represented(n: Net, seen: set<Text>, byGraph: map<Text, InputGraph>) {
    && (forall g :: g in byGraph ==>
          byGraph[g].graph == g && byGraph[g].path in seen && HasGraph(n, byGraph[g].path, g))
    && (forall p :: p in seen && p in n.infos ==> n.infos[p].graph.Some? && n.infos[p].graph.value in byGraph)
  }

  ghost predicate Bounded(n: Net, universe: set<Text>, queue: seq<Text>, seen: set<Text>) {
    seen <= universe && forall q :: q in queue ==> Abs(n.root, q) in universe
  }

  lemma WantedClosed(n: Net, queue0: seq<Text>, p: Text, q: Text)
    requires p in Wanted(n, queue0, true) && p in n.infos && q in n.infos[p].refs
    requires q in n.infos && Abs(n.root, q) in n.infos
    ensures Abs(n.root, q) in Wanted(n, queue0, true)
  {
    var s :| Seed(n, queue0, s) && LeadsTo(n, true, s, p);
    ReachStep(Follows(n), s, p, Abs(n.root, q));
    assert LeadsTo(n, true, s, Abs(n.root, q));
  }

  /** With the queue empty, everything wanted has been processed. */
  lemma WantedSeen(n: Net, queue0: seq<Text>, follow: bool, seen: set<Text>, p: Text)
    requires Progress(n, queue0, follow, [], seen)
    requires p in Wanted(n, queue0, follow)
    ensures p in seen && p in n.infos
  {
    var s :| Seed(n, queue0, s) && LeadsTo(n, follow, s, p);
    if follow {
      var done := iset x | x in seen && x in n.infos;
      forall x, y | x in done && (x, y) in Follows(n)
        ensures y in done
      {
        var q :| q in n.infos[x].refs && q in n.infos && Abs(n.root, q) in n.infos && y == Abs(n.root, q);
        assert Pending(n, [], seen, q);
      }
      ReachInduct(Follows(n), done, s, p);
    }
  }

  ghost predicate Pushed(n: Net, queue: seq<Text>, seen: set<Text>, abs: Text, follow: bool, queue': seq<Text>) {
    if abs in n.infos && follow then
      forall q :: q in queue' <==> (q in queue || (q in n.infos && q !in seen && q in n.infos[abs].refs))
    else queue' == queue
  }

  /** One turn of the loop keeps track of what is left to do. */
  lemma ProgressStep(n: Net, queue0: seq<Text>, follow: bool, queue: seq<Text>, seen: set<Text>, p: Text,
                     queue': seq<Text>)
    requires Valid(n) && Progress(n, queue0, follow, queue + [p], seen)
    requires if Abs(n.root, p) in seen then queue' == queue
             else Pushed(n, queue, seen + {Abs(n.root, p)}, Abs(n.root, p), follow, queue')
    ensures Progress(n, queue0, follow, queue', seen + {Abs(n.root, p)})
  {
    var abs := Abs(n.root, p);
    assert p in queue + [p];
    assert forall q :: q in queue ==> q in queue + [p];
    forall q | q in queue' && Abs(n.root, q) in n.infos
      ensures Abs(n.root, q) in Wanted(n, queue0, follow)
    {
      if q !in queue {
        WantedClosed(n, queue0, abs, q);
      }
    }
    if follow {
      forall x, q | x in seen + {abs} && x in n.infos && q in n.infos[x].refs
        ensures Pending(n, queue', seen + {abs}, q)
      {
        if q in n.infos && Abs(n.root, q) in n.infos {
          AbsOfStored(n, q);
          assert x in seen ==> Pending(n, queue + [p], seen, q);
        }
      }
    }
  }

  lemma RepresentedStep(n: Net, seen: set<Text>, byGraph: map<Text, InputGraph>, ig: InputGraph)
    requires Represented(n, seen, byGraph) && HasGraph(n, ig.path, ig.graph)
    ensures Represented(n, seen + {ig.path}, byGraph[ig.graph := ig])
  {
  }

  lemma SeedsWanted(n: Net, queue0: seq<Text>, follow: bool)
    ensures Progress(n, queue0, follow, queue0, {})
  {
    forall q | q in queue0 && Abs(n.root, q) in n.infos
      ensures Abs(n.root, q) in Wanted(n, queue0, follow)
    {
      assert Seed(n, queue0, Abs(n.root, q));
      ReachRefl(Follows(n), Abs(n.root, q));
      assert LeadsTo(n, follow, Abs(n.root, q), Abs(n.root, q));
    }
  }

  lemma SelectionComplete(n: Net, queue0: seq<Text>, follow: bool, seen: set<Text>,
                          byGraph: map<Text, InputGraph>, out: seq<InputGraph>)
    requires Progress(n, queue0, follow, [], seen) && Represented(n, seen, byGraph)
    requires SortedByGraph(out)
    requires forall ig :: ig in out <==> ig in byGraph.Values
    ensures IsSelection(n, Wanted(n, queue0, follow), out)
  {
    forall ig | ig in out
      ensures ig.path in Wanted(n, queue0, follow) && HasGraph(n, ig.path, ig.graph)
    {
      var g :| g in byGraph && byGraph[g] == ig;
    }
    forall p | p in Wanted(n, queue0, follow)
      ensures p in n.infos && n.infos[p].graph.Some? && n.infos[p].graph.value in GraphSet(out)
    {
      WantedSeen(n, queue0, follow, seen, p);
      var ig := byGraph[n.infos[p].graph.value];
      assert ig in byGraph.Values && ig in out;
    }
  }

  /** The values of a map in key order. */
  method IntoValues(byGraph: map<Text, InputGraph>) returns (out: seq<InputGraph>)
    requires forall g :: g in byGraph ==> byGraph[g].graph == g
    ensures SortedByGraph(out)
    ensures forall ig :: ig in out <==> ig in byGraph.Values
  {
    var keys := InOrder(byGraph.Keys);
    InOrderSorted(byGraph.Keys);
    assert forall k :: k in keys <==> k in Elements(keys);
    out := [];
    for i := 0 to |keys|
      invariant |out| == i
      invariant forall j :: 0 <= j < i ==> keys[j] in byGraph && out[j] == byGraph[keys[j]]
    {
      assert keys[i] in Elements(keys);
      out := out + [byGraph[keys[i]]];
    }
    ValuesInOrder(byGraph, keys, out);
  }

  lemma ValuesInOrder(byGraph: map<Text, InputGraph>, keys: seq<Text>, out: seq<InputGraph>)
    requires forall g :: g in byGraph ==> byGraph[g].graph == g
    requires Elements(keys) == byGraph.Keys && Sorted(LessEq, keys) && Distinct(keys)
    requires |out| == |keys| && forall j :: 0 <= j < |keys| ==> keys[j] in byGraph && out[j] == byGraph[keys[j]]
    ensures SortedByGraph(out)
    ensures forall ig :: ig in out <==> ig in byGraph.Values
  {
    forall ig
      ensures ig in out <==> ig in byGraph.Values
    {
      if ig in byGraph.Values {
        var g :| g in byGraph && byGraph[g] == ig;
        assert g in Elements(keys);
        var j :| 0 <= j < |keys| && keys[j] == g;
        assert out[j] == ig;
      }
    }
    forall i, j | 0 <= i < j < |out|
      ensures Less(out[i].graph, out[j].graph)
    {
      assert LessEq(keys[i], keys[j]) && keys[i] != keys[j];
    }
  }

  method PushReferences(store: Store, refs: seq<Kind>, seen: set<Text>, queue: seq<Text>) returns (queue': seq<Text>)
    ensures forall q :: q in queue' <==>
              (q in queue || (q in store.files && q !in seen && exists k :: k in refs && store.PathOf(k) == q))
  {
    queue' := queue;
    for i := 0 to |refs|
      invariant forall q :: q in queue' <==>
        (q in queue || (q in store.files && q !in seen && exists k :: k in refs[..i] && store.PathOf(k) == q))
    {
      assert refs[..i + 1] == refs[..i] + [refs[i]];
      var path := store.PathOf(refs[i]);
      if path in store.files && path !in seen {
        queue' := queue' + [path];
      }
    }
    assert refs[..|refs|] == refs;
  }

  /** Push the references of one file that exist and have not been seen. */
  method FollowFile(store: Store, abs: Text, seen: set<Text>, queue: seq<Text>) returns (queue': seq<Text>)
    requires abs in store.files
    ensures Pushed(NetOf(store), queue, seen, abs, true, queue')
  {
    var refs := CollectReferences(store.files[abs]);
    queue' := PushReferences(store, refs, seen, queue);
    assert forall k :: k in refs <==> k in Elements(refs);
  }

  lemma NetHas(store: Store, p: Text)
    ensures p in NetOf(store).infos <==> p in store.files
    ensures p in store.files ==> NetOf(store).infos[p].graph == NQuads.GraphOf(store.files[p])
    ensures NetOf(store).root == store.root
  {
  }

  /** Read one present file, record it under its graph and push what it leads to. */
  method ProcessFile(store: Store, abs: Text, follow: bool, ghost before: set<Text>, seen: set<Text>,
                     queue: seq<Text>, byGraph: map<Text, InputGraph>)
    returns (r: Result<(seq<Text>, map<Text, InputGraph>), SelectError>)
    requires abs in store.files && seen == before + {abs}
    requires Represented(NetOf(store), before, byGraph) && AllRead(store, byGraph.Values)
    ensures r.Err? ==> r.error.path == abs && NQuads.GraphOf(store.files[abs]).None?
    ensures r.Ok? ==> Pushed(NetOf(store), queue, seen, abs, follow, r.value.0)
                      && Represented(NetOf(store), seen, r.value.1) && AllRead(store, r.value.1.Values)
  {
    NetHas(store, abs);
    var graph := NQuads.GraphOf(store.files[abs]);
    if graph.None? {
      return Err(EmptyFragment(abs));
    }
    var queue' := PushFollowed(store, abs, follow, seen, queue);
    var ig := InputGraph(graph.value, abs, store.files[abs]);
    RepresentedStep(NetOf(store), before, byGraph, ig);
    r := Ok((queue', byGraph[graph.value := ig]));
  }

  method PushFollowed(store: Store, abs: Text, follow: bool, seen: set<Text>, queue: seq<Text>)
    returns (queue': seq<Text>)
    requires abs in store.files
    ensures Pushed(NetOf(store), queue, seen, abs, follow, queue')
  {
    queue' := queue;
    if follow {
      queue' := FollowFile(store, abs, seen, queue);
    }
  }

  /** One turn of the worklist: skip a path seen before, note a missing file, process a present one. */
  method VisitPath(store: Store, p: Text, follow: bool, queue: seq<Text>, seen: set<Text>,
                   byGraph: map<Text, InputGraph>)
    returns (r: Result<(seq<Text>, set<Text>, map<Text, InputGraph>), SelectError>)
    requires Represented(NetOf(store), seen, byGraph) && AllRead(store, byGraph.Values)
    ensures r.Err? ==> r.error.path == Abs(store.root, p) && r.error.path in store.files
                       && NQuads.GraphOf(store.files[r.error.path]).None?
    ensures r.Ok? ==> var n, abs := NetOf(store), Abs(store.root, p);
              && r.value.1 == seen + {abs}
              && (if abs in seen then r.value.0 == queue else Pushed(n, queue, seen + {abs}, abs, follow, r.value.0))
              && Represented(n, r.value.1, r.value.2) && AllRead(store, r.value.2.Values)
  {
    var abs := Abs(store.root, p);
    if abs in seen {
      assert seen + {abs} == seen;
      return Ok((queue, seen, byGraph));
    }
    NetHas(store, abs);
    if abs !in store.files {
      return Ok((queue, seen + {abs}, byGraph));
    }
    var step := ProcessFile(store, abs, follow, seen, seen + {abs}, queue, byGraph);
    if step.Err? {
      return Err(step.error);
    }
    r := Ok((step.value.0, seen + {abs}, step.value.1));
  }

  lemma QueuedWanted(n: Net, queue0: seq<Text>, follow: bool, queue: seq<Text>, seen: set<Text>, p: Text)
    requires Progress(n, queue0, follow, queue, seen) && p in queue && Abs(n.root, p) in n.infos
    ensures Abs(n.root, p) in Wanted(n, queue0, follow)
  {
  }

  method SelectFrom(store: Store, queue0: seq<Text>, follow: bool) returns (r: Result<seq<InputGraph>, SelectError>)
    requires Valid(NetOf(store))
    ensures r.Err? ==> r.error.path in Wanted(NetOf(store), queue0, follow)
                       && r.error.path in store.files && NQuads.GraphOf(store.files[r.error.path]).None?
    ensures r.Ok? ==> IsSelection(NetOf(store), Wanted(NetOf(store), queue0, follow), r.value)
                      && AllRead(store, Elements(r.value))
  {
    ghost var n := NetOf(store);
    var byGraph: map<Text, InputGraph> := map[];
    var queue := queue0;
    var seen: set<Text> := {};
    ghost var universe := (set q | q in queue0 :: Abs(n.root, q)) + (set p | p in n.infos :: Abs(n.root, p));
    SeedsWanted(n, queue0, follow);
    while queue != []
      invariant Progress(n, queue0, follow, queue, seen)
      invariant Represented(n, seen, byGraph) && AllRead(store, byGraph.Values)
      invariant Bounded(n, universe, queue, seen)
      decreases universe - seen, |queue|
    {
      var p := queue[|queue| - 1];
      ghost var whole, before := queue, seen;
      queue := queue[..|queue| - 1];
      assert whole == queue + [p] && p in whole;
      ghost var rest := queue;
      var step := VisitPath(store, p, follow, queue, seen, byGraph);
      NetHas(store, Abs(store.root, p));
      if step.Err? {
        QueuedWanted(n, queue0, follow, whole, before, p);
        return Err(step.error);
      }
      queue, seen, byGraph := step.value.0, step.value.1, step.value.2;
      ProgressStep(n, queue0, follow, rest, before, p, queue);
      BoundedStep(n, universe, whole, rest, before, seen, p, follow, queue);
      if Abs(store.root, p) !in before { Shrinks(universe, before, Abs(store.root, p)); }
    }
    var out := IntoValues(byGraph);
    SelectionComplete(n, queue0, follow, seen, byGraph, out);
    r := Ok(out);
  }

  lemma Shrinks(universe: set<Text>, seen: set<Text>, x: Text)
    requires x in universe && x !in seen
    ensures universe - (seen + {x}) < universe - seen
  {
    assert x in universe - seen && x !in universe - (seen + {x});
  }

  lemma BoundedStep(n: Net, universe: set<Text>, whole: seq<Text>, rest: seq<Text>, before: set<Text>, seen: set<Text>,
                    p: Text, follow: bool, queue: seq<Text>)
    requires Bounded(n, universe, whole, before) && whole == rest + [p] && seen == before + {Abs(n.root, p)}
    requires forall q :: q in n.infos ==> Abs(n.root, q) in universe
    requires queue == rest || Pushed(n, rest, seen, Abs(n.root, p), follow, queue)
    ensures Bounded(n, universe, queue, seen)
  {
    assert p in whole;
    assert forall q :: q in rest ==> q in whole;
  }

  // ----- the whole operation ------------------------------------------------------------------

  datatype InputSelection = InputSelection(paths: seq<Text>, roots: seq<Text>, closure: bool, allSnapshots: bool,
                                           everything: bool)

  function FragmentPathsUnder(store: Store, sub: Text): seq<Text> {
    InOrder(set p | p in store.files && StartsWith(p, Join(store.root, sub) + "/"))
  }

  function AllUnder(store: Store, subs: seq<Text>): seq<Text> {
    if subs == [] then [] else FragmentPathsUnder(store, subs[0]) + AllUnder(store, subs[1..])
  }

  function RootPaths(store: Store, roots: seq<Text>): seq<Text> {
    if roots == [] then []
    else
      (match FragmentForIri(roots[0])
       case Some(k) => [store.PathOf(k)]
       case None => []) + RootPaths(store, roots[1..])
  }

  function InitialQueue(store: Store, sel: InputSelection): seq<Text> {
    if sel.everything then InOrder(store.files.Keys)
    else
      sel.paths
      + (if sel.allSnapshots then AllUnder(store, SNAPSHOT_KINDS) else [])
      + RootPaths(store, sel.roots)
  }

  method SelectInputs(store: Store, sel: InputSelection) returns (r: Result<seq<InputGraph>, SelectError>)
    requires Valid(NetOf(store))
    ensures
      var n, wanted := NetOf(store), Wanted(NetOf(store), InitialQueue(store, sel), sel.closure && !sel.everything);
      match r
      case Err(EmptyFragment(p)) => p in wanted && p in store.files && NQuads.GraphOf(store.files[p]).None?
      case Ok(out) => IsSelection(n, wanted, out) && AllRead(store, Elements(out))
  {
    r := SelectFrom(store, InitialQueue(store, sel), sel.closure && !sel.everything);
  }

  // ----- order does not matter ------------------------------------------------------------------

  /** No two wanted files claim the same graph. */
  ghost predicate GraphsDistinct(n: Net, wanted: iset<Text>) {
    forall p, q :: p in wanted && q in wanted && p in n.infos && q in n.infos && n.infos[p].graph == n.infos[q].graph
                   ==> p == q
  }

  /** With distinct graphs the selection is one input for each wanted file, no more and no less. */
  lemma SelectionExact(store: Store, wanted: iset<Text>, out: seq<InputGraph>, p: Text)
    requires IsSelection(NetOf(store), wanted, out) && AllRead(store, Elements(out))
    requires GraphsDistinct(NetOf(store), wanted)
    ensures p in wanted <==> exists ig :: ig in out && ig.path == p
  {
    var n := NetOf(store);
    if p in wanted {
      var g := n.infos[p].graph.value;
      assert g in GraphSet(out);
      var ig :| ig in out && ig.graph == g;
      assert HasGraph(n, ig.path, ig.graph);
    }
  }

  lemma SelectionMember(store: Store, wanted: iset<Text>, a: seq<InputGraph>, b: seq<InputGraph>, ig: InputGraph)
    requires IsSelection(NetOf(store), wanted, a) && AllRead(store, Elements(a))
    requires IsSelection(NetOf(store), wanted, b) && AllRead(store, Elements(b))
    requires GraphsDistinct(NetOf(store), wanted) && ig in a
    ensures ig in b
  {
    var n := NetOf(store);
    SelectionExact(store, wanted, b, ig.path);
    var other :| other in b && other.path == ig.path;
    assert HasGraph(n, ig.path, ig.graph) && HasGraph(n, other.path, other.graph);
    assert ig in Elements(a) && other in Elements(b);
  }

  lemma SameSorted(a: seq<InputGraph>, b: seq<InputGraph>)
    requires SortedByGraph(a) && SortedByGraph(b)
    requires forall ig :: ig in a <==> ig in b
    ensures a == b
  {
    var lt := (x: InputGraph, y: InputGraph) => Less(x.graph, y.graph);
    forall x, y | lt(x, y)
      ensures !lt(y, x)
    {
      LessAsymmetric(x.graph, y.graph);
    }
    IncreasingUnique(lt, a, b);
  }

  /** The same files in any order of the initial queue give the same inputs in the same order. */
  lemma SelectionOrderFree(store: Store, queueA: seq<Text>, queueB: seq<Text>, follow: bool,
                           a: seq<InputGraph>, b: seq<InputGraph>)
    requires Elements(queueA) == Elements(queueB)
    requires GraphsDistinct(NetOf(store), Wanted(NetOf(store), queueA, follow))
    requires IsSelection(NetOf(store), Wanted(NetOf(store), queueA, follow), a) && AllRead(store, Elements(a))
    requires IsSelection(NetOf(store), Wanted(NetOf(store), queueB, follow), b) && AllRead(store, Elements(b))
    ensures a == b
  {
    var n := NetOf(store);
    WantedSameSeeds(n, queueA, queueB, follow);
    forall ig
      ensures ig in a <==> ig in b
    {
      if ig in a { SelectionMember(store, Wanted(n, queueA, follow), a, b, ig); }
      if ig in b { SelectionMember(store, Wanted(n, queueA, follow), b, a, ig); }
    }
    SameSorted(a, b);
  }

  lemma WantedSameSeeds(n: Net, queueA: seq<Text>, queueB: seq<Text>, follow: bool)
    requires Elements(queueA) == Elements(queueB)
    ensures Wanted(n, queueA, follow) == Wanted(n, queueB, follow)
  {
    forall s
      ensures Seed(n, queueA, s) <==> Seed(n, queueB, s)
    {
      assert forall q :: q in queueA <==> q in Elements(queueA);
      assert forall q :: q in queueB <==> q in Elements(queueB);
    }
    forall p
      ensures p in Wanted(n, queueA, follow) <==> p in Wanted(n, queueB, follow)
    {
    }
  }

  // ----- graphs are distinct because paths are --------------------------------------------------

  /** Every file is at the path of a fragment and holds that fragment's graph. */
  ghost predicate HoldsFragments(store: Store) {
    forall p :: p in store.files ==> exists k :: IsFragmentAt(store, p, k)
  }

  ghost predicate IsFragmentAt(store: Store, p: Text, k: Kind) {
    p in store.files && Nameable(k) && p == store.PathOf(k) && NQuads.GraphOf(store.files[p]) == Some(Graph(k))
  }

  /** Then no two files hold the same graph. */
  lemma FragmentGraphsDistinct(store: Store, wanted: iset<Text>)
    requires HoldsFragments(store)
    ensures GraphsDistinct(NetOf(store), wanted)
  {
    var n := NetOf(store);
    forall p, q | p in n.infos && q in n.infos && n.infos[p].graph == n.infos[q].graph
      ensures p == q
    {
      var j :| IsFragmentAt(store, p, j);
      var k :| IsFragmentAt(store, q, k);
      GraphInjective(j, k);
    }
  }

  // ----- absolute and relative store roots --------------------------------------------------------

  /** Selecting everything selects everything exactly when the store root is absolute: under a
      relative root, the listed paths are joined to the root a second time and not found. */
  lemma EverythingExactly(n: Net)
    requires Valid(n)
    ensures (forall p :: p in n.infos ==> p in Wanted(n, InOrder(n.infos.Keys), false))
       <==> AbsoluteRoot(n.root) || n.infos == map[]
  {
    var queue := InOrder(n.infos.Keys);
    assert forall q :: q in queue <==> q in Elements(queue);
    forall p | p in n.infos
      ensures p in Wanted(n, queue, false) <==> AbsoluteRoot(n.root)
    {
      AbsOfStored(n, p);
      if AbsoluteRoot(n.root) {
        assert Seed(n, queue, p) && LeadsTo(n, false, p, p);
      } else {
        forall q | q in queue
          ensures Abs(n.root, q) != p
        {
          AbsOfStored(n, q);
        }
      }
    }
    if n.infos != map[] {
      var p :| p in n.infos;
    }
  }

  /** The references between present files, as the fragments state them. */
  ghost function Refs(n: Net): Edges<Text> {
    iset p, q | p in n.infos && q in n.infos && q in n.infos[p].refs :: (p, q)
  }

  ghost predicate ClosedUnderRefs(n: Net, s: iset<Text>) {
    forall p, q :: p in s && (p, q) in Refs(n) ==> q in s
  }

  ghost function Seeds(n: Net, queue: seq<Text>): iset<Text> {
    iset p | Seed(n, queue, p)
  }

  /** Under an absolute root, following is following references. */
  lemma AbsoluteFollowsRefs(n: Net)
    requires Valid(n) && AbsoluteRoot(n.root)
    ensures Follows(n) == Refs(n)
  {
    forall q | q in n.infos
      ensures Abs(n.root, q) == q
    {
      AbsOfStored(n, q);
    }
    forall e
      ensures e in Follows(n) <==> e in Refs(n)
    {
    }
  }

  /** Under an absolute root, what is wanted is the least set that holds the seeds and is closed under
      references. */
  lemma WantedIsLeastClosed(n: Net, queue: seq<Text>, s: iset<Text>)
    requires Valid(n) && AbsoluteRoot(n.root)
    ensures Seeds(n, queue) <= Wanted(n, queue, true) && ClosedUnderRefs(n, Wanted(n, queue, true))
    ensures Seeds(n, queue) <= s && ClosedUnderRefs(n, s) ==> Wanted(n, queue, true) <= s
  {
    AbsoluteFollowsRefs(n);
    forall p | Seed(n, queue, p)
      ensures p in Wanted(n, queue, true)
    {
      ReachRefl(Follows(n), p);
      assert LeadsTo(n, true, p, p);
    }
    forall p, q | p in Wanted(n, queue, true) && (p, q) in Refs(n)
      ensures q in Wanted(n, queue, true)
    {
      var r :| Seed(n, queue, r) && LeadsTo(n, true, r, p);
      ReachStep(Follows(n), r, p, q);
      assert LeadsTo(n, true, r, q);
    }
    if Seeds(n, queue) <= s && ClosedUnderRefs(n, s) {
      forall p | p in Wanted(n, queue, true)
        ensures p in s
      {
        var r :| Seed(n, queue, r) && LeadsTo(n, true, r, p);
        assert r in Seeds(n, queue);
        ReachInduct(Refs(n), s, r, p);
      }
    }
  }

  /** Under a relative root, closure following finds nothing beyond the paths given. */
  lemma RelativeRootFollowsNothing(n: Net, queue: seq<Text>)
    requires Valid(n) && !AbsoluteRoot(n.root)
    ensures Wanted(n, queue, true) == Seeds(n, queue) && Wanted(n, queue, false) == Seeds(n, queue)
  {
    forall q | q in n.infos
      ensures Abs(n.root, q) !in n.infos
    {
      AbsOfStored(n, q);
    }
    forall p
      ensures p in Wanted(n, queue, true) <==> Seed(n, queue, p)
      ensures p in Wanted(n, queue, false) <==> Seed(n, queue, p)
    {
      if p in Wanted(n, queue, true) {
        var s :| Seed(n, queue, s) && LeadsTo(n, true, s, p);
        ReachInduct(Follows(n), iset{s}, s, p);
      }
      if Seed(n, queue, p) {
        ReachRefl(Follows(n), p);
        assert LeadsTo(n, true, p, p) && LeadsTo(n, false, p, p);
      }
    }
  }

  /** A closure selection is closed under the references of the fragments exactly when the store root
      is absolute or the files selected to begin with are closed already. */
  lemma ClosureClosedExactly(n: Net, queue: seq<Text>)
    requires Valid(n)
    ensures ClosedUnderRefs(n, Wanted(n, queue, true)) <==> AbsoluteRoot(n.root) || ClosedUnderRefs(n, Seeds(n, queue))
  {
    if AbsoluteRoot(n.root) {
      WantedIsLeastClosed(n, queue, iset{});
    } else {
      RelativeRootFollowsNothing(n, queue);
    }
  }

  // ----- a reference that is lost -----------------------------------------------------------------

  function InputOf(store: Store, k: Kind): InputGraph
    requires store.PathOf(k) in store.files
  {
    InputGraph(Graph(k), store.PathOf(k), store.files[store.PathOf(k)])
  }

  /** Two fragments in a store with a relative root, the first of which refers to the second. */
  ghost predicate Refers(store: Store, j: Kind, k: Kind) {
    && Valid(NetOf(store)) && !AbsoluteRoot(store.root) && !AbsoluteRoot(RelativePath(j)) && j != k
    && IsFragmentAt(store, store.PathOf(j), j) && IsFragmentAt(store, store.PathOf(k), k)
    && k in References(store.files[store.PathOf(j)])
  }

  lemma PathsApart(store: Store, j: Kind, k: Kind)
    requires Refers(store, j, k)
    ensures store.PathOf(j) != store.PathOf(k)
  {
    if store.PathOf(j) == store.PathOf(k) {
      GraphInjective(j, k);
    }
  }

  /** Under a relative root the closure of one present path is that path. */
  lemma SingleWanted(n: Net, rel: Text, p: Text)
    requires Valid(n) && !AbsoluteRoot(n.root) && !AbsoluteRoot(rel) && p == Join(n.root, rel) && p in n.infos
    ensures Wanted(n, [rel], true) == iset{p}
  {
    RelativeRootFollowsNothing(n, [rel]);
    assert [rel][0] == rel && Abs(n.root, rel) == p;
    forall x
      ensures x in Seeds(n, [rel]) <==> x == p
    {
      assert Seed(n, [rel], x) <==> x in n.infos && exists q :: q in [rel] && Abs(n.root, q) == x;
    }
  }

  lemma SingleSelection(n: Net, p: Text, g: Text, out: seq<InputGraph>)
    requires HasGraph(n, p, g)
    ensures IsSelection(n, iset{p}, out) <==> |out| == 1 && out[0].path == p && out[0].graph == g
  {
    if IsSelection(n, iset{p}, out) {
      forall i | 0 <= i < |out|
        ensures out[i].path == p && out[i].graph == g
      {
        assert out[i] in out && HasGraph(n, out[i].path, out[i].graph);
      }
      assert g in GraphSet(out);
      if |out| > 1 {
        LessAsymmetric(out[0].graph, out[1].graph);
      }
    }
  }

  lemma ReferrerWanted(store: Store, j: Kind, k: Kind)
    requires Refers(store, j, k)
    ensures Wanted(NetOf(store), [RelativePath(j)], true) == iset{store.PathOf(j)}
  {
    SingleWanted(NetOf(store), RelativePath(j), store.PathOf(j));
  }

  lemma OnlyInput(store: Store, j: Kind, out: seq<InputGraph>)
    requires IsFragmentAt(store, store.PathOf(j), j)
    ensures IsSelection(NetOf(store), iset{store.PathOf(j)}, out) && AllRead(store, Elements(out))
       <==> out == [InputOf(store, j)]
  {
    SingleSelection(NetOf(store), store.PathOf(j), Graph(j), out);
    if |out| == 1 {
      assert out == [out[0]] && Elements(out) == {out[0]};
    }
  }

  /** In every such store the reference is lost: the second fragment is present and referred to, and not in the
      closure of the first fragment's path. */
  lemma ReferenceLost(store: Store, j: Kind, k: Kind)
    requires Refers(store, j, k)
    ensures (store.PathOf(j), store.PathOf(k)) in Refs(NetOf(store))
    ensures store.PathOf(k) !in Wanted(NetOf(store), [RelativePath(j)], true)
  {
    PathsApart(store, j, k);
    ReferrerWanted(store, j, k);
    ReferenceInNet(store, j, k);
  }

  /** The selection is the first fragment alone. */
  lemma ReferrerAlone(store: Store, j: Kind, k: Kind, out: seq<InputGraph>)
    requires Refers(store, j, k)
    ensures IsSelection(NetOf(store), Wanted(NetOf(store), [RelativePath(j)], true), out)
            && AllRead(store, Elements(out))
       <==> out == [InputOf(store, j)]
  {
    ReferrerWanted(store, j, k);
    OnlyInput(store, j, out);
  }

  lemma ReferenceInNet(store: Store, j: Kind, k: Kind)
    requires store.PathOf(j) in store.files && store.PathOf(k) in store.files
    requires k in References(store.files[store.PathOf(j)])
    ensures (store.PathOf(j), store.PathOf(k)) in Refs(NetOf(store))
  {
    assert store.PathOf(k) in InfoOf(store, store.files[store.PathOf(j)]).refs;
  }

  /** A run of such a selection. */
  method SelectReferrer(store: Store, j: Kind, ghost k: Kind) returns (r: Result<seq<InputGraph>, SelectError>)
    requires Refers(store, j, k)
    ensures r == Ok([InputOf(store, j)])
  {
    ReferrerWanted(store, j, k);
    r := SelectFrom(store, [RelativePath(j)], true);
    if r.Ok? { OnlyInput(store, j, r.value); }
  }

  /** The text of a fragment of one triple. */
  function OneTripleText(t: NQuads.Triple, k: Kind): Text {
    NQuads.NquadsText({NQuads.LineOf(t)}, Graph(k))
  }

  lemma OneTripleGraph(t: NQuads.Triple, k: Kind)
    requires NQuads.ValidTriple(t) && NQuads.ValidIri(Graph(k))
    ensures NQuads.GraphOf(OneTripleText(t, k)) == Some(Graph(k))
  {
    assert NQuads.LinesOf({t}) == {NQuads.LineOf(t)};
    NQuads.GraphRecovered({t}, Graph(k));
  }

  lemma NamedKind(k: Kind)
    requires KindBytes(k) && Recoverable(k)
    ensures k in KindsOf(Graph(k), true)
  {
    GraphRoundTripExactly(k);
    var ks := KindsOf(Graph(k), true);
    assert ks[|ks| - 1] == k;
  }

  lemma ObjectOfOne(t: NQuads.Triple, preds: seq<Text>)
    requires t.p in preds && t.o.NamedNode?
    ensures t.o.iri in ObjectsIn({t}, preds)
  {
  }

  lemma KindOfOne(iris: set<Text>, o: Text, k: Kind)
    requires o in iris && k in KindsOf(o, true)
    ensures k in KindsOfAll(iris, true)
  {
  }

  lemma OneTripleRefers(t: NQuads.Triple, j: Kind, k: Kind)
    requires NQuads.ValidTriple(t) && NQuads.ValidIri(Graph(j)) && KindBytes(k) && Recoverable(k)
    requires t.p in BuildPredicates() && t.o == NTriples.NamedNode(Graph(k))
    ensures k in References(OneTripleText(t, j))
  {
    assert NQuads.LinesOf({t}) == {NQuads.LineOf(t)};
    ReferencesAgree({t}, Graph(j));
    ObjectOfOne(t, BuildPredicates());
    NamedKind(k);
    KindOfOne(ObjectsIn({t}, BuildPredicates()), Graph(k), k);
  }

  /** A generation with one root derivation. */
  function RootTriple(j: Kind, k: Kind): NQuads.Triple {
    NQuads.Triple(NTriples.NamedNode(Graph(j)), NIX_NS + "hasRoot", NTriples.NamedNode(Graph(k)))
  }

  function NameTriple(k: Kind): NQuads.Triple {
    NQuads.Triple(NTriples.NamedNode(Graph(k)), NIX_NS + "name", NTriples.Simple("y"))
  }

  function TwoFragments(root: Text, j: Kind, k: Kind): Store {
    Store(root, map[Join(root, RelativePath(j)) := OneTripleText(RootTriple(j, k), j),
                    Join(root, RelativePath(k)) := OneTripleText(NameTriple(k), k)])
  }

  lemma TriplesValid(j: Kind, k: Kind)
    requires NQuads.ValidIri(Graph(j)) && NQuads.ValidIri(Graph(k))
    ensures NQuads.ValidTriple(RootTriple(j, k)) && NQuads.ValidTriple(NameTriple(k))
    ensures RootTriple(j, k).p in BuildPredicates()
  {
    TermValid("hasRoot");
    TermValid("name");
    assert BuildPredicates()[1] == NIX_NS + "hasRoot";
  }

  lemma TermValid(term: Text)
    requires NQuads.ValidIri(term)
    ensures NQuads.ValidIri(NIX_NS + term)
  {
    NQuads.AppendValid(NIX_NS, term);
  }

  lemma TwoFragmentsRefer(root: Text, j: Kind, k: Kind)
    requires NQuads.ValidIri(Graph(j)) && NQuads.ValidIri(Graph(k)) && Nameable(j) && Nameable(k)
    requires KindBytes(k) && Recoverable(k) && Join(root, RelativePath(j)) != Join(root, RelativePath(k))
    ensures var s := TwoFragments(root, j, k);
            && IsFragmentAt(s, s.PathOf(j), j) && IsFragmentAt(s, s.PathOf(k), k)
            && k in References(s.files[s.PathOf(j)])
  {
    TriplesValid(j, k);
    OneTripleGraph(RootTriple(j, k), j);
    OneTripleGraph(NameTriple(k), k);
    OneTripleRefers(RootTriple(j, k), j, k);
  }

  lemma TwoPaths()
    ensures RelativePath(Gen("x")) == "gen/x.nq.zst" && RelativePath(Drv("y")) == "drv/y.nq.zst"
    ensures !AbsoluteRoot("gen/x.nq.zst") && !AbsoluteRoot("store")
    ensures "gen/x.nq.zst" != "drv/y.nq.zst"
  {
    assert "gen/x.nq.zst"[0] == 'g' && "drv/y.nq.zst"[0] == 'd' && "store"[0] == 's';
  }

  /** A relative store with two files of equal length holds no copy of itself. */
  lemma TwoFilesValid(n: Net, a: Text, b: Text)
    requires n.root != [] && |a| == |b| && n.infos.Keys == {Join(n.root, a), Join(n.root, b)}
    ensures Valid(n)
  {
    forall p | p in n.infos
      ensures StartsWith(p, Join(n.root, "")) && Join(n.root, p) !in n.infos
    {
      JoinPrefix(n.root, a);
      JoinPrefix(n.root, b);
      assert |Join(n.root, p)| > |p| == |Join(n.root, a)| == |Join(n.root, b)|;
    }
  }

  lemma TwoIrisValid()
    ensures NQuads.ValidIri(Graph(Gen("x"))) && NQuads.ValidIri(Graph(Drv("y")))
  {
    NQuads.AppendValid(ID_BASE, Slash("gen", "x"));
    NQuads.AppendValid(ID_BASE, Slash("drv", "y"));
  }

  lemma TwoFragmentsFiles(root: Text, j: Kind, k: Kind)
    ensures NetOf(TwoFragments(root, j, k)).infos.Keys == {Join(root, RelativePath(j)), Join(root, RelativePath(k))}
  {
  }

  lemma TwoFragmentsLose(root: Text, j: Kind, k: Kind, a: Text, b: Text)
    requires a == RelativePath(j) && b == RelativePath(k) && |a| == |b| && a != b
    requires root != [] && !AbsoluteRoot(root) && !AbsoluteRoot(a)
    requires NQuads.ValidIri(Graph(j)) && NQuads.ValidIri(Graph(k)) && Nameable(j) && Nameable(k)
    requires KindBytes(k) && Recoverable(k)
    ensures Refers(TwoFragments(root, j, k), j, k)
  {
    TwoFragmentsFiles(root, j, k);
    TwoFilesValid(NetOf(TwoFragments(root, j, k)), a, b);
    if Join(root, a) == Join(root, b) { JoinInjective(root, a, b); }
    TwoFragmentsRefer(root, j, k);
  }

  /** Such a store: root `store`, a generation `x`, and the derivation `y` it has as its root. */
  lemma LostReference()
    ensures Refers(TwoFragments("store", Gen("x"), Drv("y")), Gen("x"), Drv("y"))
  {
    TwoPaths();
    TwoIrisValid();
    TwoFragmentsLose("store", Gen("x"), Drv("y"), "gen/x.nq.zst", "drv/y.nq.zst");
  }

  lemma JoinInjective(root: Text, a: Text, b: Text)
    requires Join(root, a) == Join(root, b)
    ensures a == b
  {
    assert Join(root, a)[|root| + 1..] == a && Join(root, b)[|root| + 1..] == b;
  }

  // ----- what a selection starts from --------------------------------------------------------------

  const SNAPSHOT_KINDS: seq<Text> := ["pin", "gen", "image", "commit", "nixpkgs", "k8s"]

  ghost predicate UnderAny(store: Store, subs: seq<Text>, p: Text) {
    exists i :: 0 <= i < |subs| && StartsWith(p, Join(store.root, subs[i]) + "/")
  }

  ghost predicate RootAt(store: Store, roots: seq<Text>, p: Text) {
    exists i :: 0 <= i < |roots| && FragmentForIri(roots[i]).Some? && store.PathOf(FragmentForIri(roots[i]).value) == p
  }

  lemma {:induction false} AllUnderIff(store: Store, subs: seq<Text>, p: Text)
    ensures p in AllUnder(store, subs) <==> p in store.files && UnderAny(store, subs, p)
  {
    if subs != [] {
      AllUnderIff(store, subs[1..], p);
      assert p in FragmentPathsUnder(store, subs[0]) <==> p in Elements(FragmentPathsUnder(store, subs[0]));
      if UnderAny(store, subs[1..], p) {
        var i :| 0 <= i < |subs[1..]| && StartsWith(p, Join(store.root, subs[1..][i]) + "/");
        assert subs[i + 1] == subs[1..][i];
      }
      if UnderAny(store, subs, p) {
        var i :| 0 <= i < |subs| && StartsWith(p, Join(store.root, subs[i]) + "/");
        if i > 0 { assert subs[i] == subs[1..][i - 1]; }
      }
    }
  }

  lemma {:induction false} RootPathsIff(store: Store, roots: seq<Text>, p: Text)
    ensures p in RootPaths(store, roots) <==> RootAt(store, roots, p)
  {
    if roots != [] {
      RootPathsIff(store, roots[1..], p);
      if RootAt(store, roots[1..], p) {
        var i :| 0 <= i < |roots[1..]| && FragmentForIri(roots[1..][i]).Some?
                 && store.PathOf(FragmentForIri(roots[1..][i]).value) == p;
        assert roots[i + 1] == roots[1..][i];
      }
      if RootAt(store, roots, p) {
        var i :| 0 <= i < |roots| && FragmentForIri(roots[i]).Some? &&
            store.PathOf(FragmentForIri(roots[i]).value) == p;
        if i > 0 { assert roots[i] == roots[1..][i - 1]; }
      }
    }
  }

  ghost predicate Named(store: Store, sel: InputSelection, q: Text) {
    || q in sel.paths
    || (sel.allSnapshots && q in store.files && UnderAny(store, SNAPSHOT_KINDS, q))
    || RootAt(store, sel.roots, q)
  }

  lemma InitialQueueIff(store: Store, sel: InputSelection, q: Text)
    requires !sel.everything
    ensures q in InitialQueue(store, sel) <==> Named(store, sel, q)
  {
    AllUnderIff(store, SNAPSHOT_KINDS, q);
    RootPathsIff(store, sel.roots, q);
  }

  /** Under an absolute root, a selection starts from the present files among the given paths, the
      snapshot files if asked for, and the fragments of the given IRIs. */
  lemma AbsoluteSeedsExactly(store: Store, sel: InputSelection, p: Text)
    requires Valid(NetOf(store)) && AbsoluteRoot(store.root) && !sel.everything
    ensures Seed(NetOf(store), InitialQueue(store, sel), p)
       <==> p in store.files && (Named(store, sel, p) || exists q :: q in sel.paths && Abs(store.root, q) == p)
  {
    var n := NetOf(store);
    var queue := InitialQueue(store, sel);
    if p in store.files {
      AbsOfStored(n, p);
      InitialQueueIff(store, sel, p);
    }
    if Seed(n, queue, p) {
      var q :| q in queue && Abs(n.root, q) == p;
      InitialQueueIff(store, sel, q);
      if q !in sel.paths {
        RootedAbs(store, sel, q);
      }
    }
    if q :| q in sel.paths && Abs(store.root, q) == p {
      InitialQueueIff(store, sel, q);
    }
  }

  lemma RootedAbs(store: Store, sel: InputSelection, q: Text)
    requires AbsoluteRoot(store.root)
    ensures Valid(NetOf(store)) && Named(store, sel, q) && q !in sel.paths ==> Abs(store.root, q) == q
  {
    if Valid(NetOf(store)) && Named(store, sel, q) && q !in sel.paths {
      if q in store.files {
        AbsOfStored(NetOf(store), q);
      } else {
        assert q[0] == store.root[0];
      }
    }
  }

  /** The store directory does not contain a directory of its own name. */
  ghost predicate NotNested(n: Net) {
    forall p :: p in n.infos ==> !StartsWith(p, Join(n.root, Join(n.root, "")))
  }

  /** Under a relative root only the paths given count: neither snapshots nor IRIs select anything. */
  lemma RelativeSeedsExactly(store: Store, sel: InputSelection, p: Text)
    requires Valid(NetOf(store)) && NotNested(NetOf(store)) && !AbsoluteRoot(store.root) && !sel.everything
    ensures Seed(NetOf(store), InitialQueue(store, sel), p)
       <==> p in store.files && exists q :: q in sel.paths && Abs(store.root, q) == p
  {
    var n := NetOf(store);
    if Seed(n, InitialQueue(store, sel), p) {
      var q :| q in InitialQueue(store, sel) && Abs(n.root, q) == p;
      InitialQueueIff(store, sel, q);
      if q !in sel.paths {
        RelativeJoinsTwice(store, sel, q);
        assert false;
      }
    }
    if q :| q in sel.paths && Abs(store.root, q) == p {
      InitialQueueIff(store, sel, q);
    }
  }

  lemma RelativeJoinsTwice(store: Store, sel: InputSelection, q: Text)
    requires Valid(NetOf(store)) && NotNested(NetOf(store)) && !AbsoluteRoot(store.root)
    requires Named(store, sel, q) && q !in sel.paths
    ensures Abs(store.root, q) !in store.files
  {
    var n := NetOf(store);
    assert StartsWith(q, Join(store.root, "")) by {
      if RootAt(store, sel.roots, q) {
        var i :| 0 <= i < |sel.roots| && FragmentForIri(sel.roots[i]).Some?
                 && store.PathOf(FragmentForIri(sel.roots[i]).value) == q;
        JoinPrefix(store.root, RelativePath(FragmentForIri(sel.roots[i]).value));
      } else {
        assert q in n.infos;
      }
    }
    NestedPrefix(store.root, q);
    assert q[0] == store.root[0];
    assert forall p :: p in store.files <==> p in n.infos;
  }

  lemma JoinPrefix(root: Text, p: Text)
    ensures StartsWith(Join(root, p), Join(root, ""))
  {
    assert Join(root, "") == root + "/";
    assert Join(root, p) == root + "/" + p;
  }

  lemma NestedPrefix(root: Text, q: Text)
    requires StartsWith(q, Join(root, ""))
    ensures StartsWith(Join(root, q), Join(root, Join(root, "")))
  {
    var rest := q[|Join(root, "")|..];
    assert q == Join(root, "") + rest;
    assert Join(root, q) == Join(root, Join(root, "")) + rest;
  }

  // ----- references are those of the data ----------------------------------------------------------

  ghost function ObjectsIn(ts: set<NQuads.Triple>, preds: seq<Text>): set<Text> {
    set t | t in ts && t.p in preds && t.o.NamedNode? :: t.o.iri
  }

  lemma {:induction false} ObjectsOfAnyAgree(ts: set<NQuads.Triple>, g: Text, preds: seq<Text>)
    requires NQuads.ValidIri(g) && forall t :: t in ts ==> NQuads.ValidTriple(t)
    ensures ObjectsOfAny(NQuads.NquadsText(NQuads.LinesOf(ts), g), preds) == ObjectsIn(ts, preds)
  {
    if preds != [] {
      NQuads.ObjectsAgree(ts, g, preds[0]);
      ObjectsOfAnyAgree(ts, g, preds[1..]);
      assert forall p :: p in preds <==> p == preds[0] || p in preds[1..];
    }
  }

  /** On the text of any valid fragment the references followed are exactly those its triples name. */
  lemma ReferencesAgree(ts: set<NQuads.Triple>, g: Text)
    requires NQuads.ValidIri(g) && forall t :: t in ts ==> NQuads.ValidTriple(t)
    ensures References(NQuads.NquadsText(NQuads.LinesOf(ts), g))
         == KindsOfAll(ObjectsIn(ts, BuildPredicates()), true) + KindsOfAll(ObjectsIn(ts, RuntimePredicates()), false)
  {
    ObjectsOfAnyAgree(ts, g, BuildPredicates());
    ObjectsOfAnyAgree(ts, g, RuntimePredicates());
  }

  // ----- references, by predicate ------------------------------------------------------------------------

  /** Predicates whose derivations are followed with their outputs. */
  predicate BuildProperty(p: Text) {
    || p == "https://w3id.org/nix2rdf/ns#closureContains" || p == "https://w3id.org/nix2rdf/ns#hasRoot"
    || p == "https://w3id.org/nix2rdf/ns#snapshot" || p == "https://w3id.org/nix2rdf/ns#inputSrc"
    || p == "https://w3id.org/nix2rdf/ns#imageDerivation"
  }

  /** Predicates followed as they are. */
  predicate RuntimeProperty(p: Text) {
    p == "https://w3id.org/nix2rdf/k8s#runsImage" || p == "https://w3id.org/nix2rdf/k8s#hostGeneration"
  }

  lemma BuildTerms()
    ensures NIX_NS + "closureContains" == "https://w3id.org/nix2rdf/ns#closureContains"
    ensures NIX_NS + "hasRoot" == "https://w3id.org/nix2rdf/ns#hasRoot"
    ensures NIX_NS + "snapshot" == "https://w3id.org/nix2rdf/ns#snapshot"
    ensures NIX_NS + "inputSrc" == "https://w3id.org/nix2rdf/ns#inputSrc"
    ensures NIX_NS + "imageDerivation" == "https://w3id.org/nix2rdf/ns#imageDerivation"
  {
  }

  lemma RuntimeTerms()
    ensures K8S_NS + "runsImage" == "https://w3id.org/nix2rdf/k8s#runsImage"
    ensures K8S_NS + "hostGeneration" == "https://w3id.org/nix2rdf/k8s#hostGeneration"
  {
  }

  lemma InFive(p: Text, a: Text, b: Text, c: Text, d: Text, e: Text)
    ensures p in [a, b, c, d, e] <==> p == a || p == b || p == c || p == d || p == e
  {
  }

  lemma BuildPropertyIff(p: Text)
    ensures p in BuildPredicates() <==> BuildProperty(p)
  {
    BuildTerms();
    InFive(p, NIX_NS + "closureContains", NIX_NS + "hasRoot", NIX_NS + "snapshot", NIX_NS + "inputSrc",
           NIX_NS + "imageDerivation");
  }

  lemma RuntimePropertyIff(p: Text)
    ensures p in RuntimePredicates() <==> RuntimeProperty(p)
  {
    RuntimeTerms();
  }

  /** The triple names the fragment, or, through a build property, the derivation whose outputs it is. */
  ghost predicate RefersTo(t: NQuads.Triple, k: Kind) {
    && t.o.NamedNode?
    && (((BuildProperty(t.p) || RuntimeProperty(t.p)) && FragmentForIri(t.o.iri) == Some(k))
        || (k.Out? && BuildProperty(t.p) && FragmentForIri(t.o.iri) == Some(Drv(k.h))))
  }

  lemma KindsOfIff(iri: Text, k: Kind)
    ensures k in KindsOf(iri, true)
       <==> FragmentForIri(iri) == Some(k) || (k.Out? && FragmentForIri(iri) == Some(Drv(k.h)))
    ensures k in KindsOf(iri, false) <==> FragmentForIri(iri) == Some(k)
  {
    OnlyEntities(iri);
  }

  lemma BuildKinds(ts: set<NQuads.Triple>, k: Kind)
    ensures k in KindsOfAll(ObjectsIn(ts, BuildPredicates()), true)
       <==> exists t :: t in ts && t.o.NamedNode? && BuildProperty(t.p) && k in KindsOf(t.o.iri, true)
  {
    forall t | t in ts
      ensures t.p in BuildPredicates() <==> BuildProperty(t.p)
    {
      BuildPropertyIff(t.p);
    }
  }

  lemma RuntimeKinds(ts: set<NQuads.Triple>, k: Kind)
    ensures k in KindsOfAll(ObjectsIn(ts, RuntimePredicates()), false)
       <==> exists t :: t in ts && t.o.NamedNode? && RuntimeProperty(t.p) && k in KindsOf(t.o.iri, false)
  {
    forall t | t in ts
      ensures t.p in RuntimePredicates() <==> RuntimeProperty(t.p)
    {
      RuntimePropertyIff(t.p);
    }
  }

  /** The references of a valid fragment are exactly what its triples refer to. */
  lemma ReferencesExactly(ts: set<NQuads.Triple>, g: Text, k: Kind)
    requires NQuads.ValidIri(g) && forall t :: t in ts ==> NQuads.ValidTriple(t)
    ensures k in References(NQuads.NquadsText(NQuads.LinesOf(ts), g)) <==> exists t :: t in ts && RefersTo(t, k)
  {
    ReferencesAgree(ts, g);
    BuildKinds(ts, k);
    RuntimeKinds(ts, k);
    forall t | t in ts && t.o.NamedNode?
      ensures RefersTo(t, k) <==> || (BuildProperty(t.p) && k in KindsOf(t.o.iri, true))
                                  || (RuntimeProperty(t.p) && k in KindsOf(t.o.iri, false))
    {
      KindsOfIff(t.o.iri, k);
    }
  }

  /** A build property that leads to a derivation refers to the derivation and to its outputs. */
  lemma DerivationWithOutputs(ts: set<NQuads.Triple>, g: Text, t: NQuads.Triple, h: Text)
    requires NQuads.ValidIri(g) && forall u :: u in ts ==> NQuads.ValidTriple(u)
    requires t in ts && BuildProperty(t.p) && t.o == NTriples.NamedNode(Graph(Drv(h)))
    ensures var refs := References(NQuads.NquadsText(NQuads.LinesOf(ts), g)); Drv(h) in refs && Out(h) in refs
  {
    GraphRoundTripExactly(Drv(h));
    ReferencesExactly(ts, g, Drv(h));
    ReferencesExactly(ts, g, Out(h));
    assert RefersTo(t, Drv(h)) && RefersTo(t, Out(h));
  }

  /** A runtime property refers to the fragment it names; outputs are referred to by build properties only. */
  lemma OutputsByBuildOnly(ts: set<NQuads.Triple>, g: Text, h: Text)
    requires NQuads.ValidIri(g) && forall u :: u in ts ==> NQuads.ValidTriple(u)
    ensures Out(h) in References(NQuads.NquadsText(NQuads.LinesOf(ts), g))
       <==> exists t :: t in ts && BuildProperty(t.p) && t.o.NamedNode? && FragmentForIri(t.o.iri) == Some(Drv(h))
  {
    ReferencesExactly(ts, g, Out(h));
    forall t | t in ts && t.o.NamedNode?
      ensures RefersTo(t, Out(h)) <==> BuildProperty(t.p) && FragmentForIri(t.o.iri) == Some(Drv(h))
    {
      OnlyEntities(t.o.iri);
    }
  }

  lemma RuntimeReference(ts: set<NQuads.Triple>, g: Text, t: NQuads.Triple, k: Kind)
    requires NQuads.ValidIri(g) && forall u :: u in ts ==> NQuads.ValidTriple(u)
    requires t in ts && RuntimeProperty(t.p) && KindBytes(k) && Recoverable(k) && t.o == NTriples.NamedNode(Graph(k))
    ensures k in References(NQuads.NquadsText(NQuads.LinesOf(ts), g))
  {
    GraphRoundTripExactly(k);
    ReferencesExactly(ts, g, k);
    assert RefersTo(t, k);
  }

  /** Under an absolute root, a closure selection that holds a fragment referring to a derivation by a build
      property holds the derivation and its outputs, where they are present. */
  lemma OutputsSelected(store: Store, queue: seq<Text>, p: Text, ts: set<NQuads.Triple>, g: Text, t: NQuads.Triple,
                        h: Text)
    requires Valid(NetOf(store)) && AbsoluteRoot(store.root)
    requires p in store.files && store.files[p] == NQuads.NquadsText(NQuads.LinesOf(ts), g)
    requires NQuads.ValidIri(g) && forall u :: u in ts ==> NQuads.ValidTriple(u)
    requires t in ts && BuildProperty(t.p) && t.o == NTriples.NamedNode(Graph(Drv(h)))
    requires p in Wanted(NetOf(store), queue, true)
    ensures store.PathOf(Drv(h)) in store.files ==> store.PathOf(Drv(h)) in Wanted(NetOf(store), queue, true)
    ensures store.PathOf(Out(h)) in store.files ==> store.PathOf(Out(h)) in Wanted(NetOf(store), queue, true)
  {
    DerivationWithOutputs(ts, g, t, h);
    ReferenceSelected(store, queue, p, Drv(h));
    ReferenceSelected(store, queue, p, Out(h));
  }

  lemma ReferenceSelected(store: Store, queue: seq<Text>, p: Text, k: Kind)
    requires Valid(NetOf(store)) && AbsoluteRoot(store.root) && p in store.files && k in References(store.files[p])
    requires p in Wanted(NetOf(store), queue, true)
    ensures store.PathOf(k) in store.files ==> store.PathOf(k) in Wanted(NetOf(store), queue, true)
  {
    var n := NetOf(store);
    WantedIsLeastClosed(n, queue, iset{});
    if store.PathOf(k) in store.files {
      assert store.PathOf(k) in InfoOf(store, store.files[p]).refs;
      assert (p, store.PathOf(k)) in Refs(n);
    }
  }

  // ----- what everything and all snapshots are ---------------------------------------------------------------

  /** Selecting everything selects every file exactly when the root is absolute or the store empty. */
  lemma EverythingSelected(store: Store, sel: InputSelection)
    requires Valid(NetOf(store)) && sel.everything
    ensures (forall p :: p in store.files ==> p in Wanted(NetOf(store), InitialQueue(store, sel), false))
       <==> AbsoluteRoot(store.root) || store.files == map[]
  {
    var n := NetOf(store);
    assert n.infos.Keys == store.files.Keys;
    EverythingExactly(n);
    assert forall p :: p in n.infos <==> p in store.files;
    if n.infos == map[] { assert store.files.Keys == {}; }
    if store.files == map[] { assert n.infos.Keys == {}; }
  }

  /** The fragments that count as snapshots: pins, generations, images, commits, nixpkgs and all of the clusters. */
  lemma SnapshotKindsExactly(store: Store, k: Kind)
    ensures UnderAny(store, SNAPSHOT_KINDS, store.PathOf(k))
       <==> || k.Pin? || k.Gen? || k.Image? || k.Commit? || k.Nixpkgs?
            || k.K8sSnapshot? || k.K8sNodes? || k.K8sObserved?
  {
    PathParts(k);
    forall i | 0 <= i < |SNAPSHOT_KINDS|
      ensures StartsWith(store.PathOf(k), Join(store.root, SNAPSHOT_KINDS[i]) + "/")
         <==> StoreParts(k).0 == SNAPSHOT_KINDS[i]
    {
      UnderDirectory(store.root, StoreParts(k).0, StoreParts(k).1 + SUFFIX, SNAPSHOT_KINDS[i]);
    }
    SnapshotDirectories(k);
  }

  lemma SnapshotDirectories(k: Kind)
    ensures (exists i :: 0 <= i < |SNAPSHOT_KINDS| && StoreParts(k).0 == SNAPSHOT_KINDS[i])
       <==> || k.Pin? || k.Gen? || k.Image? || k.Commit? || k.Nixpkgs?
            || k.K8sSnapshot? || k.K8sNodes? || k.K8sObserved?
  {
    var s := SNAPSHOT_KINDS;
    assert s[0] == "pin" && s[1] == "gen" && s[2] == "image" && s[3] == "commit" && s[4] == "nixpkgs" && s[5] == "k8s";
  }

  lemma PathParts(k: Kind)
    ensures RelativePath(k) == Slash(StoreParts(k).0, StoreParts(k).1 + SUFFIX) && '/' !in StoreParts(k).0
  {
    DirectoryNoSlash(k);
  }

  lemma UnderDirectory(root: Text, dir: Text, rest: Text, sub: Text)
    requires '/' !in dir && '/' !in sub
    ensures StartsWith(Join(root, Slash(dir, rest)), Join(root, sub) + "/") <==> dir == sub
  {
    var base := Join(root, "");
    assert Join(root, Slash(dir, rest)) == base + Slash(dir, rest);
    assert Join(root, sub) + "/" == base + (sub + ['/']);
    PrefixCancel(base, Slash(dir, rest), sub + ['/']);
    FirstSegment(dir, rest, sub);
  }

  lemma FirstSegment(dir: Text, rest: Text, sub: Text)
    requires '/' !in dir && '/' !in sub
    ensures sub + ['/'] <= dir + (['/'] + rest) <==> dir == sub
  {
    var all := dir + (['/'] + rest);
    if sub + ['/'] <= all {
      var tail := all[|sub| + 1..];
      assert all == Slash(dir, rest) && all == (sub + ['/']) + tail == Slash(sub, tail);
      SlashInjective(dir, rest, sub, tail);
    }
    if dir == sub { assert all == (sub + ['/']) + rest; }
  }

  lemma PrefixCancel(base: Text, x: Text, y: Text)
    ensures base + y <= base + x <==> y <= x
  {
    if base + y <= base + x {
      assert (base + x)[|base|..] == x && (base + x)[..|base + y|] == base + y;
      assert x[..|y|] == (base + x)[|base|..|base| + |y|] == y;
    }
    if y <= x { assert base + x == (base + y) + x[|y|..]; }
  }
}
