/** Ordering rule packs dependencies-first (`resolve` in packs.rs): a depth-first search with cycle
    detection over the declared dependencies. */
module Packs {
  import opened Texts
  import opened Sorting
  import opened Reachability
  import Hashing

  /** `rules` is the concatenated rule text. */
  datatype Pack = Pack(version: Text, contentHash: Text, rules: Text, dependsOn: seq<Text>)

  type PackMap = map<Text, Pack>

  datatype ResolveError = Cycle(name: Text) | Unknown(name: Text)

  /** The three collections the search threads through its recursion. */
  datatype Walk = Walk(done: set<Text>, visiting: set<Text>, order: seq<Text>)

  // ----- the search, as a function ---------------------------------------------------

  function Visit(all: PackMap, name: Text, w: Walk): (r: Result<Walk, ResolveError>)
    ensures r.Ok? ==> r.value.visiting == w.visiting
    decreases all.Keys - w.visiting, 0
  {
    if name in w.done then Ok(w)
    else if name in w.visiting then Err(Cycle(name))
    else if name !in all then Err(Unknown(name))
    else
      assert name in all.Keys - w.visiting && name !in all.Keys - (w.visiting + {name});
      match VisitAll(all, Sort(LessEq, all[name].dependsOn), Walk(w.done, w.visiting + {name}, w.order))
      case Err(e) => Err(e)
      case Ok(w2) => Ok(Walk(w2.done + {name}, w2.visiting - {name}, w2.order + [name]))
  }

  function VisitAll(all: PackMap, names: seq<Text>, w: Walk): (r: Result<Walk, ResolveError>)
    ensures r.Ok? ==> r.value.visiting == w.visiting
    decreases all.Keys - w.visiting, |names|
  {
    if names == [] then Ok(w)
    else
      match Visit(all, names[0], w)
      case Err(e) => Err(e)
      case Ok(w1) => VisitAll(all, names[1..], w1)
  }

  function Resolve(all: PackMap, selected: seq<Text>): Result<seq<Text>, ResolveError> {
    match VisitAll(all, Sort(LessEq, selected), Walk({}, {}, []))
    case Err(e) => Err(e)
    case Ok(w) => Ok(w.order)
  }

  // ----- the search, as it runs ---------------------------------------------------------

  class Resolver {
    const all: PackMap
    var done: set<Text>
    var visiting: set<Text>
    var order: seq<Text>

    constructor (all: PackMap)
      ensures this.all == all && State() == Walk({}, {}, [])
    {
      this.all := all;
      done, visiting, order := {}, {}, [];
    }

    ghost function State(): Walk
      reads this
    {
      Walk(done, visiting, order)
    }

    method VisitPack(name: Text) returns (r: Result<(), ResolveError>)
      modifies this
      ensures match Visit(all, name, old(State()))
              case Err(e) => r == Err(e)
              case Ok(w) => r == Ok(()) && State() == w
      decreases all.Keys - visiting
    {
      if name in done {
        return Ok(());
      }
      if name in visiting {
        return Err(Cycle(name));
      }
      ghost var before := visiting;
      visiting := visiting + {name};
      if name !in all {
        return Err(Unknown(name));
      }
      assert name in all.Keys - before && name !in all.Keys - visiting;
      var deps := Sort(LessEq, all[name].dependsOn);
      ghost var start := State();
      for i := 0 to |deps|
        invariant visiting == start.visiting
        invariant VisitAll(all, deps[i..], State()) == VisitAll(all, deps, start)
      {
        assert deps[i..][1..] == deps[i + 1..];
        var d := VisitPack(deps[i]);
        if d.Err? {
          return Err(d.error);
        }
      }
      visiting := visiting - {name};
      done := done + {name};
      order := order + [name];
      r := Ok(());
    }
  }

  method ResolvePacks(all: PackMap, selected: seq<Text>) returns (r: Result<seq<Text>, ResolveError>)
    ensures r == Resolve(all, selected)
  {
    var resolver := new Resolver(all);
    var sel := Sort(LessEq, selected);
    ghost var start := resolver.State();
    for i := 0 to |sel|
      invariant resolver.all == all
      invariant VisitAll(all, sel[i..], resolver.State()) == VisitAll(all, sel, start)
    {
      assert sel[i..][1..] == sel[i + 1..];
      var v := resolver.VisitPack(sel[i]);
      if v.Err? {
        return Err(v.error);
      }
    }
    r := Ok(resolver.order);
  }

  // ----- what a search establishes ---------------------------------------------------------

  ghost function Deps(all: PackMap): Edges<Text> {
    iset a, b | a in all && b in all[a].dependsOn :: (a, b)
  }

  predicate DependenciesBefore(all: PackMap, order: seq<Text>, k: nat)
    requires k < |order|
  {
    order[k] in all && forall d :: d in all[order[k]].dependsOn ==> d in order[..k]
  }

  ghost predicate Ordered(all: PackMap, order: seq<Text>) {
    Distinct(order) && forall k {:trigger order[k]} :: 0 <= k < |order| ==> DependenciesBefore(all, order, k)
  }

  ghost predicate Consistent(all: PackMap, w: Walk) {
    Ordered(all, w.order) && Elements(w.order) == w.done && w.done !! w.visiting
  }

  /** Everything finished on the way from `w` to `w2` is reachable from `from`. */
  ghost predicate Grew(all: PackMap, w: Walk, w2: Walk, from: iset<Text>) {
    && w.done <= w2.done
    && forall x :: x in w2.done && x !in w.done ==> exists f :: f in from && Reach(Deps(all), f, x)
  }

  lemma PushOrdered(all: PackMap, order: seq<Text>, name: Text)
    requires Ordered(all, order) && name in all && name !in order
    requires forall d :: d in all[name].dependsOn ==> d in order
    ensures Ordered(all, order + [name])
  {
    var order' := order + [name];
    assert order'[..|order|] == order;
    forall k | 0 <= k < |order'|
      ensures DependenciesBefore(all, order', k)
    {
      if k < |order| {
        assert order'[..k] == order[..k] && order'[k] == order[k];
        assert DependenciesBefore(all, order, k);
      }
    }
  }

  lemma {:induction false} VisitOk(all: PackMap, name: Text, w: Walk)
    requires Consistent(all, w) && Visit(all, name, w).Ok?
    ensures var w2 := Visit(all, name, w).value;
      Consistent(all, w2) && name in w2.done && Grew(all, w, w2, iset{name})
    decreases all.Keys - w.visiting, 0
  {
    if name !in w.done {
      var deps := Sort(LessEq, all[name].dependsOn);
      var w1 := Walk(w.done, w.visiting + {name}, w.order);
      assert name in all.Keys - w.visiting && name !in all.Keys - w1.visiting;
      VisitAllOk(all, deps, w1);
      var w2 := VisitAll(all, deps, w1).value;
      SortElements(LessEq, all[name].dependsOn);
      forall d | d in all[name].dependsOn
        ensures d in w2.order
      {
        assert d in Elements(deps);
        assert d in Elements(w2.order);
      }
      assert name !in w2.order by {
        assert name in w2.order ==> name in Elements(w2.order);
      }
      PushOrdered(all, w2.order, name);
      forall x | x in w2.done + {name} && x !in w.done
        ensures Reach(Deps(all), name, x)
      {
        if x == name {
          ReachRefl(Deps(all), name);
        } else {
          var f :| f in deps && Reach(Deps(all), f, x);
          assert f in Elements(deps);
          ReachFromEdge(Deps(all), name, f);
          ReachTrans(Deps(all), name, f, x);
        }
      }
    }
  }

  lemma {:induction false} VisitAllOk(all: PackMap, names: seq<Text>, w: Walk)
    requires Consistent(all, w) && VisitAll(all, names, w).Ok?
    ensures var w2 := VisitAll(all, names, w).value;
      Consistent(all, w2) && (forall n :: n in names ==> n in w2.done) && Grew(all, w, w2, iset n | n in names)
    decreases all.Keys - w.visiting, |names|
  {
    if names != [] {
      var w1 := Visit(all, names[0], w).value;
      VisitOk(all, names[0], w);
      VisitAllOk(all, names[1..], w1);
      assert names == [names[0]] + names[1..];
    }
  }

  /** A bad pack: unknown, or on a dependency cycle. */
  ghost predicate Bad(all: PackMap, x: Text) {
    x !in all || ReachPlus(Deps(all), x, x)
  }

  /** The error names a bad pack reachable from `name`, with what is wrong with it. */
  ghost predicate Blamed(all: PackMap, name: Text, e: ResolveError) {
    Reach(Deps(all), name, e.name) && if e.Cycle? then ReachPlus(Deps(all), e.name, e.name) else e.name !in all
  }

  lemma BlamedBack(all: PackMap, name: Text, d: Text, e: ResolveError)
    requires (name, d) in Deps(all) && Blamed(all, d, e)
    ensures Blamed(all, name, e)
  {
    ReachFromEdge(Deps(all), name, d);
    ReachTrans(Deps(all), name, d, e.name);
  }

  /** A failing visit has found an unknown pack or a cycle below the name it started from. */
  lemma {:induction false} VisitErr(all: PackMap, name: Text, w: Walk)
    requires Visit(all, name, w).Err?
    requires forall v :: v in w.visiting ==> ReachPlus(Deps(all), v, name)
    ensures Blamed(all, name, Visit(all, name, w).error)
    decreases all.Keys - w.visiting, 0
  {
    ReachRefl(Deps(all), name);
    if name !in w.visiting && name in all {
      var deps := Sort(LessEq, all[name].dependsOn);
      var w1 := Walk(w.done, w.visiting + {name}, w.order);
      assert name in all.Keys - w.visiting && name !in all.Keys - w1.visiting;
      SortElements(LessEq, all[name].dependsOn);
      forall d, v | d in deps && v in w1.visiting
        ensures ReachPlus(Deps(all), v, d)
      {
        assert d in Elements(deps);
        if v == name { ReachFromEdge(Deps(all), name, d); } else { ReachPlusStep(Deps(all), v, name, d); }
      }
      var d := VisitAllErr(all, deps, w1);
      assert d in Elements(deps);
      BlamedBack(all, name, d, Visit(all, name, w).error);
    }
  }

  lemma {:induction false} VisitAllErr(all: PackMap, names: seq<Text>, w: Walk) returns (bad: Text)
    requires VisitAll(all, names, w).Err?
    requires forall d, v :: d in names && v in w.visiting ==> ReachPlus(Deps(all), v, d)
    ensures bad in names && Blamed(all, bad, VisitAll(all, names, w).error)
    decreases all.Keys - w.visiting, |names|
  {
    if Visit(all, names[0], w).Err? {
      VisitErr(all, names[0], w);
      bad := names[0];
    } else {
      bad := VisitAllErr(all, names[1..], Visit(all, names[0], w).value);
    }
  }

  // ----- main results -------------------------------------------------------------------------

  ghost predicate InClosure(all: PackMap, selected: seq<Text>, x: Text) {
    exists s :: s in selected && Reach(Deps(all), s, x)
  }

  /** In an ordered list, everything reachable from a member is a member at or before its place. */
  lemma ReachBefore(all: PackMap, order: seq<Text>, k: nat, x: Text)
    requires Ordered(all, order) && k < |order| && Reach(Deps(all), order[k], x)
    ensures x in order[..k + 1]
  {
    var prefix := order[..k + 1];
    var s := iset y | y in prefix;
    forall a, b | a in s && (a, b) in Deps(all)
      ensures b in s
    {
      var j :| 0 <= j <= k && order[j] == a;
      assert DependenciesBefore(all, order, j);
      assert b in order[..j];
      var i :| 0 <= i < j && order[i] == b;
      assert prefix[i] == b;
    }
    assert order[k] == prefix[k];
    ReachInduct(Deps(all), s, order[k], x);
  }

  lemma OrderedAcyclic(all: PackMap, order: seq<Text>, x: Text)
    requires Ordered(all, order) && x in order
    ensures !Bad(all, x)
  {
    var k :| 0 <= k < |order| && order[k] == x;
    assert DependenciesBefore(all, order, k);
    if ReachPlus(Deps(all), x, x) {
      var m :| (x, m) in Deps(all) && Reach(Deps(all), m, x);
      var j :| 0 <= j < k && order[..k][j] == m;
      ReachBefore(all, order, j, x);
      assert false;
    }
  }

  lemma SelectionEmptyWalk(all: PackMap)
    ensures Consistent(all, Walk({}, {}, []))
  {
  }

  /** Resolution succeeds exactly when the dependency closure of the selection has no unknown pack
      and no cycle. */
  lemma ResolveSucceedsExactly(all: PackMap, selected: seq<Text>)
    ensures Resolve(all, selected).Ok? <==> forall x :: InClosure(all, selected, x) ==> !Bad(all, x)
  {
    var sel := Sort(LessEq, selected);
    SortElements(LessEq, selected);
    assert forall s :: s in sel <==> s in Elements(sel);
    assert forall s :: s in selected <==> s in Elements(selected);
    if Resolve(all, selected).Ok? {
      forall x | InClosure(all, selected, x)
        ensures !Bad(all, x)
      {
        ResolvedMembers(all, selected, x);
        OrderedAcyclic(all, Resolve(all, selected).value, x);
      }
    } else {
      var bad := VisitAllErr(all, sel, Walk({}, {}, []));
      assert InClosure(all, selected, Resolve(all, selected).error.name);
    }
  }

  /** An error names a pack of the closure, and says whether it is unknown or on a cycle. */
  lemma ResolveErrorTrue(all: PackMap, selected: seq<Text>)
    requires Resolve(all, selected).Err?
    ensures var e := Resolve(all, selected).error;
      InClosure(all, selected, e.name) && if e.Cycle? then ReachPlus(Deps(all), e.name, e.name) else e.name !in all
  {
    SortedSame(selected);
    var bad := VisitAllErr(all, Sort(LessEq, selected), Walk({}, {}, []));
  }

  lemma ResolvedWalk(all: PackMap, selected: seq<Text>) returns (w: Walk)
    requires Resolve(all, selected).Ok?
    ensures VisitAll(all, Sort(LessEq, selected), Walk({}, {}, [])) == Ok(w)
    ensures w.order == Resolve(all, selected).value && Consistent(all, w)
    ensures Grew(all, Walk({}, {}, []), w, iset n | n in selected)
    ensures forall s :: s in selected ==> s in w.done
  {
    var sel := Sort(LessEq, selected);
    var empty := Walk({}, {}, []);
    w := VisitAll(all, sel, empty).value;
    SelectionEmptyWalk(all);
    VisitAllOk(all, sel, empty);
    SortedSame(selected);
  }

  lemma SortedSame(names: seq<Text>)
    ensures forall s :: s in Sort(LessEq, names) <==> s in names
    ensures (iset n | n in Sort(LessEq, names)) == (iset n | n in names)
  {
    forall s
      ensures s in Sort(LessEq, names) <==> s in names
    {
      assert s in multiset(Sort(LessEq, names)) <==> s in multiset(names);
    }
  }

  lemma ResolvedReached(all: PackMap, selected: seq<Text>, x: Text)
    requires Resolve(all, selected).Ok? && x in Resolve(all, selected).value
    ensures InClosure(all, selected, x)
  {
    var w := ResolvedWalk(all, selected);
    assert x in Elements(w.order);
  }

  lemma ReachedResolved(all: PackMap, selected: seq<Text>, x: Text)
    requires Resolve(all, selected).Ok? && InClosure(all, selected, x)
    ensures x in Resolve(all, selected).value
  {
    var w := ResolvedWalk(all, selected);
    var s :| s in selected && Reach(Deps(all), s, x);
    assert s in Elements(w.order);
    ReachOrdered(all, w.order, s, x);
  }

  lemma ReachOrdered(all: PackMap, order: seq<Text>, s: Text, x: Text)
    requires Ordered(all, order) && s in order && Reach(Deps(all), s, x)
    ensures x in order
  {
    var k :| 0 <= k < |order| && order[k] == s;
    ReachBefore(all, order, k, x);
  }

  lemma ResolvedMembers(all: PackMap, selected: seq<Text>, x: Text)
    requires Resolve(all, selected).Ok?
    ensures Ordered(all, Resolve(all, selected).value)
    ensures x in Resolve(all, selected).value <==> InClosure(all, selected, x)
  {
    var w := ResolvedWalk(all, selected);
    if x in Resolve(all, selected).value {
      ResolvedReached(all, selected, x);
    } else if InClosure(all, selected, x) {
      ReachedResolved(all, selected, x);
    }
  }

  /** The resolved order lists each pack of the closure once, after all its dependencies. */
  lemma ResolveOrder(all: PackMap, selected: seq<Text>)
    requires Resolve(all, selected).Ok?
    ensures var order := Resolve(all, selected).value;
      && Distinct(order)
      && (forall x :: x in order <==> InClosure(all, selected, x))
      && (forall k {:trigger order[k]} :: 0 <= k < |order| ==>
            order[k] in all && forall d :: d in all[order[k]].dependsOn ==> d in order[..k])
  {
    var order := Resolve(all, selected).value;
    forall x
      ensures x in order <==> InClosure(all, selected, x)
    {
      ResolvedMembers(all, selected, x);
    }
    ResolvedMembers(all, selected, []);
    forall k | 0 <= k < |order|
      ensures order[k] in all && forall d :: d in all[order[k]].dependsOn ==> d in order[..k]
    {
      assert DependenciesBefore(all, order, k);
    }
  }

  /** The same packs with every dependency list permuted. */
  ghost predicate SamePacks(all: PackMap, all': PackMap) {
    all.Keys == all'.Keys && forall n :: n in all ==> multiset(all[n].dependsOn) == multiset(all'[n].dependsOn)
  }

  lemma {:induction false} VisitSame(all: PackMap, all': PackMap, name: Text, w: Walk)
    requires SamePacks(all, all')
    ensures Visit(all, name, w) == Visit(all', name, w)
    decreases all.Keys - w.visiting, 0
  {
    if name !in w.done && name !in w.visiting && name in all {
      var w1 := Walk(w.done, w.visiting + {name}, w.order);
      assert name in all.Keys - w.visiting && name !in all.Keys - w1.visiting;
      TextOrder();
      SortPermutation(LessEq, all[name].dependsOn, all'[name].dependsOn);
      VisitAllSame(all, all', Sort(LessEq, all[name].dependsOn), w1);
    }
  }

  lemma {:induction false} VisitAllSame(all: PackMap, all': PackMap, names: seq<Text>, w: Walk)
    requires SamePacks(all, all')
    ensures VisitAll(all, names, w) == VisitAll(all', names, w)
    decreases all.Keys - w.visiting, |names|
  {
    if names != [] {
      VisitSame(all, all', names[0], w);
      if Visit(all, names[0], w).Ok? {
        VisitAllSame(all, all', names[1..], Visit(all, names[0], w).value);
      }
    }
  }

  /** The order, or the error, does not change when the selection or any dependency list is permuted. */
  lemma ResolveOrderFree(all: PackMap, all': PackMap, selected: seq<Text>, selected': seq<Text>)
    requires SamePacks(all, all') && multiset(selected) == multiset(selected')
    ensures Resolve(all, selected) == Resolve(all', selected')
  {
    TextOrder();
    SortPermutation(LessEq, selected, selected');
    VisitAllSame(all, all', Sort(LessEq, selected), Walk({}, {}, []));
  }

  // ----- the ruleset hash -----------------------------------------------------------------

  function Label(name: Text, p: Pack): Text {
    name + ['@'] + p.version + ['#'] + p.contentHash
  }

  /** What is hashed of a load order: label and rule text of every pack. */
  function RulesetItems(all: PackMap, order: seq<Text>): seq<Text>
    requires forall n :: n in order ==> n in all
  {
    if order == [] then []
    else [Label(order[0], all[order[0]]), all[order[0]].rules] + RulesetItems(all, order[1..])
  }

  lemma {:induction false} RulesetItemsAppend(all: PackMap, order: seq<Text>, n: Text)
    requires n in all && forall n :: n in order ==> n in all
    ensures RulesetItems(all, order + [n]) == RulesetItems(all, order) + [Label(n, all[n]), all[n].rules]
  {
    if order == [] {
      assert order + [n] == [n];
    } else {
      assert (order + [n])[0] == order[0] && (order + [n])[1..] == order[1..] + [n];
      RulesetItemsAppend(all, order[1..], n);
    }
  }

  method RulesetHash(all: PackMap, order: seq<Text>, sha: Hashing.Digest) returns (h: Text)
    requires forall n :: n in order ==> n in all
    ensures h == sha(Hashing.Frames(RulesetItems(all, order)))
  {
    var items: seq<Text> := [];
    for i := 0 to |order|
      invariant items == RulesetItems(all, order[..i])
    {
      RulesetItemsAppend(all, order[..i], order[i]);
      assert order[..i + 1] == order[..i] + [order[i]];
      items := items + [Label(order[i], all[order[i]])];
      items := items + [all[order[i]].rules];
    }
    assert order[..|order|] == order;
    h := Hashing.Sha256HexItems(items, sha);
  }

  /** Item lists that start with two items each. */
  lemma PairPrefix(a: Text, b: Text, x: seq<Text>, c: Text, d: Text, y: seq<Text>)
    ensures [a, b] + x == [c, d] + y <==> a == c && b == d && x == y
  {
    var u, v := [a, b] + x, [c, d] + y;
    assert u[0] == a && u[1] == b && u[2..] == x;
    assert v[0] == c && v[1] == d && v[2..] == y;
  }

  /** The pack at each position has the same label and rule text. */
  ghost predicate SameRules(all: PackMap, order: seq<Text>, all': PackMap, order': seq<Text>)
    requires (forall n :: n in order ==> n in all) && (forall n :: n in order' ==> n in all')
  {
    |order| == |order'| && forall i :: 0 <= i < |order| ==>
      Label(order[i], all[order[i]]) == Label(order'[i], all'[order'[i]]) &&
          all[order[i]].rules == all'[order'[i]].rules
  }

  lemma SameRulesStep(all: PackMap, order: seq<Text>, all': PackMap, order': seq<Text>)
    requires (forall n :: n in order ==> n in all) && (forall n :: n in order' ==> n in all')
    requires order != [] && order' != []
    ensures SameRules(all, order, all', order')
       <==> && Label(order[0], all[order[0]]) == Label(order'[0], all'[order'[0]])
            && all[order[0]].rules == all'[order'[0]].rules && SameRules(all, order[1..], all', order'[1..])
  {
    if |order| == |order'| {
      assert order == [order[0]] + order[1..] && order' == [order'[0]] + order'[1..];
      forall i | 0 <= i < |order|
        ensures i > 0 ==> order[i] == order[1..][i - 1] && order'[i] == order'[1..][i - 1]
      {
      }
      if SameRules(all, order, all', order') {
        forall i | 0 <= i < |order[1..]|
          ensures Label(order[1..][i], all[order[1..][i]]) == Label(order'[1..][i], all'[order'[1..][i]])
          ensures all[order[1..][i]].rules == all'[order'[1..][i]].rules
        {
          assert order[1..][i] == order[i + 1] && order'[1..][i] == order'[i + 1];
        }
      }
    }
  }

  lemma {:induction false} SameItems(all: PackMap, order: seq<Text>, all': PackMap, order': seq<Text>)
    requires (forall n :: n in order ==> n in all) && (forall n :: n in order' ==> n in all')
    ensures RulesetItems(all, order) == RulesetItems(all', order') <==> SameRules(all, order, all', order')
  {
    if order != [] && order' != [] {
      SameItems(all, order[1..], all', order'[1..]);
      SameRulesStep(all, order, all', order');
      PairPrefix(Label(order[0], all[order[0]]), all[order[0]].rules, RulesetItems(all, order[1..]),
                 Label(order'[0], all'[order'[0]]), all'[order'[0]].rules, RulesetItems(all', order'[1..]));
    }
  }

  /** Two rulesets hash alike exactly when they load the same labels and rule texts in the same order,
      if the hash does not collide on the two streams. */
  lemma RulesetHashIdentifies(all: PackMap, order: seq<Text>, all': PackMap, order': seq<Text>, sha: Hashing.Digest)
    requires (forall n :: n in order ==> n in all) && (forall n :: n in order' ==> n in all')
    requires Hashing.FitU64(RulesetItems(all, order)) && Hashing.FitU64(RulesetItems(all', order'))
    requires var s, t := Hashing.Frames(RulesetItems(all, order)), Hashing.Frames(RulesetItems(all', order'));
             sha(s) == sha(t) ==> s == t
    ensures sha(Hashing.Frames(RulesetItems(all, order))) == sha(Hashing.Frames(RulesetItems(all', order')))
       <==> SameRules(all, order, all', order')
  {
    SameItems(all, order, all', order');
    if sha(Hashing.Frames(RulesetItems(all, order))) == sha(Hashing.Frames(RulesetItems(all', order'))) {
      Hashing.FramesInjective(RulesetItems(all, order), RulesetItems(all', order'));
    }
  }

  /** A label determines name, version and content hash when the name has no at sign and the content hash
      no number sign, as hexadecimal hashes have none. */
  lemma LabelInjective(n: Text, p: Pack, n': Text, p': Pack)
    requires '@' !in n && '@' !in n' && '#' !in p.contentHash && '#' !in p'.contentHash
    ensures Label(n, p) == Label(n', p') <==> n == n' && p.version == p'.version && p.contentHash == p'.contentHash
  {
    if Label(n, p) == Label(n', p') {
      assert Label(n, p) == n + ['@'] + (p.version + ['#'] + p.contentHash);
      assert Label(n', p') == n' + ['@'] + (p'.version + ['#'] + p'.contentHash);
      SplitOnceJoin(n, '@', p.version + ['#'] + p.contentHash);
      SplitOnceJoin(n', '@', p'.version + ['#'] + p'.contentHash);
      RSplitOnceJoin(p.version, '#', p.contentHash);
      RSplitOnceJoin(p'.version, '#', p'.contentHash);
    }
  }

  /** Two packs as a label describes them. */
  predicate SameNamed(n: Text, p: Pack, n': Text, p': Pack) {
    n == n' && p.version == p'.version && p.contentHash == p'.contentHash
  }

  /** The marks of a label stand where its parts say. */
  lemma LabelMarks(n: Text, p: Pack)
    ensures var l := Label(n, p); var j := |n| + 1 + |p.version|;
            && j < |l| && l[|n|] == '@' && l[j] == '#'
            && l[..|n|] == n && l[|n| + 1..j] == p.version && l[j + 1..] == p.contentHash
  {
    assert Label(n, p) == n + (['@'] + (p.version + (['#'] + p.contentHash)));
  }

  predicate PlainLabel(n: Text, p: Pack) {
    '@' !in n && '@' !in p.version && '#' !in p.version && '#' !in p.contentHash
  }

  /** Then no at sign stands before the content hash but the one after the name, and no number sign after
      the name but the one before the content hash. */
  lemma PlainMarks(n: Text, p: Pack, k: nat)
    requires PlainLabel(n, p) && k < |Label(n, p)|
    ensures var j := |n| + 1 + |p.version|;
            && (k < j && Label(n, p)[k] == '@' ==> k == |n|)
            && (k > |n| && Label(n, p)[k] == '#' ==> k == j)
  {
    var l, i, j := Label(n, p), |n|, |n| + 1 + |p.version|;
    LabelMarks(n, p);
    if k < i {
      assert n[k] == l[k];
    } else if i < k < j {
      assert p.version[k - i - 1] == l[k];
    } else if k > j {
      assert p.contentHash[k - j - 1] == l[k];
    }
  }

  /** So there is one way to read the label. */
  lemma PlainLabelReads(n: Text, p: Pack, n': Text, p': Pack)
    requires PlainLabel(n, p) && Label(n, p) == Label(n', p')
    ensures SameNamed(n, p, n', p')
  {
    LabelMarks(n, p);
    LabelMarks(n', p');
    PlainMarks(n, p, |n'|);
    PlainMarks(n, p, |n'| + 1 + |p'.version|);
  }

  lemma AtInName(n: Text, p: Pack) returns (n': Text, p': Pack)
    requires '@' in n
    ensures Label(n', p') == Label(n, p) && !SameNamed(n, p, n', p')
  {
    var (a, b) := SplitOnce(n, '@').value;
    n', p' := a, p.(version := b + ['@'] + p.version);
    assert a + ['@'] + b + ['@'] + p.version == a + ['@'] + (b + ['@'] + p.version);
  }

  lemma AtInVersion(n: Text, p: Pack) returns (n': Text, p': Pack)
    requires '@' in p.version
    ensures Label(n', p') == Label(n, p) && !SameNamed(n, p, n', p')
  {
    var (a, b) := SplitOnce(p.version, '@').value;
    n', p' := n + ['@'] + a, p.(version := b);
    assert n + ['@'] + a + ['@'] + b == n + ['@'] + (a + ['@'] + b);
  }

  lemma NumberInVersion(n: Text, p: Pack) returns (n': Text, p': Pack)
    requires '#' in p.version
    ensures Label(n', p') == Label(n, p) && !SameNamed(n, p, n', p')
  {
    var (a, b) := SplitOnce(p.version, '#').value;
    n', p' := n, p.(version := a, contentHash := b + ['#'] + p.contentHash);
    var x, y := n + ['@'], p.contentHash;
    assert x + (a + ['#'] + b) + ['#'] + y == x + a + ['#'] + (b + ['#'] + y);
  }

  lemma NumberInHash(n: Text, p: Pack) returns (n': Text, p': Pack)
    requires '#' in p.contentHash
    ensures Label(n', p') == Label(n, p) && !SameNamed(n, p, n', p')
  {
    var (a, b) := SplitOnce(p.contentHash, '#').value;
    n', p' := n, p.(version := p.version + ['#'] + a, contentHash := b);
    var x, v := n + ['@'], p.version;
    assert x + v + ['#'] + (a + ['#'] + b) == x + (v + ['#'] + a) + ['#'] + b;
  }

  /** A pack shares its label with a different one exactly when its name or version has an at sign, or its
      version or content hash a number sign. */
  lemma LabelSharedExactly(n: Text, p: Pack)
    ensures (exists n', p' :: Label(n', p') == Label(n, p) && !SameNamed(n, p, n', p'))
       <==> '@' in n || '@' in p.version || '#' in p.version || '#' in p.contentHash
  {
    if n', p' :| Label(n', p') == Label(n, p) && !SameNamed(n, p, n', p') {
      if PlainLabel(n, p) {
        PlainLabelReads(n, p, n', p');
      }
    }
    var n', p';
    if '@' in n {
      n', p' := AtInName(n, p);
    } else if '@' in p.version {
      n', p' := AtInVersion(n, p);
    } else if '#' in p.version {
      n', p' := NumberInVersion(n, p);
    } else if '#' in p.contentHash {
      n', p' := NumberInHash(n, p);
    }
  }

  /** The same packs in the same order. */
  ghost predicate SamePackList(all: PackMap, order: seq<Text>, all': PackMap, order': seq<Text>)
    requires (forall n :: n in order ==> n in all) && (forall n :: n in order' ==> n in all')
  {
    order == order' && forall n :: n in order ==>
      all[n].version == all'[n].version && all[n].contentHash == all'[n].contentHash && all[n].rules == all'[n].rules
  }

  ghost predicate PlainLabels(all: PackMap, order: seq<Text>)
    requires forall n :: n in order ==> n in all
  {
    forall n :: n in order ==> '@' !in n && '#' !in all[n].contentHash
  }

  /** With such names and hashes, the ruleset hash identifies names, versions, content hashes and rules. */
  lemma RulesetHashIdentifiesPacks(all: PackMap, order: seq<Text>, all': PackMap, order': seq<Text>,
                                   sha: Hashing.Digest)
    requires (forall n :: n in order ==> n in all) && (forall n :: n in order' ==> n in all')
    requires PlainLabels(all, order) && PlainLabels(all', order')
    requires Hashing.FitU64(RulesetItems(all, order)) && Hashing.FitU64(RulesetItems(all', order'))
    requires var s, t := Hashing.Frames(RulesetItems(all, order)), Hashing.Frames(RulesetItems(all', order'));
             sha(s) == sha(t) ==> s == t
    ensures sha(Hashing.Frames(RulesetItems(all, order))) == sha(Hashing.Frames(RulesetItems(all', order')))
       <==> SamePackList(all, order, all', order')
  {
    RulesetHashIdentifies(all, order, all', order', sha);
    SameRulesIffPacks(all, order, all', order');
  }

  lemma SameRulesIffPacks(all: PackMap, order: seq<Text>, all': PackMap, order': seq<Text>)
    requires (forall n :: n in order ==> n in all) && (forall n :: n in order' ==> n in all')
    requires PlainLabels(all, order) && PlainLabels(all', order')
    ensures SameRules(all, order, all', order') <==> SamePackList(all, order, all', order')
  {
    if SameRules(all, order, all', order') {
      forall i | 0 <= i < |order|
        ensures order[i] == order'[i] && all[order[i]].version == all'[order[i]].version
        ensures all[order[i]].contentHash == all'[order[i]].contentHash && all[order[i]].rules == all'[order[i]].rules
      {
        LabelInjective(order[i], all[order[i]], order'[i], all'[order'[i]]);
      }
      assert order == order';
    }
  }

  lemma {:induction false} RulesetItemsAt(all: PackMap, order: seq<Text>, i: nat)
    requires (forall n :: n in order ==> n in all) && i < |order|
    ensures var items, pack := RulesetItems(all, order), all[order[i]];
      && |items| == 2 * |order|
      && items[2 * i] == order[i] + "@" + pack.version + "#" + pack.contentHash
      && items[2 * i + 1] == pack.rules
  {
    var rest := RulesetItems(all, order[1..]);
    if |order| == 1 {
      assert rest == [];
    } else {
      RulesetItemsAt(all, order[1..], if i == 0 then 0 else i - 1);
      assert i > 0 ==> RulesetItems(all, order)[2 * i] == rest[2 * (i - 1)];
    }
  }

  /** What is hashed, read back: `name@version#hash` and rule text of every pack, alternating, in load order. */
  lemma RulesetStreamRead(all: PackMap, order: seq<Text>, i: nat) returns (items: seq<Text>)
    requires (forall n :: n in order ==> n in all) && Hashing.FitU64(RulesetItems(all, order)) && i < |order|
    ensures Hashing.ReadFrames(Hashing.Frames(RulesetItems(all, order))) == Some(items)
    ensures |items| == 2 * |order|
    ensures items[2 * i] == order[i] + "@" + all[order[i]].version + "#" + all[order[i]].contentHash
    ensures items[2 * i + 1] == all[order[i]].rules
  {
    items := RulesetItems(all, order);
    Hashing.FramesRead(items);
    RulesetItemsAt(all, order, i);
  }
}
