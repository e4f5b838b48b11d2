/** The load order of rule packs, packs one by one: what a selection adds to the order of a smaller one,
    and how the order of one pack follows from those of its dependencies. */
module PackOrder {
  import opened Texts
  import opened Sorting
  import opened Reachability
  import opened Packs

  function Without(s: seq<Text>, skip: set<Text>): (r: seq<Text>)
    ensures forall x :: x in r <==> x in s && x !in skip
  {
    if s == [] then []
    else (if s[0] in skip then [] else [s[0]]) + Without(s[1..], skip)
  }

  lemma {:induction false} WithoutAppend(s: seq<Text>, t: seq<Text>, skip: set<Text>)
    ensures Without(s + t, skip) == Without(s, skip) + Without(t, skip)
  {
    if s == [] {
      assert s + t == t;
    } else {
      assert (s + t)[1..] == s[1..] + t;
      WithoutAppend(s[1..], t, skip);
    }
  }

  lemma {:induction false} WithoutNone(s: seq<Text>, skip: set<Text>)
    requires forall x :: x in s ==> x in skip
    ensures Without(s, skip) == []
  {
    if s != [] {
      WithoutNone(s[1..], skip);
    }
  }

  // ----- a search only appends ------------------------------------------------------------------

  lemma {:induction false} VisitAppends(all: PackMap, name: Text, w: Walk)
    requires Visit(all, name, w).Ok?
    ensures w.order <= Visit(all, name, w).value.order && w.done <= Visit(all, name, w).value.done
    decreases all.Keys - w.visiting, 0
  {
    if name !in w.done {
      var w1 := Walk(w.done, w.visiting + {name}, w.order);
      assert name in all.Keys - w.visiting && name !in all.Keys - w1.visiting;
      VisitAllAppends(all, Sort(LessEq, all[name].dependsOn), w1);
    }
  }

  lemma {:induction false} VisitAllAppends(all: PackMap, names: seq<Text>, w: Walk)
    requires VisitAll(all, names, w).Ok?
    ensures w.order <= VisitAll(all, names, w).value.order && w.done <= VisitAll(all, names, w).value.done
    decreases all.Keys - w.visiting, |names|
  {
    if names != [] {
      VisitAppends(all, names[0], w);
      VisitAllAppends(all, names[1..], Visit(all, names[0], w).value);
    }
  }

  // ----- a search that starts with packs already loaded -----------------------------------------

  /** The walk `w` as it runs after `loaded`. */
  function After(loaded: seq<Text>, w: Walk): Walk {
    Walk(w.done + Elements(loaded), w.visiting, loaded + Without(w.order, Elements(loaded)))
  }

  function AfterResult(loaded: seq<Text>, r: Result<Walk, ResolveError>): Result<Walk, ResolveError> {
    match r
    case Err(e) => Err(e)
    case Ok(w) => Ok(After(loaded, w))
  }

  /** A walk that went on to finish loaded packs only is the same after them. */
  lemma OnlyLoaded(loaded: seq<Text>, w: Walk, w2: Walk)
    requires w.order <= w2.order && w.done <= w2.done && w2.visiting == w.visiting
    requires Distinct(w2.order) && Elements(w.order) == w.done && Elements(w2.order) == w2.done
    requires forall x :: x in w2.done && x !in w.done ==> x in loaded
    ensures After(loaded, w2) == After(loaded, w)
  {
    var ext, skip := w2.order[|w.order|..], Elements(loaded);
    assert w2.order == w.order + ext;
    forall x | x in ext
      ensures x in skip
    {
      assert x in Elements(w2.order);
      assert x !in Elements(w.order);
    }
    WithoutAppend(w.order, ext, skip);
    WithoutNone(ext, skip);
    assert w2.done + skip == w.done + skip;
    assert Without(w.order, skip) + [] == Without(w.order, skip);
  }

  lemma LoadedReaches(all: PackMap, loaded: seq<Text>, name: Text, x: Text)
    requires Ordered(all, loaded) && name in loaded && Reach(Deps(all), name, x)
    ensures x in loaded && !Bad(all, x)
  {
    var k :| 0 <= k < |loaded| && loaded[k] == name;
    ReachBefore(all, loaded, k, x);
    OrderedAcyclic(all, loaded, x);
  }

  /** A loaded pack is visited without error and adds only loaded packs. */
  lemma LoadedVisit(all: PackMap, loaded: seq<Text>, name: Text, w: Walk)
    requires Ordered(all, loaded) && name in loaded && Consistent(all, w)
    requires forall v :: v in w.visiting ==> ReachPlus(Deps(all), v, name)
    ensures AfterResult(loaded, Visit(all, name, w)) == Ok(After(loaded, w))
  {
    var r := Visit(all, name, w);
    if r.Err? {
      VisitErr(all, name, w);
      LoadedReaches(all, loaded, name, r.error.name);
    } else {
      VisitOk(all, name, w);
      VisitAppends(all, name, w);
      forall x | x in r.value.done && x !in w.done
        ensures x in loaded
      {
        LoadedReaches(all, loaded, name, x);
      }
      OnlyLoaded(loaded, w, r.value);
    }
  }

  lemma {:induction false} VisitAfter(all: PackMap, loaded: seq<Text>, name: Text, w: Walk)
    requires Ordered(all, loaded) && Consistent(all, w) && w.visiting !! Elements(loaded)
    requires forall v :: v in w.visiting ==> ReachPlus(Deps(all), v, name)
    ensures Visit(all, name, After(loaded, w)) == AfterResult(loaded, Visit(all, name, w))
    decreases all.Keys - w.visiting, 0
  {
    if name in loaded {
      LoadedVisit(all, loaded, name, w);
    } else if name !in w.done && name !in w.visiting && name in all {
      var deps := Sort(LessEq, all[name].dependsOn);
      var w1 := Walk(w.done, w.visiting + {name}, w.order);
      assert name in all.Keys - w.visiting && name !in all.Keys - w1.visiting;
      SortedSame(all[name].dependsOn);
      forall d, v | d in deps && v in w1.visiting
        ensures ReachPlus(Deps(all), v, d)
      {
        if v == name { ReachFromEdge(Deps(all), name, d); } else { ReachPlusStep(Deps(all), v, name, d); }
      }
      VisitAllAfter(all, loaded, deps, w1);
      if VisitAll(all, deps, w1).Ok? {
        Finished(loaded, VisitAll(all, deps, w1).value, name);
      }
    }
  }

  lemma Finished(loaded: seq<Text>, w: Walk, name: Text)
    requires name !in loaded
    ensures var a := After(loaded, w);
      Walk(a.done + {name}, a.visiting - {name}, a.order + [name])
        == After(loaded, Walk(w.done + {name}, w.visiting - {name}, w.order + [name]))
  {
    var skip := Elements(loaded);
    WithoutAppend(w.order, [name], skip);
    assert Without([name], skip) == [name];
    assert w.done + skip + {name} == w.done + {name} + skip;
  }

  lemma {:induction false} VisitAllAfter(all: PackMap, loaded: seq<Text>, names: seq<Text>, w: Walk)
    requires Ordered(all, loaded) && Consistent(all, w) && w.visiting !! Elements(loaded)
    requires forall d, v :: d in names && v in w.visiting ==> ReachPlus(Deps(all), v, d)
    ensures VisitAll(all, names, After(loaded, w)) == AfterResult(loaded, VisitAll(all, names, w))
    decreases all.Keys - w.visiting, |names|
  {
    if names != [] {
      VisitAfter(all, loaded, names[0], w);
      if Visit(all, names[0], w).Ok? {
        VisitOk(all, names[0], w);
        VisitAllAfter(all, loaded, names[1..], Visit(all, names[0], w).value);
      }
    }
  }

  // ----- one more selected pack ---------------------------------------------------------------------

  lemma SortLast(names: seq<Text>, n: Text)
    requires forall m :: m in names ==> LessEq(m, n)
    ensures Sort(LessEq, names + [n]) == Sort(LessEq, names) + [n]
  {
    TextOrder();
    SortSorted(LessEq, names);
    SortSorted(LessEq, names + [n]);
    SortedSame(names);
    SortedBagUnique(LessEq, Sort(LessEq, names + [n]), Sort(LessEq, names) + [n]);
  }

  lemma {:induction false} VisitAllLast(all: PackMap, names: seq<Text>, n: Text, w: Walk)
    ensures VisitAll(all, names + [n], w)
         == match VisitAll(all, names, w) case Err(e) => Err(e) case Ok(w1) => Visit(all, n, w1)
    decreases |names|
  {
    if names == [] {
      assert names + [n] == [n] && [n][1..] == [];
    } else {
      assert (names + [n])[1..] == names[1..] + [n];
      if Visit(all, names[0], w).Ok? {
        VisitAllLast(all, names[1..], n, Visit(all, names[0], w).value);
      }
    }
  }

  lemma ResolveOne(all: PackMap, n: Text)
    ensures Resolve(all, [n])
         == match Visit(all, n, Walk({}, {}, [])) case Err(e) => Err(e) case Ok(w) => Ok(w.order)
  {
    var s := Sort(LessEq, [n]);
    assert [n][1..] == [];
    assert s == Insert(LessEq, n, Sort(LessEq, [])) == [n];
    assert VisitAll(all, [n], Walk({}, {}, []))
        == match Visit(all, n, Walk({}, {}, [])) case Err(e) => Err(e) case Ok(w) => VisitAll(all, [], w);
  }

  /** The search has loaded the order of the selection, and nothing else has happened. */
  lemma LoadedStart(all: PackMap, names: seq<Text>)
    requires Resolve(all, names).Ok?
    ensures var loaded, empty := Resolve(all, names).value, Walk({}, {}, []);
      && VisitAll(all, Sort(LessEq, names), empty) == Ok(After(loaded, empty))
      && Ordered(all, loaded) && Consistent(all, empty)
  {
    var w := ResolvedWalk(all, names);
    SelectionEmptyWalk(all);
    assert w.order + Without([], Elements(w.order)) == w.order;
    assert w == After(w.order, Walk({}, {}, []));
  }

  /** Selecting one more pack, last by name, appends those packs of its own order that are not loaded yet. */
  lemma ResolveLast(all: PackMap, names: seq<Text>, n: Text)
    requires forall m :: m in names ==> LessEq(m, n)
    ensures Resolve(all, names + [n])
         == match Resolve(all, names)
            case Err(e) => Err(e)
            case Ok(loaded) =>
              match Resolve(all, [n])
              case Err(e) => Err(e)
              case Ok(more) => Ok(loaded + Without(more, Elements(loaded)))
  {
    var empty := Walk({}, {}, []);
    SortLast(names, n);
    VisitAllLast(all, Sort(LessEq, names), n, empty);
    ResolveOne(all, n);
    if Resolve(all, names).Ok? {
      LoadedStart(all, names);
      VisitAfter(all, Resolve(all, names).value, n, empty);
    }
  }

  // ----- one pack and its dependencies --------------------------------------------------------------

  /** A pack that is never reached may as well be on the way. */
  lemma {:induction false} VisitUnder(all: PackMap, name: Text, w: Walk, n: Text)
    requires Visit(all, name, w).Ok? && n !in Visit(all, name, w).value.done && n !in w.visiting
    ensures Visit(all, name, w.(visiting := w.visiting + {n}))
         == Ok(Visit(all, name, w).value.(visiting := w.visiting + {n}))
    decreases all.Keys - w.visiting, 0
  {
    if name !in w.done {
      var deps := Sort(LessEq, all[name].dependsOn);
      var w1 := Walk(w.done, w.visiting + {name}, w.order);
      assert name in all.Keys - w.visiting && name !in all.Keys - w1.visiting;
      VisitAllUnder(all, deps, w1, n);
      assert w.visiting + {n} + {name} == w1.visiting + {n};
      assert w1.visiting + {n} - {name} == w.visiting + {n};
    }
  }

  lemma {:induction false} VisitAllUnder(all: PackMap, names: seq<Text>, w: Walk, n: Text)
    requires VisitAll(all, names, w).Ok? && n !in VisitAll(all, names, w).value.done && n !in w.visiting
    ensures VisitAll(all, names, w.(visiting := w.visiting + {n}))
         == Ok(VisitAll(all, names, w).value.(visiting := w.visiting + {n}))
    decreases all.Keys - w.visiting, |names|
  {
    if names != [] {
      var w1 := Visit(all, names[0], w).value;
      VisitAllAppends(all, names[1..], w1);
      VisitUnder(all, names[0], w, n);
      VisitAllUnder(all, names[1..], w1, n);
    }
  }

  /** Dependencies that load do not lead back to the pack. */
  lemma NotItsOwnDependency(all: PackMap, n: Text)
    requires n in all && Resolve(all, all[n].dependsOn).Ok?
    ensures n !in Resolve(all, all[n].dependsOn).value
  {
    var deps := all[n].dependsOn;
    ResolvedMembers(all, deps, n);
    if n in Resolve(all, deps).value {
      var d :| d in deps && Reach(Deps(all), d, n);
      assert (n, d) in Deps(all);
      OrderedAcyclic(all, Resolve(all, deps).value, n);
    }
  }

  /** The order of one pack is that of its dependencies, and then the pack; nothing has to be loaded for
      nothing. */
  lemma ResolveExactly(all: PackMap, n: Text)
    ensures Resolve(all, []) == Ok([])
    ensures n !in all ==> Resolve(all, [n]) == Err(Unknown(n))
    ensures n in all && Resolve(all, all[n].dependsOn).Ok? ==>
      Resolve(all, [n]) == Ok(Resolve(all, all[n].dependsOn).value + [n])
  {
    ResolveOne(all, n);
    if n in all && Resolve(all, all[n].dependsOn).Ok? {
      var deps, empty := Sort(LessEq, all[n].dependsOn), Walk({}, {}, []);
      NotItsOwnDependency(all, n);
      var w := ResolvedWalk(all, all[n].dependsOn);
      assert n in w.done ==> n in Elements(w.order);
      VisitAllUnder(all, deps, empty, n);
      assert empty.visiting + {n} == {n};
    }
  }
}
