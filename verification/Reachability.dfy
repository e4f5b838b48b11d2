/** Reachability along the edges of a directed graph, as the existence of a path. */
module Reachability {

  type Edges<!T(==)> = iset<(T, T)>

  ghost predicate Step<T(!new)>(e: Edges<T>, p: seq<T>, i: nat)
    requires i + 1 < |p|
  {
    (p[i], p[i + 1]) in e
  }

  ghost predicate IsPath<T(!new)>(e: Edges<T>, p: seq<T>) {
    |p| > 0 && forall i {:trigger Step(e, p, i)} :: 0 <= i < |p| - 1 ==> Step(e, p, i)
  }

  ghost predicate PathBetween<T(!new)>(e: Edges<T>, a: T, b: T, p: seq<T>) {
    IsPath(e, p) && p[0] == a && p[|p| - 1] == b
  }

  /** `b` can be reached from `a` in zero or more steps. */
  ghost predicate Reach<T(!new)>(e: Edges<T>, a: T, b: T) {
    exists p :: PathBetween(e, a, b, p)
  }

  /** `b` can be reached from `a` in one or more steps. */
  ghost predicate ReachPlus<T(!new)>(e: Edges<T>, a: T, b: T) {
    exists m :: (a, m) in e && Reach(e, m, b)
  }

  lemma ReachRefl<T(!new)>(e: Edges<T>, a: T)
    ensures Reach(e, a, a)
  {
    assert PathBetween(e, a, a, [a]);
  }

  lemma ReachStep<T(!new)>(e: Edges<T>, a: T, b: T, c: T)
    requires Reach(e, a, b) && (b, c) in e
    ensures Reach(e, a, c)
  {
    var p :| PathBetween(e, a, b, p);
    var q := p + [c];
    forall i | 0 <= i < |q| - 1
      ensures Step(e, q, i)
    {
      if i < |p| - 1 {
        assert Step(e, p, i);
        assert q[i] == p[i] && q[i + 1] == p[i + 1];
      }
    }
    assert PathBetween(e, a, c, q);
  }

  lemma ReachFromEdge<T(!new)>(e: Edges<T>, a: T, b: T)
    requires (a, b) in e
    ensures Reach(e, a, b) && ReachPlus(e, a, b)
  {
    ReachRefl(e, a);
    ReachStep(e, a, a, b);
    ReachRefl(e, b);
  }

  /** Induction over reachability: a set closed under the edges is never left. */
  lemma ReachInduct<T(!new)>(e: Edges<T>, s: iset<T>, a: T, b: T)
    requires a in s && Reach(e, a, b)
    requires forall x, y :: x in s && (x, y) in e ==> y in s
    ensures b in s
  {
    var p :| PathBetween(e, a, b, p);
    var i := 0;
    while i < |p| - 1
      invariant 0 <= i < |p|
      invariant p[i] in s
    {
      assert Step(e, p, i);
      i := i + 1;
    }
  }

  lemma ReachTrans<T(!new)>(e: Edges<T>, a: T, b: T, c: T)
    requires Reach(e, a, b) && Reach(e, b, c)
    ensures Reach(e, a, c)
  {
    var s := iset x | Reach(e, a, x);
    forall x, y | x in s && (x, y) in e
      ensures y in s
    {
      ReachStep(e, a, x, y);
    }
    ReachInduct(e, s, b, c);
  }

  lemma ReachPlusStep<T(!new)>(e: Edges<T>, a: T, b: T, c: T)
    requires ReachPlus(e, a, b) && (b, c) in e
    ensures ReachPlus(e, a, c)
  {
    var m :| (a, m) in e && Reach(e, m, b);
    ReachStep(e, m, b, c);
  }

  /** Decompose at the first step instead of the last. */
  lemma ReachCases<T(!new)>(e: Edges<T>, a: T, b: T)
    requires Reach(e, a, b)
    ensures a == b || ReachPlus(e, a, b)
  {
    var s := iset x | a == x || ReachPlus(e, a, x);
    forall x, y | x in s && (x, y) in e
      ensures y in s
    {
      if a == x { ReachFromEdge(e, a, y); } else { ReachPlusStep(e, a, x, y); }
    }
    ReachInduct(e, s, a, b);
  }
}
