/** Flake lock files (extract/flake.rs): resolving `follows` paths, the input graph that is written,
    and what the `resolvesTo` rules of the core pack make of it.

    `resolve_follows` calls itself on nested follows paths and has no bound of its own; here `depth`
    bounds the nesting, and running out of it is the outcome `Diverged`. */
module Follows {
  import opened Texts

  /** What an input of a lock node points at; an array's elements that are not strings are skipped. */
  datatype Target = Direct(id: Text) | FollowsPath(parts: seq<Option<Text>>) | OtherValue

  /** `narHash` is the locked NAR hash; `inputs` is empty when the node has none. */
  datatype LockNode = LockNode(narHash: Option<Text>, inputs: map<Text, Target>)

  datatype Lock = Lock(root: Text, nodes: map<Text, LockNode>)

  type Input = (Text, Text)

  function Strings(parts: seq<Option<Text>>): seq<Text> {
    if parts == [] then []
    else (if parts[0].Some? then [parts[0].value] else []) + Strings(parts[1..])
  }

  lemma {:induction false} StringsOfPath(path: seq<Text>)
    ensures Strings(seq(|path|, i requires 0 <= i < |path| => Some(path[i]))) == path
  {
    if path != [] {
      var all := seq(|path|, i requires 0 <= i < |path| => Some(path[i]));
      assert all[1..] == seq(|path[1..]|, i requires 0 <= i < |path[1..]| => Some(path[1..][i]));
      StringsOfPath(path[1..]);
      assert path == [path[0]] + path[1..];
    }
  }

  lemma {:induction false} StringsAppend(parts: seq<Option<Text>>, more: seq<Option<Text>>)
    ensures Strings(parts + more) == Strings(parts) + Strings(more)
  {
    if parts == [] {
      assert parts + more == more;
    } else {
      assert (parts + more)[1..] == parts[1..] + more;
      StringsAppend(parts[1..], more);
    }
  }

  /** The path of an array of strings is the array; other elements are left out, wherever they stand. */
  lemma {:induction false} StringsExactly(path: seq<Text>, parts: seq<Option<Text>>, more: seq<Option<Text>>)
    ensures Strings(seq(|path|, i requires 0 <= i < |path| => Some(path[i]))) == path
    ensures Strings(parts + [None] + more) == Strings(parts + more)
  {
    StringsOfPath(path);
    StringsAppend(parts, more);
    StringsAppend(parts, [None] + more);
    assert parts + [None] + more == parts + ([None] + more);
    assert ([None] + more)[1..] == more;
  }

  function Lookup(l: Lock, node: Text, name: Text): Option<Target> {
    if node in l.nodes && name in l.nodes[node].inputs then Some(l.nodes[node].inputs[name]) else None
  }

  // ----- resolve_follows -----------------------------------------------------------------

  datatype Outcome = Diverged | Unresolved | Found(parent: Text, name: Text)

  datatype Hopped = TooDeep | Nowhere | To(id: Text)

  /** One intermediate element: a direct target, or a followed input whose own target is direct. */
  function Hop(l: Lock, cur: Text, name: Text, depth: nat): Hopped
    decreases depth, 0
  {
    match Lookup(l, cur, name)
    case Some(Direct(id)) => To(id)
    case Some(FollowsPath(parts)) =>
      if depth == 0 then TooDeep
      else
        (match Resolve(l, Strings(parts), depth - 1)
         case Diverged => TooDeep
         case Unresolved => Nowhere
         case Found(parent, n) => DirectTarget(l, parent, n))
    case _ => Nowhere
  }

  function DirectTarget(l: Lock, parent: Text, name: Text): Hopped {
    match Lookup(l, parent, name)
    case Some(Direct(id)) => To(id)
    case _ => Nowhere
  }

  function ResolveFrom(l: Lock, cur: Text, path: seq<Text>, depth: nat): Outcome
    requires path != []
    decreases depth, |path|
  {
    if |path| == 1 then Found(cur, path[0])
    else
      match Hop(l, cur, path[0], depth)
      case TooDeep => Diverged
      case Nowhere => Unresolved
      case To(id) => ResolveFrom(l, id, path[1..], depth)
  }

  function Resolve(l: Lock, path: seq<Text>, depth: nat): Outcome
    decreases depth, |path| + 1
  {
    if path == [] then Unresolved else ResolveFrom(l, l.root, path, depth)
  }

  method ResolveFollows(l: Lock, path: seq<Text>, depth: nat) returns (r: Outcome)
    ensures r == Resolve(l, path, depth)
    decreases depth
  {
    if path == [] {
      return Unresolved;
    }
    var cur := l.root;
    for i := 0 to |path| - 1
      invariant ResolveFrom(l, l.root, path, depth) == ResolveFrom(l, cur, path[i..], depth)
    {
      assert path[i..][1..] == path[i + 1..] && path[i..][0] == path[i];
      match Lookup(l, cur, path[i]) {
        case Some(Direct(id)) =>
          cur := id;
        case Some(FollowsPath(parts)) =>
          if depth == 0 {
            return Diverged;
          }
          var inner := ResolveFollows(l, Strings(parts), depth - 1);
          match inner {
            case Diverged => return Diverged;
            case Unresolved => return Unresolved;
            case Found(parent, n) =>
              match Lookup(l, parent, n) {
                case Some(Direct(id)) => cur := id;
                case _ => return Unresolved;
              }
          }
        case _ =>
          return Unresolved;
      }
    }
    r := Found(cur, path[|path| - 1]);
  }

  // ----- the full walk ----------------------------------------------------------------------

  /** The node an input denotes: follow every follows path from the root, through as many further
      follows as it takes. */
  function WalkInput(l: Lock, node: Text, name: Text, depth: nat): Option<Text>
    decreases depth, 0
  {
    match Lookup(l, node, name)
    case Some(Direct(id)) => Some(id)
    case Some(FollowsPath(parts)) => if depth == 0 then None else Walk(l, l.root, Strings(parts), depth - 1)
    case _ => None
  }

  function Walk(l: Lock, from: Text, path: seq<Text>, depth: nat): Option<Text>
    decreases depth, |path| + 1
  {
    if path == [] then Some(from)
    else
      match WalkInput(l, from, path[0], depth)
      case None => None
      case Some(n) => Walk(l, n, path[1..], depth)
  }

  ghost predicate Denotes(l: Lock, a: Input, t: Text) {
    exists depth: nat :: WalkInput(l, a.0, a.1, depth) == Some(t)
  }

  lemma {:induction false} WalkInputMonotone(l: Lock, node: Text, name: Text, d: nat, e: nat)
    requires d <= e && WalkInput(l, node, name, d).Some?
    ensures WalkInput(l, node, name, e) == WalkInput(l, node, name, d)
    decreases d, 0
  {
    match Lookup(l, node, name)
    case Some(FollowsPath(parts)) => WalkMonotone(l, l.root, Strings(parts), d - 1, e - 1);
    case _ =>
  }

  lemma {:induction false} WalkMonotone(l: Lock, from: Text, path: seq<Text>, d: nat, e: nat)
    requires d <= e && Walk(l, from, path, d).Some?
    ensures Walk(l, from, path, e) == Walk(l, from, path, d)
    decreases d, |path| + 1
  {
    if path != [] {
      WalkInputMonotone(l, from, path[0], d, e);
      WalkMonotone(l, WalkInput(l, from, path[0], d).value, path[1..], d, e);
    }
  }

  lemma DenotesFunctional(l: Lock, a: Input, t: Text, u: Text)
    requires Denotes(l, a, t) && Denotes(l, a, u)
    ensures t == u
  {
    var d: nat :| WalkInput(l, a.0, a.1, d) == Some(t);
    var e: nat :| WalkInput(l, a.0, a.1, e) == Some(u);
    if d <= e { WalkInputMonotone(l, a.0, a.1, d, e); } else { WalkInputMonotone(l, a.0, a.1, e, d); }
  }

  /** Resolution never leaves the full walk: each hop goes where the walk goes. */
  lemma {:induction false} HopWalks(l: Lock, cur: Text, name: Text, depth: nat)
    requires Hop(l, cur, name, depth).To?
    ensures WalkInput(l, cur, name, depth) == Some(Hop(l, cur, name, depth).id)
    decreases depth, 0
  {
    match Lookup(l, cur, name)
    case Some(FollowsPath(parts)) =>
      var path := Strings(parts);
      var r := Resolve(l, path, depth - 1);
      ResolveWalks(l, l.root, path, depth - 1, depth - 1, Hop(l, cur, name, depth).id);
    case _ =>
  }

  /** Continuing from the resolved input is the same as walking the whole path. */
  lemma {:induction false} ResolveWalks(l: Lock, cur: Text, path: seq<Text>, d: nat, e: nat, t: Text)
    requires path != [] && d <= e && ResolveFrom(l, cur, path, d).Found?
    ensures var r := ResolveFrom(l, cur, path, d);
            Walk(l, cur, path, e) == Some(t) <==> WalkInput(l, r.parent, r.name, e) == Some(t)
    decreases d, |path|
  {
    if |path| > 1 {
      HopWalks(l, cur, path[0], d);
      WalkInputMonotone(l, cur, path[0], d, e);
      ResolveWalks(l, Hop(l, cur, path[0], d).id, path[1..], d, e, t);
    } else {
      assert path[1..] == [];
    }
  }

  /** A resolved follows edge preserves what the input denotes, in both directions. */
  lemma FollowsPreservesDenotation(l: Lock, a: Input, path: seq<Text>, depth: nat, t: Text)
    requires path != [] && Resolve(l, path, depth).Found?
    requires exists parts :: Lookup(l, a.0, a.1) == Some(FollowsPath(parts)) && Strings(parts) == path
    ensures var r := Resolve(l, path, depth); Denotes(l, a, t) <==> Denotes(l, (r.parent, r.name), t)
  {
    var r := Resolve(l, path, depth);
    if Denotes(l, a, t) {
      var d: nat :| WalkInput(l, a.0, a.1, d) == Some(t);
      var e := d + depth;
      WalkMonotone(l, l.root, path, d - 1, e);
      ResolveWalks(l, l.root, path, depth, e, t);
    }
    if Denotes(l, (r.parent, r.name), t) {
      var d: nat :| WalkInput(l, r.parent, r.name, d) == Some(t);
      var e := d + depth;
      WalkInputMonotone(l, r.parent, r.name, d, e);
      ResolveWalks(l, l.root, path, depth, e, t);
      assert WalkInput(l, a.0, a.1, e + 1) == Some(t);
    }
  }

  // ----- the depth does not matter -----------------------------------------------------------

  /** A resolution that ended within some depth ends the same way at every greater depth. */
  lemma {:induction false} ResolveStable(l: Lock, cur: Text, path: seq<Text>, d: nat, e: nat)
    requires path != [] && d <= e && !ResolveFrom(l, cur, path, d).Diverged?
    ensures ResolveFrom(l, cur, path, e) == ResolveFrom(l, cur, path, d)
    decreases d, |path|
  {
    if |path| > 1 {
      HopStable(l, cur, path[0], d, e);
      if Hop(l, cur, path[0], d).To? {
        ResolveStable(l, Hop(l, cur, path[0], d).id, path[1..], d, e);
      }
    }
  }

  lemma {:induction false} HopStable(l: Lock, cur: Text, name: Text, d: nat, e: nat)
    requires d <= e && !Hop(l, cur, name, d).TooDeep?
    ensures Hop(l, cur, name, e) == Hop(l, cur, name, d)
    decreases d, 0
  {
    match Lookup(l, cur, name)
    case Some(FollowsPath(parts)) =>
      if Strings(parts) != [] {
        ResolveStable(l, l.root, Strings(parts), d - 1, e - 1);
      }
    case _ =>
  }

  // ----- when a path resolves -------------------------------------------------------------------

  /** An element that resolution gets past: a direct input, or one that follows a path which itself
      resolves and whose last input is direct. */
  ghost predicate Passable(l: Lock, node: Text, name: Text, depth: nat)
    decreases depth, 0
  {
    match Lookup(l, node, name)
    case Some(Direct(_)) => true
    case Some(FollowsPath(parts)) =>
      depth > 0 && Strings(parts) != [] && Resolvable(l, l.root, Strings(parts), depth - 1)
      && EndsDirect(l, l.root, Strings(parts), depth - 1)
    case _ => false
  }

  /** A non-empty path whose intermediate elements, each located by the full walk, are passable. */
  ghost predicate Resolvable(l: Lock, from: Text, path: seq<Text>, depth: nat)
    decreases depth, 2
  {
    path != [] && forall i {:trigger path[..i]} :: 0 <= i < |path| - 1 ==>
        PassableAt(l, Walk(l, from, path[..i], depth), path[i], depth)
  }

  ghost predicate PassableAt(l: Lock, node: Option<Text>, name: Text, depth: nat)
    decreases depth, 1
  {
    node.Some? && Passable(l, node.value, name, depth)
  }

  /** The node that holds the last input of the path, by the full walk. */
  function ParentByWalk(l: Lock, from: Text, path: seq<Text>, depth: nat): Option<Text>
    requires path != []
  {
    Walk(l, from, path[..|path| - 1], depth)
  }

  predicate EndsDirect(l: Lock, from: Text, path: seq<Text>, depth: nat)
    requires path != []
  {
    var n := ParentByWalk(l, from, path, depth);
    n.Some? && Lookup(l, n.value, path[|path| - 1]).Some? && Lookup(l, n.value, path[|path| - 1]).value.Direct?
  }

  /** What a path resolves to is its last element, at the node the full walk reaches before it. */
  lemma {:induction false} FoundByWalk(l: Lock, cur: Text, path: seq<Text>, depth: nat)
    requires path != [] && ResolveFrom(l, cur, path, depth).Found?
    ensures var r := ResolveFrom(l, cur, path, depth);
            ParentByWalk(l, cur, path, depth) == Some(r.parent) && r.name == path[|path| - 1]
    decreases |path|
  {
    if |path| > 1 {
      var id := Hop(l, cur, path[0], depth).id;
      HopWalks(l, cur, path[0], depth);
      FoundByWalk(l, id, path[1..], depth);
      assert path[..|path| - 1][1..] == path[1..][..|path| - 2];
    } else {
      assert path[..0] == [];
    }
  }

  lemma ResolvableStep(l: Lock, from: Text, path: seq<Text>, depth: nat, id: Text)
    requires |path| > 1 && WalkInput(l, from, path[0], depth) == Some(id)
    ensures Resolvable(l, from, path, depth) <==>
            Passable(l, from, path[0], depth) && Resolvable(l, id, path[1..], depth)
  {
    assert path[..0] == [];
    forall i | 0 < i < |path| - 1
      ensures Walk(l, from, path[..i], depth) == Walk(l, id, path[1..][..i - 1], depth) && path[i] == path[1..][i - 1]
    {
      assert path[..i][1..] == path[1..][..i - 1];
    }
    if Resolvable(l, from, path, depth) {
      assert PassableAt(l, Walk(l, from, path[..0], depth), path[0], depth);
      forall i | 0 <= i < |path[1..]| - 1
        ensures PassableAt(l, Walk(l, id, path[1..][..i], depth), path[1..][i], depth)
      {
        assert PassableAt(l, Walk(l, from, path[..i + 1], depth), path[i + 1], depth);
      }
    }
    if Passable(l, from, path[0], depth) && Resolvable(l, id, path[1..], depth) {
      forall i | 0 <= i < |path| - 1
        ensures PassableAt(l, Walk(l, from, path[..i], depth), path[i], depth)
      {
        if i > 0 { assert PassableAt(l, Walk(l, id, path[1..][..i - 1], depth), path[1..][i - 1], depth); }
      }
    }
  }

  lemma {:induction false} HopExactly(l: Lock, cur: Text, name: Text, depth: nat)
    ensures Hop(l, cur, name, depth).To? <==> Passable(l, cur, name, depth)
    decreases depth, 0
  {
    match Lookup(l, cur, name)
    case Some(FollowsPath(parts)) =>
      var path := Strings(parts);
      if depth > 0 && path != [] {
        ResolveFromExactly(l, l.root, path, depth - 1);
        if ResolveFrom(l, l.root, path, depth - 1).Found? {
          FoundByWalk(l, l.root, path, depth - 1);
        }
      }
    case _ =>
  }

  lemma {:induction false} ResolveFromExactly(l: Lock, cur: Text, path: seq<Text>, depth: nat)
    requires path != []
    ensures ResolveFrom(l, cur, path, depth).Found? <==> Resolvable(l, cur, path, depth)
    decreases depth, |path|
  {
    if |path| > 1 {
      HopExactly(l, cur, path[0], depth);
      assert path[..0] == [];
      assert Resolvable(l, cur, path, depth) ==> PassableAt(l, Walk(l, cur, path[..0], depth), path[0], depth);
      if Hop(l, cur, path[0], depth).To? {
        var id := Hop(l, cur, path[0], depth).id;
        HopWalks(l, cur, path[0], depth);
        ResolvableStep(l, cur, path, depth, id);
        ResolveFromExactly(l, id, path[1..], depth);
      }
    }
  }

  /** A path resolves exactly when it is not empty and each intermediate element is direct, or follows a
      path that resolves and ends in a direct input; where it has ended at all, no depth changes that. */
  lemma ResolvesExactly(l: Lock, path: seq<Text>, depth: nat)
    ensures Resolve(l, path, depth).Found? <==> Resolvable(l, l.root, path, depth)
    ensures !Resolve(l, path, depth).Diverged?
       ==> (Resolve(l, path, depth).Found? <==> exists e: nat :: Resolvable(l, l.root, path, e))
  {
    if path != [] {
      ResolveFromExactly(l, l.root, path, depth);
      if !Resolve(l, path, depth).Diverged? {
        if e: nat :| Resolvable(l, l.root, path, e) {
          ResolveFromExactly(l, l.root, path, e);
          if e <= depth {
            ResolveStable(l, l.root, path, e, depth);
          } else {
            ResolveStable(l, l.root, path, depth, e);
          }
        }
      }
    }
  }

  /** An input that follows the empty path denotes the root, and the empty path never resolves. */
  lemma EmptyFollowsLosesRoot(l: Lock, a: Input, parts: seq<Option<Text>>)
    requires Lookup(l, a.0, a.1) == Some(FollowsPath(parts)) && Strings(parts) == []
    ensures Denotes(l, a, l.root) && forall depth: nat :: Resolve(l, [], depth) == Unresolved
  {
    assert WalkInput(l, a.0, a.1, 1) == Some(l.root);
  }

  /** The walk passes, at position `i`, an input that follows the empty path or a path whose last input
      is not direct. */
  ghost predicate FollowsTwiceAt(l: Lock, path: seq<Text>, i: nat, parts: seq<Option<Text>>, depth: nat) {
    && i + 1 < |path| && Walk(l, l.root, path[..i], depth).Some?
    && Lookup(l, Walk(l, l.root, path[..i], depth).value, path[i]) == Some(FollowsPath(parts))
    && (Strings(parts) == []
        || (ParentByWalk(l, l.root, Strings(parts), depth).Some? && !EndsDirect(l, l.root, Strings(parts), depth)))
  }

  /** At whatever position that happens, the path resolves at no depth. */
  lemma DoubleFollowsUnresolved(l: Lock, path: seq<Text>, i: nat, parts: seq<Option<Text>>, e: nat, depth: nat)
    requires FollowsTwiceAt(l, path, i, parts, e)
    ensures !Resolve(l, path, depth).Found?
  {
    ResolvesExactly(l, path, depth);
    if Resolvable(l, l.root, path, depth) {
      var q, c := Strings(parts), Walk(l, l.root, path[..i], e).value;
      assert PassableAt(l, Walk(l, l.root, path[..i], depth), path[i], depth);
      SameWalk(l, l.root, path[..i], depth, e);
      assert Passable(l, c, path[i], depth) && Lookup(l, c, path[i]) == Some(FollowsPath(parts));
      SameWalk(l, l.root, q[..|q| - 1], depth - 1, e);
    }
  }

  lemma SameWalk(l: Lock, from: Text, path: seq<Text>, d: nat, e: nat)
    requires Walk(l, from, path, d).Some? && Walk(l, from, path, e).Some?
    ensures Walk(l, from, path, d) == Walk(l, from, path, e)
  {
    if d <= e { WalkMonotone(l, from, path, d, e); } else { WalkMonotone(l, from, path, e, d); }
  }

  // ----- termination ---------------------------------------------------------------------------

  /** The input `(c, m)` is an intermediate element of the path, starting at `cur`. */
  ghost predicate PassesThrough(l: Lock, cur: Text, path: seq<Text>, a: Input) {
    exists i, depth: nat :: 0 <= i < |path| - 1 && Walk(l, cur, path[..i], depth) == Some(a.0) && a.1 == path[i]
  }

  /** No cyclic follows: every follows path passes only through inputs of smaller rank than its own. */
  ghost predicate Acyclic(l: Lock, rank: Input -> nat) {
    forall a: Input, b: Input, parts ::
      Lookup(l, a.0, a.1) == Some(FollowsPath(parts)) && PassesThrough(l, l.root, Strings(parts), b) ==>
          rank(b) < rank(a)
  }

  ghost predicate Below(l: Lock, cur: Text, path: seq<Text>, rank: Input -> nat, bound: nat) {
    forall b :: PassesThrough(l, cur, path, b) ==> rank(b) < bound
  }

  lemma BelowTail(l: Lock, cur: Text, path: seq<Text>, rank: Input -> nat, bound: nat, depth: nat, id: Text)
    requires |path| > 1 && Below(l, cur, path, rank, bound) && WalkInput(l, cur, path[0], depth) == Some(id)
    ensures Below(l, id, path[1..], rank, bound)
  {
    forall b | PassesThrough(l, id, path[1..], b)
      ensures rank(b) < bound
    {
      var i, d: nat :| 0 <= i < |path| - 2 && Walk(l, id, path[1..][..i], d) == Some(b.0) && b.1 == path[1..][i];
      var e := d + depth;
      WalkMonotone(l, id, path[1..][..i], d, e);
      WalkInputMonotone(l, cur, path[0], depth, e);
      assert path[..i + 1][1..] == path[1..][..i];
      assert Walk(l, cur, path[..i + 1], e) == Some(b.0);
      assert PassesThrough(l, cur, path, b);
    }
  }

  /** With acyclic follows, resolution ends within a nesting depth given by the ranks. */
  lemma {:induction false} AcyclicResolves(l: Lock, rank: Input -> nat, cur: Text, path: seq<Text>, bound: nat)
    requires Acyclic(l, rank) && path != [] && Below(l, cur, path, rank, bound)
    ensures !ResolveFrom(l, cur, path, bound).Diverged?
    decreases bound, |path|
  {
    if |path| > 1 {
      assert Walk(l, cur, path[..0], 0) == Some(cur);
      assert PassesThrough(l, cur, path, (cur, path[0]));
      var hop := Hop(l, cur, path[0], bound);
      assert rank((cur, path[0])) < bound;
      if Lookup(l, cur, path[0]).Some? && Lookup(l, cur, path[0]).value.FollowsPath? {
        var inner := Strings(Lookup(l, cur, path[0]).value.parts);
        forall b | PassesThrough(l, l.root, inner, b)
          ensures rank(b) < bound - 1
        {
          var a: Input := (cur, path[0]);
          assert rank(b) < rank(a);
        }
        if inner != [] {
          AcyclicResolves(l, rank, l.root, inner, bound - 1);
        }
        assert !Resolve(l, inner, bound - 1).Diverged?;
      }
      assert !hop.TooDeep?;
      if hop.To? {
        HopWalks(l, cur, path[0], bound);
        BelowTail(l, cur, path, rank, bound, bound, hop.id);
        AcyclicResolves(l, rank, hop.id, path[1..], bound);
      }
    }
  }
}
