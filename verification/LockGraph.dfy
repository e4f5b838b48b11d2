/** The input graph of a lock file (extract/flake.rs) under the `resolvesTo` rules of the core pack:
    every input resolves to at most one pin, the one a full walk of its follows paths reaches. */
module LockGraph {
  import opened Texts
  import opened Sorting
  import opened Reachability
  import opened Datalog
  import opened Follows
  import opened CorePack
  import Fragments
  import Iri

  const LOCKS_INPUT: Rel := Other(Iri.NIX_NS + "locksInput")

  type InputIri = (Text, Text) -> Text

  function Pin(sri: Text): Text {
    Iri.Id("pin/" + Iri.NarHashSegment(sri))
  }

  function InputIriFor(rootNar: Text): InputIri {
    (parent: Text, name: Text) => Iri.FlakeInput(rootNar, parent, name)
  }

  predicate HasPin(l: Lock, id: Text) {
    id in l.nodes && (id == l.root || l.nodes[id].narHash.Some?)
  }

  function PinFor(l: Lock, rootNar: Text, id: Text): Text
    requires HasPin(l, id)
  {
    if id == l.root then Pin(rootNar) else Pin(l.nodes[id].narHash.value)
  }

  /** The pin of each node: the root flake's own, and one per locked NAR hash. */
  function PinOf(l: Lock, rootNar: Text): map<Text, Text> {
    map id | id in l.nodes && HasPin(l, id) :: PinFor(l, rootNar, id)
  }

  /** The edge that leaves an input, if any. */
  function TargetFacts(l: Lock, pins: map<Text, Text>, iri: InputIri, depth: nat, a: Input): set<Fact> {
    match Lookup(l, a.0, a.1)
    case Some(Direct(t)) => if t in pins then {Fact(iri(a.0, a.1), PinnedTo, pins[t])} else {}
    case Some(FollowsPath(parts)) =>
      (match Resolve(l, Strings(parts), depth)
       case Found(parent, n) => {Fact(iri(a.0, a.1), Rel.Follows, iri(parent, n))}
       case _ => {})
    case _ => {}
  }

  predicate PinnedInput(l: Lock, pins: map<Text, Text>, a: Input) {
    a.0 in pins && a.0 in l.nodes && a.1 in l.nodes[a.0].inputs
  }

  ghost function InputFacts(l: Lock, pins: map<Text, Text>, iri: InputIri, depth: nat, a: Input): set<Fact>
    requires a.0 in pins
  {
    {Fact(pins[a.0], LOCKS_INPUT, iri(a.0, a.1))} + TargetFacts(l, pins, iri, depth, a)
  }

  ghost function LockFacts(l: Lock, pins: map<Text, Text>, iri: InputIri, depth: nat): iset<Fact> {
    iset a: Input, f | PinnedInput(l, pins, a) && f in InputFacts(l, pins, iri, depth, a) :: f
  }

  ghost predicate TooDeepInput(l: Lock, pins: map<Text, Text>, depth: nat, a: Input) {
    && PinnedInput(l, pins, a) && Lookup(l, a.0, a.1).value.FollowsPath?
    && Resolve(l, Strings(Lookup(l, a.0, a.1).value.parts), depth).Diverged?
  }

  // ----- lock_graph ------------------------------------------------------------------------

  method PinMap(l: Lock, ids: seq<Text>, rootNar: Text) returns (pins: map<Text, Text>)
    requires Elements(ids) == l.nodes.Keys
    ensures pins == PinOf(l, rootNar)
  {
    pins := map[];
    for i := 0 to |ids|
      invariant forall id :: id in pins <==> id in ids[..i] && HasPin(l, id)
      invariant forall id :: id in pins ==> id in l.nodes && pins[id] == PinFor(l, rootNar, id)
    {
      var id := ids[i];
      assert id in Elements(ids);
      assert ids[..i + 1] == ids[..i] + [id];
      if id == l.root {
        pins := pins[id := Pin(rootNar)];
      } else if l.nodes[id].narHash.Some? {
        pins := pins[id := Pin(l.nodes[id].narHash.value)];
      }
    }
    assert ids[..|ids|] == ids;
    assert forall id :: id in l.nodes <==> id in Elements(ids);
  }

  /** The facts of the inputs visited so far: all inputs of the nodes `done`, and `names` of node `id`. */
  ghost function FactsOf(l: Lock, pins: map<Text, Text>, iri: InputIri, depth: nat, s: iset<Input>): iset<Fact> {
    iset a: Input, f | a in s && PinnedInput(l, pins, a) && f in InputFacts(l, pins, iri, depth, a) :: f
  }

  ghost function Visited(ids: seq<Text>): iset<Input> {
    iset a: Input | a.0 in ids
  }

  ghost function VisitedNames(id: Text, names: seq<Text>): iset<Input> {
    iset a: Input | a.0 == id && a.1 in names
  }

  method InputEdges(l: Lock, pins: map<Text, Text>, iri: InputIri, depth: nat, id: Text, name: Text)
    returns (r: Option<set<Fact>>)
    requires PinnedInput(l, pins, (id, name))
    ensures r.None? <==> TooDeepInput(l, pins, depth, (id, name))
    ensures r.Some? ==> r.value == InputFacts(l, pins, iri, depth, (id, name))
  {
    var out := {Fact(pins[id], LOCKS_INPUT, iri(id, name))};
    match l.nodes[id].inputs[name] {
      case Direct(t) =>
        if t in pins {
          out := out + {Fact(iri(id, name), PinnedTo, pins[t])};
        }
      case FollowsPath(parts) =>
        var resolved := ResolveFollows(l, Strings(parts), depth);
        if resolved.Diverged? {
          return None;
        }
        if resolved.Found? {
          out := out + {Fact(iri(id, name), Rel.Follows, iri(resolved.parent, resolved.name))};
        }
      case OtherValue =>
    }
    r := Some(out);
  }

  method NodeInputs(l: Lock, pins: map<Text, Text>, iri: InputIri, depth: nat, id: Text) returns (r: Option<set<Fact>>)
    requires id in pins && id in l.nodes
    ensures r.None? <==> exists a: Input :: a.0 == id && TooDeepInput(l, pins, depth, a)
    ensures r.Some? ==> Facts(r.value) == FactsOf(l, pins, iri, depth, Visited([id]))
  {
    var names := InOrder(l.nodes[id].inputs.Keys);
    var out: set<Fact> := {};
    for i := 0 to |names|
      invariant Facts(out) == FactsOf(l, pins, iri, depth, VisitedNames(id, names[..i]))
      invariant forall a: Input :: a in VisitedNames(id, names[..i]) ==> !TooDeepInput(l, pins, depth, a)
    {
      assert names[i] in Elements(names);
      assert names[..i + 1] == names[..i] + [names[i]];
      var more := InputEdges(l, pins, iri, depth, id, names[i]);
      if more.None? {
        assert TooDeepInput(l, pins, depth, (id, names[i]));
        return None;
      }
      VisitName(l, pins, iri, depth, id, names[..i], names[i], out, more.value);
      out := out + more.value;
    }
    assert names[..|names|] == names;
    AllNames(l, pins, iri, depth, id, names);
    r := Some(out);
  }

  lemma VisitName(l: Lock, pins: map<Text, Text>, iri: InputIri, depth: nat, id: Text, names: seq<Text>, name: Text,
                  out: set<Fact>, more: set<Fact>)
    requires PinnedInput(l, pins, (id, name)) && more == InputFacts(l, pins, iri, depth, (id, name))
    requires Facts(out) == FactsOf(l, pins, iri, depth, VisitedNames(id, names))
    ensures Facts(out + more) == FactsOf(l, pins, iri, depth, VisitedNames(id, names + [name]))
  {
    assert VisitedNames(id, names + [name]) == VisitedNames(id, names) + iset{(id, name)};
    VisitOne(l, pins, iri, depth, VisitedNames(id, names), (id, name), VisitedNames(id, names + [name]));
    FactsUnion(out, more);
  }

  lemma FactsUnion(a: set<Fact>, b: set<Fact>)
    ensures Facts(a + b) == Facts(a) + Facts(b)
  {
  }

  lemma AllNames(l: Lock, pins: map<Text, Text>, iri: InputIri, depth: nat, id: Text, names: seq<Text>)
    requires id in l.nodes && Elements(names) == l.nodes[id].inputs.Keys
    ensures FactsOf(l, pins, iri, depth, VisitedNames(id, names)) == FactsOf(l, pins, iri, depth, Visited([id]))
    ensures forall a: Input :: a.0 == id && PinnedInput(l, pins, a) ==> a in VisitedNames(id, names)
  {
    forall a: Input | PinnedInput(l, pins, a)
      ensures a in VisitedNames(id, names) <==> a in Visited([id])
    {
      if a.0 == id { assert a.1 in Elements(names); }
    }
  }

  lemma VisitOne(l: Lock, pins: map<Text, Text>, iri: InputIri, depth: nat, s: iset<Input>, a: Input, t: iset<Input>)
    requires PinnedInput(l, pins, a) && t == s + iset{a}
    ensures FactsOf(l, pins, iri, depth, t)
         == FactsOf(l, pins, iri, depth, s) + Facts(InputFacts(l, pins, iri, depth, a))
  {
  }

  lemma AllNodes(l: Lock, pins: map<Text, Text>, iri: InputIri, depth: nat, ids: seq<Text>)
    requires Elements(ids) == l.nodes.Keys
    ensures FactsOf(l, pins, iri, depth, Visited(ids)) == LockFacts(l, pins, iri, depth)
    ensures forall a: Input :: PinnedInput(l, pins, a) ==> a in Visited(ids)
  {
    forall a: Input | PinnedInput(l, pins, a)
      ensures a in Visited(ids)
    {
      assert a.0 in Elements(ids);
    }
  }

  lemma VisitNode(l: Lock, pins: map<Text, Text>, iri: InputIri, depth: nat, ids: seq<Text>, id: Text)
    ensures FactsOf(l, pins, iri, depth, Visited(ids + [id]))
         == FactsOf(l, pins, iri, depth, Visited(ids)) + FactsOf(l, pins, iri, depth, Visited([id]))
    ensures id !in pins ==> FactsOf(l, pins, iri, depth, Visited([id])) == iset{}
  {
    assert Visited(ids + [id]) == Visited(ids) + Visited([id]);
  }

  method BuildLockGraph(l: Lock, rootNar: Text, depth: nat) returns (r: Option<set<Fact>>)
    ensures r.None? <==> exists a: Input :: TooDeepInput(l, PinOf(l, rootNar), depth, a)
    ensures r.Some? ==> Facts(r.value) == LockFacts(l, PinOf(l, rootNar), InputIriFor(rootNar), depth)
  {
    var ids := InOrder(l.nodes.Keys);
    var pins := PinMap(l, ids, rootNar);
    var iri := InputIriFor(rootNar);
    var out: set<Fact> := {};
    for i := 0 to |ids|
      invariant Facts(out) == FactsOf(l, pins, iri, depth, Visited(ids[..i]))
      invariant forall a: Input :: a.0 in ids[..i] ==> !TooDeepInput(l, pins, depth, a)
    {
      assert ids[i] in Elements(ids);
      assert ids[..i + 1] == ids[..i] + [ids[i]];
      VisitNode(l, pins, iri, depth, ids[..i], ids[i]);
      if ids[i] in pins {
        var more := NodeInputs(l, pins, iri, depth, ids[i]);
        if more.None? {
          return None;
        }
        FactsUnion(out, more.value);
        out := out + more.value;
      }
    }
    assert ids[..|ids|] == ids;
    AllNodes(l, pins, iri, depth, ids);
    r := Some(out);
  }

  ghost function AllInputs(l: Lock): set<Input> {
    set id, name | id in l.nodes && name in l.nodes[id].inputs :: (id, name)
  }

  lemma {:induction false} RankBound(s: set<Input>, rank: Input -> nat) returns (bound: nat)
    ensures forall a :: a in s ==> rank(a) <= bound
  {
    if s == {} {
      bound := 0;
    } else {
      var x :| x in s;
      var b := RankBound(s - {x}, rank);
      bound := b + rank(x);
    }
  }

  /** With acyclic follows one depth is enough for the whole lock, and so is every greater one. */
  lemma AcyclicLockGraphBuilds(l: Lock, pins: map<Text, Text>, rank: Input -> nat) returns (depth: nat)
    requires Acyclic(l, rank)
    ensures forall a: Input, e: nat :: depth <= e ==> !TooDeepInput(l, pins, e, a)
  {
    depth := RankBound(AllInputs(l), rank);
    forall a: Input, e: nat | depth <= e
      ensures !TooDeepInput(l, pins, e, a)
    {
      if PinnedInput(l, pins, a) && Lookup(l, a.0, a.1).value.FollowsPath? {
        var path := Strings(Lookup(l, a.0, a.1).value.parts);
        assert a in AllInputs(l);
        assert Below(l, l.root, path, rank, e);
        if path != [] {
          AcyclicResolves(l, rank, l.root, path, e);
        }
      }
    }
  }

  /** Beyond a depth that suffices, the facts do not depend on the depth. */
  lemma LockFactsStable(l: Lock, pins: map<Text, Text>, iri: InputIri, d: nat, e: nat)
    requires d <= e && forall a: Input :: !TooDeepInput(l, pins, d, a)
    ensures LockFacts(l, pins, iri, e) == LockFacts(l, pins, iri, d)
  {
    forall a: Input | PinnedInput(l, pins, a)
      ensures TargetFacts(l, pins, iri, e, a) == TargetFacts(l, pins, iri, d, a)
    {
      if Lookup(l, a.0, a.1).value.FollowsPath? {
        var path := Strings(Lookup(l, a.0, a.1).value.parts);
        assert !TooDeepInput(l, pins, d, a);
        if path != [] {
          ResolveStable(l, l.root, path, d, e);
        }
      }
    }
    forall f
      ensures f in LockFacts(l, pins, iri, e) <==> f in LockFacts(l, pins, iri, d)
    {
      if a: Input :| PinnedInput(l, pins, a) && f in InputFacts(l, pins, iri, e, a) {
        assert f in InputFacts(l, pins, iri, d, a);
      }
      if a: Input :| PinnedInput(l, pins, a) && f in InputFacts(l, pins, iri, d, a) {
        assert f in InputFacts(l, pins, iri, e, a);
      }
    }
  }

  // ----- what the rules make of it -----------------------------------------------------------

  predicate Named(a: Input) {
    IsBytes(a.0) && IsBytes(a.1)
  }

  /** All names in the lock are byte strings, as in every JSON text. */
  ghost predicate Textual(l: Lock) {
    && IsBytes(l.root)
    && forall a: Input :: Lookup(l, a.0, a.1).Some? ==>
         && Named(a)
         && match Lookup(l, a.0, a.1).value
            case Direct(t) => IsBytes(t)
            case FollowsPath(parts) => forall i :: 0 <= i < |Strings(parts)| ==> IsBytes(Strings(parts)[i])
            case OtherValue => true
  }

  /** Different inputs have different IRIs. */
  ghost predicate Separates(iri: InputIri) {
    forall a: Input, b: Input {:trigger iri(a.0, a.1), iri(b.0, b.1)} ::
      Named(a) && Named(b) && iri(a.0, a.1) == iri(b.0, b.1) ==> a == b
  }

  lemma InputIriSeparates(rootNar: Text)
    ensures Separates(InputIriFor(rootNar))
  {
    var iri := InputIriFor(rootNar);
    forall a: Input, b: Input | Named(a) && Named(b) && iri(a.0, a.1) == iri(b.0, b.1)
      ensures a == b
    {
      Iri.FlakeInputInjective(rootNar, a.0, a.1, b.0, b.1);
    }
  }

  /** The IRI of some input of this flake. */
  ghost predicate OwnInput(iri: InputIri, x: Text) {
    exists a: Input :: Named(a) && x == iri(a.0, a.1)
  }

  predicate Linking(p: Rel) {
    p == Rel.Follows || p == PinnedTo || p == ResolvesTo
  }

  /** The store's follows, pins and resolutions of this flake's inputs are those of the lock graph; of other
      resources it may say anything. */
  ghost predicate Describes(e: set<Fact>, l: Lock, pins: map<Text, Text>, iri: InputIri, depth: nat) {
    forall f: Fact :: OwnInput(iri, f.s) && Linking(f.p) ==> (f in e <==> f in LockFacts(l, pins, iri, depth))
  }

  /** The path of an input that follows. */
  ghost predicate FollowsAlong(l: Lock, a: Input, path: seq<Text>) {
    exists parts :: Lookup(l, a.0, a.1) == Some(FollowsPath(parts)) && Strings(parts) == path
  }

  lemma FollowsEdge(e: set<Fact>, l: Lock, pins: map<Text, Text>, iri: InputIri, depth: nat, x: Text, y: Text)
    returns (a: Input, path: seq<Text>)
    requires Describes(e, l, pins, iri, depth) && OwnInput(iri, x) && Fact(x, Rel.Follows, y) in e
    ensures PinnedInput(l, pins, a) && x == iri(a.0, a.1) && path != [] && FollowsAlong(l, a, path)
    ensures var r := Resolve(l, path, depth); r.Found? && y == iri(r.parent, r.name)
  {
    var f := Fact(x, Rel.Follows, y);
    assert f in LockFacts(l, pins, iri, depth);
    a :| PinnedInput(l, pins, a) && f in InputFacts(l, pins, iri, depth, a);
    path := Strings(Lookup(l, a.0, a.1).value.parts);
  }

  lemma PinnedEdge(e: set<Fact>, l: Lock, pins: map<Text, Text>, iri: InputIri, depth: nat, x: Text, p: Text)
    returns (a: Input, t: Text)
    requires Describes(e, l, pins, iri, depth) && OwnInput(iri, x)
    requires Fact(x, PinnedTo, p) in e || Fact(x, ResolvesTo, p) in e
    ensures PinnedInput(l, pins, a) && x == iri(a.0, a.1) && t in pins && pins[t] == p
    ensures Lookup(l, a.0, a.1) == Some(Direct(t))
  {
    var q := if Fact(x, PinnedTo, p) in e then PinnedTo else ResolvesTo;
    var f := Fact(x, q, p);
    assert f in LockFacts(l, pins, iri, depth);
    a :| PinnedInput(l, pins, a) && f in InputFacts(l, pins, iri, depth, a);
    t := Lookup(l, a.0, a.1).value.id;
  }

  lemma HopNamed(l: Lock, cur: Text, name: Text, depth: nat)
    requires Textual(l) && Hop(l, cur, name, depth).To?
    ensures IsBytes(Hop(l, cur, name, depth).id)
  {
    if Lookup(l, cur, name).value.FollowsPath? {
      var r := Resolve(l, Strings(Lookup(l, cur, name).value.parts), depth - 1);
      var a: Input := (r.parent, r.name);
      assert Lookup(l, a.0, a.1).Some?;
    } else {
      var a: Input := (cur, name);
      assert Lookup(l, a.0, a.1).Some?;
    }
  }

  lemma {:induction false} ResolvedNamed(l: Lock, cur: Text, path: seq<Text>, depth: nat)
    requires Textual(l) && IsBytes(cur) && path != [] && ResolveFrom(l, cur, path, depth).Found?
    requires forall i :: 0 <= i < |path| ==> IsBytes(path[i])
    ensures var r := ResolveFrom(l, cur, path, depth); Named((r.parent, r.name))
    decreases |path|
  {
    if |path| > 1 {
      var id := Hop(l, cur, path[0], depth).id;
      HopNamed(l, cur, path[0], depth);
      ResolvedNamed(l, id, path[1..], depth);
    }
  }

  /** The inputs whose denotation is that of `i`, as IRIs. */
  ghost function Alike(l: Lock, iri: InputIri, i: Input): iset<Text> {
    iset a: Input | Named(a) && AlikeInput(l, i, a) :: iri(a.0, a.1)
  }

  ghost predicate AlikeInput(l: Lock, i: Input, a: Input) {
    forall t :: Denotes(l, a, t) <==> Denotes(l, i, t)
  }

  lemma AlikeIff(l: Lock, iri: InputIri, i: Input, a: Input)
    requires Separates(iri) && Named(a) && iri(a.0, a.1) in Alike(l, iri, i)
    ensures AlikeInput(l, i, a)
  {
    var b: Input :| Named(b) && AlikeInput(l, i, b) && iri(b.0, b.1) == iri(a.0, a.1);
  }

  lemma InputNamed(l: Lock, a: Input)
    requires Textual(l) && Lookup(l, a.0, a.1).Some?
    ensures Named(a)
  {
  }

  lemma AlikeClosed(e: set<Fact>, l: Lock, pins: map<Text, Text>, iri: InputIri, depth: nat, i: Input, x: Text, y: Text)
    requires Textual(l) && Separates(iri) && Describes(e, l, pins, iri, depth)
    requires x in Alike(l, iri, i) && Fact(x, Rel.Follows, y) in e
    ensures y in Alike(l, iri, i)
  {
    var a, path := FollowsEdge(e, l, pins, iri, depth, x, y);
    var r := Resolve(l, path, depth);
    InputNamed(l, a);
    AlikeIff(l, iri, i, a);
    ResolvedNamed(l, l.root, path, depth);
    forall t
      ensures Denotes(l, (r.parent, r.name), t) <==> Denotes(l, i, t)
    {
      FollowsPreservesDenotation(l, a, path, depth, t);
    }
    assert AlikeInput(l, i, (r.parent, r.name));
  }

  /** Soundness: an input resolves only to the pin of the node a full walk from the root reaches. */
  lemma ResolvedPinIsWalked(e: set<Fact>, m: set<Fact>, l: Lock, rootNar: Text, depth: nat, i: Input, p: Text)
    requires CoreModel(e, m) && Textual(l) && Named(i)
    requires Describes(e, l, PinOf(l, rootNar), InputIriFor(rootNar), depth)
    requires Fact(InputIriFor(rootNar)(i.0, i.1), ResolvesTo, p) in m
    ensures exists t :: Denotes(l, i, t) && t in PinOf(l, rootNar) && PinOf(l, rootNar)[t] == p
  {
    InputIriSeparates(rootNar);
    WalkedPin(e, m, l, PinOf(l, rootNar), InputIriFor(rootNar), depth, i, p);
  }

  lemma WalkedPin(e: set<Fact>, m: set<Fact>, l: Lock, pins: map<Text, Text>, iri: InputIri, depth: nat,
                  i: Input, p: Text)
    requires CoreModel(e, m) && Textual(l) && Named(i) && Separates(iri) && Describes(e, l, pins, iri, depth)
    requires Fact(iri(i.0, i.1), ResolvesTo, p) in m
    ensures exists t :: Denotes(l, i, t) && t in pins && pins[t] == p
  {
    ResolvesToExactly(e, m);
    var x := iri(i.0, i.1);
    var y :| Reach(Asserted(e, Rel.Follows), x, y) && (y, p) in ResolveSeeds(e);
    assert AlikeInput(l, i, i);
    assert x in Alike(l, iri, i);
    forall u, v | u in Alike(l, iri, i) && (u, v) in Asserted(e, Rel.Follows)
      ensures v in Alike(l, iri, i)
    {
      AssertedIff(e, Rel.Follows, u, v);
      AlikeClosed(e, l, pins, iri, depth, i, u, v);
    }
    ReachInduct(Asserted(e, Rel.Follows), Alike(l, iri, i), x, y);
    AssertedIff(e, PinnedTo, y, p);
    AssertedIff(e, ResolvesTo, y, p);
    var a, t := PinnedEdge(e, l, pins, iri, depth, y, p);
    InputNamed(l, a);
    AlikeIff(l, iri, i, a);
    assert WalkInput(l, a.0, a.1, 0) == Some(t);
    assert Denotes(l, a, t);
  }

  /** Each input resolves to at most one pin. */
  lemma AtMostOnePin(e: set<Fact>, m: set<Fact>, l: Lock, rootNar: Text, depth: nat, x: Text, p: Text, q: Text)
    requires CoreModel(e, m) && Textual(l) && OwnInput(InputIriFor(rootNar), x)
    requires Describes(e, l, PinOf(l, rootNar), InputIriFor(rootNar), depth)
    requires Fact(x, ResolvesTo, p) in m && Fact(x, ResolvesTo, q) in m
    ensures p == q
  {
    var i: Input :| Named(i) && x == InputIriFor(rootNar)(i.0, i.1);
    ResolvedPinIsWalked(e, m, l, rootNar, depth, i, p);
    ResolvedPinIsWalked(e, m, l, rootNar, depth, i, q);
    var t :| Denotes(l, i, t) && t in PinOf(l, rootNar) && PinOf(l, rootNar)[t] == p;
    var u :| Denotes(l, i, u) && u in PinOf(l, rootNar) && PinOf(l, rootNar)[u] == q;
    DenotesFunctional(l, i, t, u);
  }

  /** What resolves to anything has a follows edge, a pin or an asserted resolution of its own. */
  lemma ResolvingFact(e: set<Fact>, m: set<Fact>, x: Text, p: Text) returns (f: Fact)
    requires CoreModel(e, m) && Fact(x, ResolvesTo, p) in m
    ensures f in e && f.s == x && Linking(f.p)
  {
    ResolvesToExactly(e, m);
    var y :| Reach(Asserted(e, Rel.Follows), x, y) && (y, p) in ResolveSeeds(e);
    ReachCases(Asserted(e, Rel.Follows), x, y);
    if x == y {
      AssertedIff(e, PinnedTo, y, p);
      AssertedIff(e, ResolvesTo, y, p);
      f := if Fact(x, PinnedTo, p) in e then Fact(x, PinnedTo, p) else Fact(x, ResolvesTo, p);
    } else {
      var z :| (x, z) in Asserted(e, Rel.Follows) && Reach(Asserted(e, Rel.Follows), z, y);
      AssertedIff(e, Rel.Follows, x, z);
      f := Fact(x, Rel.Follows, z);
    }
  }

  // ----- several flakes in one store -----------------------------------------------------------

  datatype Flake = Flake(lock: Lock, rootNar: Text)

  ghost function FlakeFacts(fl: Flake, depth: nat): iset<Fact> {
    LockFacts(fl.lock, PinOf(fl.lock, fl.rootNar), InputIriFor(fl.rootNar), depth)
  }

  /** The links in the store are those of the lock graphs of the given flakes. */
  ghost predicate HoldsFlakes(e: set<Fact>, flakes: set<Flake>, depth: nat) {
    forall f: Fact :: Linking(f.p) ==> (f in e <==> exists fl :: fl in flakes && f in FlakeFacts(fl, depth))
  }

  /** Flakes with byte-string names, and roots with different segments. */
  ghost predicate Apart(flakes: set<Flake>) {
    && (forall fl :: fl in flakes ==> Textual(fl.lock) && '/' !in Iri.NarHashSegment(fl.rootNar))
    && (forall a, b :: a in flakes && b in flakes && Iri.NarHashSegment(a.rootNar) == Iri.NarHashSegment(b.rootNar)
                       ==> a == b)
  }

  lemma LinkOwner(fl: Flake, depth: nat, f: Fact)
    requires Textual(fl.lock) && f in FlakeFacts(fl, depth) && Linking(f.p)
    ensures OwnInput(InputIriFor(fl.rootNar), f.s)
  {
    var l, pins, iri := fl.lock, PinOf(fl.lock, fl.rootNar), InputIriFor(fl.rootNar);
    var a: Input :| PinnedInput(l, pins, a) && f in InputFacts(l, pins, iri, depth, a);
    InputNamed(l, a);
    LinkSubject(l, pins, iri, depth, a, f);
  }

  lemma LinkSubject(l: Lock, pins: map<Text, Text>, iri: InputIri, depth: nat, a: Input, f: Fact)
    requires PinnedInput(l, pins, a) && f in InputFacts(l, pins, iri, depth, a) && Linking(f.p)
    ensures f.s == iri(a.0, a.1)
  {
  }

  /** Then the store describes each of the flakes: the inputs of different ones have different IRIs. */
  lemma HoldsDescribes(e: set<Fact>, flakes: set<Flake>, depth: nat, fl: Flake)
    requires HoldsFlakes(e, flakes, depth) && Apart(flakes) && fl in flakes
    ensures Describes(e, fl.lock, PinOf(fl.lock, fl.rootNar), InputIriFor(fl.rootNar), depth)
  {
    forall f: Fact | OwnInput(InputIriFor(fl.rootNar), f.s) && Linking(f.p) && f in e
      ensures f in FlakeFacts(fl, depth)
    {
      var g :| g in flakes && f in FlakeFacts(g, depth);
      LinkOwner(g, depth, f);
      var a: Input :| Named(a) && f.s == InputIriFor(fl.rootNar)(a.0, a.1);
      var b: Input :| Named(b) && f.s == InputIriFor(g.rootNar)(b.0, b.1);
      Iri.FlakesApart(fl.rootNar, a.0, a.1, g.rootNar, b.0, b.1);
    }
  }

  /** However many flakes a store holds, each resource resolves to at most one pin. */
  lemma StoreAtMostOnePin(e: set<Fact>, m: set<Fact>, flakes: set<Flake>, depth: nat, x: Text, p: Text, q: Text)
    requires CoreModel(e, m) && HoldsFlakes(e, flakes, depth) && Apart(flakes)
    requires Fact(x, ResolvesTo, p) in m && Fact(x, ResolvesTo, q) in m
    ensures p == q
  {
    var f := ResolvingFact(e, m, x, p);
    var fl :| fl in flakes && f in FlakeFacts(fl, depth);
    LinkOwner(fl, depth, f);
    HoldsDescribes(e, flakes, depth, fl);
    AtMostOnePin(e, m, fl.lock, fl.rootNar, depth, x, p, q);
  }

  // ----- when nothing is lost ------------------------------------------------------------------

  /** Every node has a pin and no follows path goes through an input that follows another following
      input. */
  ghost predicate Complete(l: Lock, pins: map<Text, Text>, depth: nat) {
    && (forall id :: id in l.nodes ==> id in pins)
    && (forall a: Input, path :: FollowsAlong(l, a, path) ==> Resolvable(l, l.root, path, depth))
  }

  lemma LockFactIn(e: set<Fact>, l: Lock, pins: map<Text, Text>, iri: InputIri, depth: nat, a: Input, f: Fact)
    requires Textual(l) && Describes(e, l, pins, iri, depth) && PinnedInput(l, pins, a)
    requires f in TargetFacts(l, pins, iri, depth, a)
    ensures f in e
  {
    InputNamed(l, a);
    assert OwnInput(iri, f.s) && Linking(f.p);
    assert f in InputFacts(l, pins, iri, depth, a);
    assert f in LockFacts(l, pins, iri, depth);
  }

  lemma FollowsReach(e: set<Fact>, l: Lock, pins: map<Text, Text>, iri: InputIri, depth: nat,
                     a: Input, path: seq<Text>, y: Text)
    requires Textual(l) && Describes(e, l, pins, iri, depth) && PinnedInput(l, pins, a)
    requires FollowsAlong(l, a, path) && Resolve(l, path, depth).Found?
    requires var r := Resolve(l, path, depth); Reach(Asserted(e, Rel.Follows), iri(r.parent, r.name), y)
    ensures Reach(Asserted(e, Rel.Follows), iri(a.0, a.1), y)
  {
    var r := Resolve(l, path, depth);
    var x, z := iri(a.0, a.1), iri(r.parent, r.name);
    LockFactIn(e, l, pins, iri, depth, a, Fact(x, Rel.Follows, z));
    AssertedIff(e, Rel.Follows, x, z);
    ReachFromEdge(Asserted(e, Rel.Follows), x, z);
    ReachTrans(Asserted(e, Rel.Follows), x, z, y);
  }

  lemma {:induction false} WalkedResolves(e: set<Fact>, l: Lock, pins: map<Text, Text>, iri: InputIri, depth: nat,
                                          a: Input, t: Text, d: nat) returns (y: Text)
    requires Textual(l) && Describes(e, l, pins, iri, depth) && Complete(l, pins, depth)
    requires WalkInput(l, a.0, a.1, d) == Some(t) && t in pins
    ensures Reach(Asserted(e, Rel.Follows), iri(a.0, a.1), y) && Fact(y, PinnedTo, pins[t]) in e
    decreases d
  {
    var x := iri(a.0, a.1);
    match Lookup(l, a.0, a.1).value
    case Direct(_) =>
      y := x;
      ReachRefl(Asserted(e, Rel.Follows), x);
      LockFactIn(e, l, pins, iri, depth, a, Fact(x, PinnedTo, pins[t]));
    case FollowsPath(parts) =>
      var path := Strings(parts);
      assert FollowsAlong(l, a, path);
      ResolvesExactly(l, path, depth);
      var r := Resolve(l, path, depth);
      var h := ResolvedWalk(l, a, path, depth, t, d);
      y := WalkedResolves(e, l, pins, iri, depth, (r.parent, r.name), t, h);
      FollowsReach(e, l, pins, iri, depth, a, path, y);
    case OtherValue =>
  }

  /** The input a follows path resolves to is walked at a smaller depth. */
  lemma ResolvedWalk(l: Lock, a: Input, path: seq<Text>, depth: nat, t: Text, d: nat) returns (h: nat)
    requires FollowsAlong(l, a, path) && Resolve(l, path, depth).Found? && WalkInput(l, a.0, a.1, d) == Some(t)
    ensures var r := Resolve(l, path, depth); h < d && WalkInput(l, r.parent, r.name, h) == Some(t)
  {
    h := d - 1;
    ShallowWalk(l, l.root, path, depth, h, t);
  }

  lemma {:induction false} ShallowWalk(l: Lock, cur: Text, path: seq<Text>, depth: nat, h: nat, t: Text)
    requires path != [] && ResolveFrom(l, cur, path, depth).Found? && Walk(l, cur, path, h) == Some(t)
    ensures var r := ResolveFrom(l, cur, path, depth); WalkInput(l, r.parent, r.name, h) == Some(t)
    decreases |path|
  {
    if |path| > 1 {
      var id := Hop(l, cur, path[0], depth).id;
      HopWalks(l, cur, path[0], depth);
      WalkInputMonotone(l, cur, path[0], depth, depth + h);
      WalkInputMonotone(l, cur, path[0], h, depth + h);
      ShallowWalk(l, id, path[1..], depth, h, t);
    }
  }

  /** When every node has a pin and every follows path is resolvable, an input resolves to exactly the
      pin of the node it denotes. */
  lemma ResolvesExactlyToWalked(e: set<Fact>, m: set<Fact>, l: Lock, rootNar: Text, depth: nat, i: Input, p: Text)
    requires CoreModel(e, m) && Textual(l) && Named(i)
    requires Describes(e, l, PinOf(l, rootNar), InputIriFor(rootNar), depth) && Complete(l, PinOf(l, rootNar), depth)
    ensures Fact(InputIriFor(rootNar)(i.0, i.1), ResolvesTo, p) in m
       <==> exists t :: Denotes(l, i, t) && t in PinOf(l, rootNar) && PinOf(l, rootNar)[t] == p
  {
    var pins, iri := PinOf(l, rootNar), InputIriFor(rootNar);
    if Fact(iri(i.0, i.1), ResolvesTo, p) in m {
      ResolvedPinIsWalked(e, m, l, rootNar, depth, i, p);
    }
    if t :| Denotes(l, i, t) && t in pins && pins[t] == p {
      var d: nat :| WalkInput(l, i.0, i.1, d) == Some(t);
      var y := WalkedResolves(e, l, pins, iri, depth, i, t, d);
      ResolvesToExactly(e, m);
      AssertedIff(e, PinnedTo, y, p);
      assert (y, p) in ResolveSeeds(e);
    }
  }

  // ----- what is lost ---------------------------------------------------------------------------

  /** An input gets its follows edge exactly when its path is resolvable. */
  lemma FollowsEdgeExactly(l: Lock, pins: map<Text, Text>, iri: InputIri, depth: nat, a: Input, path: seq<Text>)
    requires Textual(l) && Separates(iri) && PinnedInput(l, pins, a) && FollowsAlong(l, a, path)
    ensures (exists y :: Fact(iri(a.0, a.1), Rel.Follows, y) in LockFacts(l, pins, iri, depth))
       <==> Resolvable(l, l.root, path, depth)
  {
    var x := iri(a.0, a.1);
    ResolvesExactly(l, path, depth);
    if Resolvable(l, l.root, path, depth) {
      var r := Resolve(l, path, depth);
      assert Fact(x, Rel.Follows, iri(r.parent, r.name)) in InputFacts(l, pins, iri, depth, a);
    }
    if y :| Fact(x, Rel.Follows, y) in LockFacts(l, pins, iri, depth) {
      var f := Fact(x, Rel.Follows, y);
      var b: Input :| PinnedInput(l, pins, b) && f in InputFacts(l, pins, iri, depth, b);
      InputNamed(l, a);
      InputNamed(l, b);
      assert a == b;
    }
  }

  /** The input is pinned to `t`, or follows a resolvable path to an input of which that holds, after at
      most `n` follows. */
  ghost predicate Chained(l: Lock, pins: map<Text, Text>, depth: nat, a: Input, t: Text, n: nat)
    decreases n
  {
    && PinnedInput(l, pins, a)
    && match Lookup(l, a.0, a.1).value
       case Direct(u) => u == t && t in pins
       case FollowsPath(parts) =>
         var path := Strings(parts);
         && n > 0 && Resolvable(l, l.root, path, depth) && ParentByWalk(l, l.root, path, depth).Some?
         && Chained(l, pins, depth, (ParentByWalk(l, l.root, path, depth).value, path[|path| - 1]), t, n - 1)
       case OtherValue => false
  }

  lemma {:induction false} ChainReaches(e: set<Fact>, l: Lock, pins: map<Text, Text>, iri: InputIri, depth: nat,
                                        a: Input, t: Text, n: nat) returns (y: Text)
    requires Textual(l) && Describes(e, l, pins, iri, depth) && Chained(l, pins, depth, a, t, n)
    ensures t in pins && Reach(Asserted(e, Rel.Follows), iri(a.0, a.1), y) && Fact(y, PinnedTo, pins[t]) in e
    decreases n
  {
    var x := iri(a.0, a.1);
    match Lookup(l, a.0, a.1).value
    case Direct(_) =>
      y := x;
      ReachRefl(Asserted(e, Rel.Follows), x);
      LockFactIn(e, l, pins, iri, depth, a, Fact(x, PinnedTo, pins[t]));
    case FollowsPath(parts) =>
      var path := Strings(parts);
      assert FollowsAlong(l, a, path);
      ResolvesExactly(l, path, depth);
      FoundByWalk(l, l.root, path, depth);
      var r := Resolve(l, path, depth);
      y := ChainReaches(e, l, pins, iri, depth, (r.parent, r.name), t, n - 1);
      FollowsReach(e, l, pins, iri, depth, a, path, y);
  }

  /** Follows edges lead from inputs of a flake to inputs of the same flake. */
  lemma FollowsStays(e: set<Fact>, l: Lock, pins: map<Text, Text>, iri: InputIri, depth: nat, x: Text, y: Text)
    requires Textual(l) && Describes(e, l, pins, iri, depth) && OwnInput(iri, x) && Fact(x, Rel.Follows, y) in e
    ensures OwnInput(iri, y)
  {
    var a, path := FollowsEdge(e, l, pins, iri, depth, x, y);
    ResolvedNamed(l, l.root, path, depth);
    var r := Resolve(l, path, depth);
    var b: Input := (r.parent, r.name);
    assert Named(b) && y == iri(b.0, b.1);
  }

  lemma ReachStays(e: set<Fact>, l: Lock, pins: map<Text, Text>, iri: InputIri, depth: nat, x: Text, y: Text)
    requires Textual(l) && Describes(e, l, pins, iri, depth) && OwnInput(iri, x)
    requires Reach(Asserted(e, Rel.Follows), x, y)
    ensures OwnInput(iri, y)
  {
    var own := iset z | OwnInput(iri, z);
    forall u, v | u in own && (u, v) in Asserted(e, Rel.Follows)
      ensures v in own
    {
      AssertedIff(e, Rel.Follows, u, v);
      FollowsStays(e, l, pins, iri, depth, u, v);
    }
    ReachInduct(Asserted(e, Rel.Follows), own, x, y);
  }

  /** The IRIs of inputs that are chained to `t`. */
  ghost function ChainedTo(l: Lock, pins: map<Text, Text>, iri: InputIri, depth: nat, t: Text): iset<Text> {
    iset a: Input, n: nat | Named(a) && Chained(l, pins, depth, a, t, n) :: iri(a.0, a.1)
  }

  lemma ChainedBefore(e: set<Fact>, l: Lock, pins: map<Text, Text>, iri: InputIri, depth: nat, t: Text,
                      x: Text, y: Text)
    requires Textual(l) && Separates(iri) && Describes(e, l, pins, iri, depth)
    requires OwnInput(iri, x) && Fact(x, Rel.Follows, y) in e && y in ChainedTo(l, pins, iri, depth, t)
    ensures x in ChainedTo(l, pins, iri, depth, t)
  {
    var b: Input, n: nat :| Named(b) && Chained(l, pins, depth, b, t, n) && y == iri(b.0, b.1);
    var a, path := FollowsEdge(e, l, pins, iri, depth, x, y);
    var r := Resolve(l, path, depth);
    InputNamed(l, a);
    ResolvedNamed(l, l.root, path, depth);
    ResolvesExactly(l, path, depth);
    FoundByWalk(l, l.root, path, depth);
    assert b == (r.parent, r.name);
    assert Chained(l, pins, depth, a, t, n + 1);
  }

  lemma ChainedByReach(e: set<Fact>, l: Lock, pins: map<Text, Text>, iri: InputIri, depth: nat, t: Text,
                       x: Text, y: Text)
    requires Textual(l) && Separates(iri) && Describes(e, l, pins, iri, depth)
    requires OwnInput(iri, x) && Reach(Asserted(e, Rel.Follows), x, y) && y in ChainedTo(l, pins, iri, depth, t)
    ensures x in ChainedTo(l, pins, iri, depth, t)
  {
    var goal := x in ChainedTo(l, pins, iri, depth, t);
    var s := iset z | OwnInput(iri, z) && (z in ChainedTo(l, pins, iri, depth, t) ==> goal);
    forall u, v | u in s && (u, v) in Asserted(e, Rel.Follows)
      ensures v in s
    {
      AssertedIff(e, Rel.Follows, u, v);
      FollowsStays(e, l, pins, iri, depth, u, v);
      if v in ChainedTo(l, pins, iri, depth, t) {
        ChainedBefore(e, l, pins, iri, depth, t, u, v);
      }
    }
    ReachInduct(Asserted(e, Rel.Follows), s, x, y);
  }

  lemma ResolvedIsChained(e: set<Fact>, m: set<Fact>, l: Lock, pins: map<Text, Text>, iri: InputIri, depth: nat,
                          i: Input, p: Text)
    requires CoreModel(e, m) && Textual(l) && Named(i) && Separates(iri) && Describes(e, l, pins, iri, depth)
    requires Fact(iri(i.0, i.1), ResolvesTo, p) in m
    ensures exists t, n: nat :: Chained(l, pins, depth, i, t, n) && t in pins && pins[t] == p
  {
    ResolvesToExactly(e, m);
    var x := iri(i.0, i.1);
    var y :| Reach(Asserted(e, Rel.Follows), x, y) && (y, p) in ResolveSeeds(e);
    AssertedIff(e, PinnedTo, y, p);
    AssertedIff(e, ResolvesTo, y, p);
    ReachStays(e, l, pins, iri, depth, x, y);
    var a, t := PinnedEdge(e, l, pins, iri, depth, y, p);
    InputNamed(l, a);
    assert Chained(l, pins, depth, a, t, 0);
    ChainedByReach(e, l, pins, iri, depth, t, x, y);
    var b: Input, n: nat :| Named(b) && Chained(l, pins, depth, b, t, n) && x == iri(b.0, b.1);
    assert b == i;
  }

  lemma ChainIsResolved(e: set<Fact>, m: set<Fact>, l: Lock, pins: map<Text, Text>, iri: InputIri, depth: nat,
                        i: Input, t: Text, n: nat)
    requires CoreModel(e, m) && Textual(l) && Describes(e, l, pins, iri, depth) && Chained(l, pins, depth, i, t, n)
    ensures t in pins && Fact(iri(i.0, i.1), ResolvesTo, pins[t]) in m
  {
    ResolvesToExactly(e, m);
    var y := ChainReaches(e, l, pins, iri, depth, i, t, n);
    AssertedIff(e, PinnedTo, y, pins[t]);
    assert (y, pins[t]) in ResolveSeeds(e);
  }

  /** With no assumption on the lock: an input resolves to a pin exactly when resolvable follows paths
      through nodes with pins lead from it to an input locked to that pin. */
  lemma ResolvesExactlyByChain(e: set<Fact>, m: set<Fact>, l: Lock, rootNar: Text, depth: nat, i: Input, p: Text)
    requires CoreModel(e, m) && Textual(l) && Named(i)
    requires Describes(e, l, PinOf(l, rootNar), InputIriFor(rootNar), depth)
    ensures Fact(InputIriFor(rootNar)(i.0, i.1), ResolvesTo, p) in m
       <==> exists t, n: nat :: Chained(l, PinOf(l, rootNar), depth, i, t, n) && t in PinOf(l, rootNar)
                                && PinOf(l, rootNar)[t] == p
  {
    InputIriSeparates(rootNar);
    var pins, iri := PinOf(l, rootNar), InputIriFor(rootNar);
    if Fact(iri(i.0, i.1), ResolvesTo, p) in m {
      ResolvedIsChained(e, m, l, pins, iri, depth, i, p);
    }
    if t, n: nat :| Chained(l, pins, depth, i, t, n) && t in pins && pins[t] == p {
      ChainIsResolved(e, m, l, pins, iri, depth, i, t, n);
    }
  }

  /** One input of the root, by name. */
  function RootInput(l: Lock, name: Text): Option<Target> {
    Lookup(l, l.root, name)
  }

  function Along(path: seq<Text>): Target {
    FollowsPath(seq(|path|, i requires 0 <= i < |path| => Some(path[i])))
  }

  /** An input whose follows path is not resolvable resolves to nothing, whatever node it denotes. */
  lemma UnresolvablePathLosesPin(e: set<Fact>, m: set<Fact>, l: Lock, rootNar: Text, depth: nat, a: Input,
                                 path: seq<Text>, p: Text)
    requires CoreModel(e, m) && Textual(l) && FollowsAlong(l, a, path) && !Resolvable(l, l.root, path, depth)
    requires Describes(e, l, PinOf(l, rootNar), InputIriFor(rootNar), depth)
    ensures Fact(InputIriFor(rootNar)(a.0, a.1), ResolvesTo, p) !in m
  {
    InputNamed(l, a);
    ResolvesExactlyByChain(e, m, l, rootNar, depth, a, p);
  }

  /** `x` follows `u/z`, `u` follows `v`, `v` follows `w`: the walk reaches the node of `z`, but at no depth
      does `x` get a follows edge. */
  lemma DoubleFollowsLosesPin(l: Lock, x: Text, u: Text, v: Text, w: Text, z: Text, n: Text, t: Text)
    requires RootInput(l, x) == Some(Along([u, z])) && RootInput(l, u) == Some(Along([v]))
    requires RootInput(l, v) == Some(Along([w])) && RootInput(l, w) == Some(Direct(n))
    requires Lookup(l, n, z) == Some(Direct(t))
    ensures Denotes(l, (l.root, x), t) && FollowsAlong(l, (l.root, x), [u, z])
    ensures forall depth: nat :: !Resolve(l, [u, z], depth).Found?
    ensures forall depth: nat | depth > 0 :: Resolve(l, [u, z], depth) == Unresolved
  {
    var path := [u, z];
    PairStrings(u, z);
    SingleString(v);
    SingleString(w);
    WalkOne(l, l.root, w, 0, n);
    WalkOne(l, l.root, v, 1, n);
    WalkOne(l, n, z, 2, t);
    assert path[1..] == [z];
    assert WalkInput(l, l.root, u, 2) == Some(n);
    assert Walk(l, l.root, path, 2) == Some(t);
    assert WalkInput(l, l.root, x, 3) == Some(t);
    forall depth: nat
      ensures !Resolve(l, path, depth).Found? && (depth > 0 ==> Resolve(l, path, depth) == Unresolved)
    {
      if depth > 0 {
        assert Resolve(l, [v], depth - 1) == Found(l.root, v);
        assert Hop(l, l.root, u, depth) == Nowhere;
      } else {
        assert Hop(l, l.root, u, depth) == TooDeep;
      }
    }
  }

  /** So the rules resolve it to no pin at all, although the node it denotes has one. */
  lemma DoubleFollowsResolvesNowhere(e: set<Fact>, m: set<Fact>, l: Lock, rootNar: Text, depth: nat,
                                     x: Text, u: Text, v: Text, w: Text, z: Text, n: Text, t: Text, p: Text)
    requires RootInput(l, x) == Some(Along([u, z])) && RootInput(l, u) == Some(Along([v]))
    requires RootInput(l, v) == Some(Along([w])) && RootInput(l, w) == Some(Direct(n))
    requires Lookup(l, n, z) == Some(Direct(t))
    requires CoreModel(e, m) && Textual(l) && Describes(e, l, PinOf(l, rootNar), InputIriFor(rootNar), depth)
    ensures Denotes(l, (l.root, x), t) && Fact(InputIriFor(rootNar)(l.root, x), ResolvesTo, p) !in m
  {
    DoubleFollowsLosesPin(l, x, u, v, w, z, n, t);
    ResolvesExactly(l, [u, z], depth);
    UnresolvablePathLosesPin(e, m, l, rootNar, depth, (l.root, x), [u, z], p);
  }

  /** The same for an input that follows the empty path, which denotes the root. */
  lemma EmptyFollowsResolvesNowhere(e: set<Fact>, m: set<Fact>, l: Lock, rootNar: Text, depth: nat, a: Input, p: Text)
    requires FollowsAlong(l, a, [])
    requires CoreModel(e, m) && Textual(l) && Describes(e, l, PinOf(l, rootNar), InputIriFor(rootNar), depth)
    ensures Denotes(l, a, l.root) && Fact(InputIriFor(rootNar)(a.0, a.1), ResolvesTo, p) !in m
  {
    var parts :| Lookup(l, a.0, a.1) == Some(FollowsPath(parts)) && Strings(parts) == [];
    EmptyFollowsLosesRoot(l, a, parts);
    UnresolvablePathLosesPin(e, m, l, rootNar, depth, a, [], p);
  }

  lemma WalkOne(l: Lock, from: Text, name: Text, depth: nat, t: Text)
    requires WalkInput(l, from, name, depth) == Some(t)
    ensures Walk(l, from, [name], depth) == Some(t)
  {
    assert [name][1..] == [];
  }

  lemma PairStrings(s: Text, t: Text)
    ensures Strings(Along([s, t]).parts) == [s, t]
  {
    var parts := Along([s, t]).parts;
    assert parts[1..] == Along([t]).parts;
    SingleString(t);
    assert Strings(parts) == [s] + Strings(parts[1..]);
  }

  lemma SingleString(s: Text)
    ensures Strings(Along([s]).parts) == [s]
  {
    assert Along([s]).parts[1..] == [];
  }

  // ----- the pins are those of the lock's hashes ----------------------------------------------------

  /** `p` is the graph of the pin fragment that the lock names for node `t`: the flake's own hash for the
      root, the locked NAR hash for any other node. */
  ghost predicate PinnedBy(l: Lock, rootNar: Text, t: Text, p: Text) {
    && t in l.nodes
    && if t == l.root then p == Fragments.Graph(Fragments.Pin(rootNar))
       else l.nodes[t].narHash.Some? && p == Fragments.Graph(Fragments.Pin(l.nodes[t].narHash.value))
  }

  lemma PinIsGraph(sri: Text)
    ensures Pin(sri) == Fragments.Graph(Fragments.Pin(sri))
  {
    var seg := Iri.NarHashSegment(sri);
    assert "pin/" + seg == "pin" + (['/'] + seg);
  }

  /** The pin map is what the lock says. */
  lemma PinsExactly(l: Lock, rootNar: Text, t: Text, p: Text)
    ensures t in PinOf(l, rootNar) && PinOf(l, rootNar)[t] == p <==> PinnedBy(l, rootNar, t, p)
  {
    PinIsGraph(rootNar);
    if t in l.nodes && l.nodes[t].narHash.Some? { PinIsGraph(l.nodes[t].narHash.value); }
  }

  /** Over the lock's own data: when every node has a pin and every follows path is resolvable, an input
      resolves to `p` exactly when it denotes a node whose hash names the pin fragment of graph `p`. */
  lemma ResolvesToLockedHash(e: set<Fact>, m: set<Fact>, l: Lock, rootNar: Text, depth: nat, i: Input, p: Text)
    requires CoreModel(e, m) && Textual(l) && Named(i)
    requires Describes(e, l, PinOf(l, rootNar), InputIriFor(rootNar), depth) && Complete(l, PinOf(l, rootNar), depth)
    ensures Fact(InputIriFor(rootNar)(i.0, i.1), ResolvesTo, p) in m
       <==> exists t :: Denotes(l, i, t) && PinnedBy(l, rootNar, t, p)
  {
    ResolvesExactlyToWalked(e, m, l, rootNar, depth, i, p);
    forall t
      ensures t in PinOf(l, rootNar) && PinOf(l, rootNar)[t] == p <==> PinnedBy(l, rootNar, t, p)
    {
      PinsExactly(l, rootNar, t, p);
    }
  }

  /** The same for every lock: along resolvable follows paths through nodes with hashes. */
  lemma ResolvesToChainedHash(e: set<Fact>, m: set<Fact>, l: Lock, rootNar: Text, depth: nat, i: Input, p: Text)
    requires CoreModel(e, m) && Textual(l) && Named(i)
    requires Describes(e, l, PinOf(l, rootNar), InputIriFor(rootNar), depth)
    ensures Fact(InputIriFor(rootNar)(i.0, i.1), ResolvesTo, p) in m
       <==> exists t, n: nat :: Chained(l, PinOf(l, rootNar), depth, i, t, n) && PinnedBy(l, rootNar, t, p)
  {
    ResolvesExactlyByChain(e, m, l, rootNar, depth, i, p);
    forall t
      ensures t in PinOf(l, rootNar) && PinOf(l, rootNar)[t] == p <==> PinnedBy(l, rootNar, t, p)
    {
      PinsExactly(l, rootNar, t, p);
    }
  }

  /** Nodes whose hashes have different segments have different pins. */
  lemma PinsApart(l: Lock, rootNar: Text, t: Text, u: Text)
    requires t in l.nodes && u in l.nodes && t != l.root && u != l.root
    requires l.nodes[t].narHash.Some? && l.nodes[u].narHash.Some?
    requires Iri.NarHashSegment(l.nodes[t].narHash.value) != Iri.NarHashSegment(l.nodes[u].narHash.value)
    ensures t in PinOf(l, rootNar) && u in PinOf(l, rootNar) && PinOf(l, rootNar)[t] != PinOf(l, rootNar)[u]
  {
    var a, b := Iri.NarHashSegment(l.nodes[t].narHash.value), Iri.NarHashSegment(l.nodes[u].narHash.value);
    var prefix := Iri.Id("pin/");
    assert Iri.Id("pin/" + a) == prefix + a && Iri.Id("pin/" + b) == prefix + b;
    assert (prefix + a)[|prefix|..] == a && (prefix + b)[|prefix|..] == b;
  }

  /** An input's IRI lies below the graph of the root's pin fragment. */
  lemma InputBelowPin(rootNar: Text, parent: Text, name: Text)
    ensures InputIriFor(rootNar)(parent, name)
         == Fragments.Graph(Fragments.Pin(rootNar)) + "/input/" + Iri.Encode(parent) + "/" + Iri.Encode(name)
  {
    PinIsGraph(rootNar);
    var seg := Iri.NarHashSegment(rootNar);
    assert Iri.Id("pin/" + seg + "/input/") == Iri.Id("pin/" + seg) + "/input/";
  }

  /** `locksInput` leads from the pin of a node to each of its inputs, and nowhere else. */
  lemma LocksInputExactly(l: Lock, rootNar: Text, depth: nat, p: Text, x: Text)
    ensures Fact(p, Other("https://w3id.org/nix2rdf/ns#locksInput"), x)
              in LockFacts(l, PinOf(l, rootNar), InputIriFor(rootNar), depth)
       <==> exists id, name :: && Lookup(l, id, name).Some? && PinnedBy(l, rootNar, id, p)
                               && x == InputIriFor(rootNar)(id, name)
  {
    var pins, iri := PinOf(l, rootNar), InputIriFor(rootNar);
    var f := Fact(p, Other("https://w3id.org/nix2rdf/ns#locksInput"), x);
    assert f.p == LOCKS_INPUT;
    if f in LockFacts(l, pins, iri, depth) {
      var a: Input :| PinnedInput(l, pins, a) && f in InputFacts(l, pins, iri, depth, a);
      assert f !in TargetFacts(l, pins, iri, depth, a);
      PinsExactly(l, rootNar, a.0, p);
      assert Lookup(l, a.0, a.1).Some?;
    }
    if id, name :| Lookup(l, id, name).Some? && PinnedBy(l, rootNar, id, p) && x == iri(id, name) {
      PinsExactly(l, rootNar, id, p);
      var a: Input := (id, name);
      assert PinnedInput(l, pins, a) && f in InputFacts(l, pins, iri, depth, a);
    }
  }
}
