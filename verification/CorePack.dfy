/** The core rule pack (packs/core/semantics.rls): its rules, and what its least model says about
    build closures, runtime closures, images, commits and follows resolution, in terms of
    reachability over the asserted triples alone. */
module CorePack {
  import opened Texts
  import opened Reachability
  import opened Datalog

  const OUTPUT: Text := "https://w3id.org/nix2rdf/ns#Output"
  const DERIVATION: Text := "https://w3id.org/nix2rdf/ns#Derivation"
  const SNAPSHOT: Text := "https://w3id.org/nix2rdf/ns#Snapshot"

  function CoreRules(): set<Rule> {
    {
      // build-time dependencies
      Copy(InputDrv, DependsOn),
      Copy(DependsOn, DependsOnTransitively),
      Chain(DependsOnTransitively, DependsOn, DependsOnTransitively),
      // outputs
      Inverse(HasOutput, ProducedBy),
      ObjectType(HasOutput, OUTPUT),
      SubjectType(DrvPath, DERIVATION),
      // runtime dependencies
      Copy(References, RefT),
      Chain(RefT, References, RefT),
      Bridge(HasOutput, RefT, RuntimeDependsOn),
      // snapshots
      Copy(HasRoot, ClosureContains),
      Chain(ClosureContains, DependsOn, ClosureContains),
      SubjectType(ClosureContains, SNAPSHOT),
      Chain(HasRoot, HasOutput, RuntimeClosureContains),
      Chain(RuntimeClosureContains, References, RuntimeClosureContains),
      // commits
      Chain(SnapshotOf, ClosureContains, ClosureContains),
      Chain(SnapshotOf, RuntimeClosureContains, RuntimeClosureContains),
      // images
      Chain(HasLayer, LayerContains, RuntimeClosureContains),
      Meet(RuntimeClosureContains, HasOutput, ClosureContains, false),
      Meet(HasLayer, HasLayer, SharesLayerWith, true),
      // flake inputs
      Copy(PinnedTo, ResolvesTo),
      Chain(Follows, ResolvesTo, ResolvesTo)
    }
  }

  predicate IsHead(p: Rel) {
    p == DependsOn || p == DependsOnTransitively || p == ProducedBy || p == RdfType || p == RefT
    || p == RuntimeDependsOn || p == ClosureContains || p == RuntimeClosureContains || p == SharesLayerWith
    || p == ResolvesTo
  }

  // ----- the asserted relations ---------------------------------------------------------

  ghost function Asserted(e: set<Fact>, p: Rel): Edges<Text> {
    iset f | f in e && f.p == p :: (f.s, f.o)
  }

  /** Direct build dependencies, whichever of the two predicates a source used. */
  ghost function BuildDeps(e: set<Fact>): Edges<Text> {
    Asserted(e, DependsOn) + Asserted(e, InputDrv)
  }

  lemma AssertedIff(e: set<Fact>, p: Rel, a: Text, b: Text)
    ensures (a, b) in Asserted(e, p) <==> Fact(a, p, b) in e
  {
    assert Fact(a, p, b) in e ==> (a, b) in Asserted(e, p);
  }

  // ----- using the model --------------------------------------------------------------------

  ghost predicate CoreModel(e: set<Fact>, m: set<Fact>) {
    LeastModel(CoreRules(), e, m)
  }

  lemma ModelHolds(e: set<Fact>, m: set<Fact>, f: Fact)
    requires CoreModel(e, m) && f in e
    ensures f in m
  {
    assert f in Facts(e);
    assert f in Facts(m);
  }

  lemma ApplyCopy(e: set<Fact>, m: set<Fact>, from: Rel, to: Rel, a: Text, b: Text)
    requires CoreModel(e, m) && Copy(from, to) in CoreRules() && Fact(a, from, b) in m
    ensures Fact(a, to, b) in m
  {
    assert Linked(Facts(m), a, from, b);
    assert Fires(Copy(from, to), Facts(m), Fact(a, to, b));
    assert Fact(a, to, b) in Facts(m);
  }

  lemma ApplyChain(e: set<Fact>, m: set<Fact>, first: Rel, second: Rel, to: Rel, a: Text, b: Text, c: Text)
    requires CoreModel(e, m) && Chain(first, second, to) in CoreRules()
    requires Fact(a, first, b) in m && Fact(b, second, c) in m
    ensures Fact(a, to, c) in m
  {
    assert Linked(Facts(m), a, first, b) && Linked(Facts(m), b, second, c);
    assert Fires(Chain(first, second, to), Facts(m), Fact(a, to, c));
    assert Fact(a, to, c) in Facts(m);
  }

  lemma ApplyMeet(e: set<Fact>, m: set<Fact>, first: Rel, second: Rel, to: Rel, a: Text, b: Text, c: Text)
    requires CoreModel(e, m) && Meet(first, second, to, false) in CoreRules()
    requires Fact(a, first, b) in m && Fact(c, second, b) in m
    ensures Fact(a, to, c) in m
  {
    assert Linked(Facts(m), a, first, b) && Linked(Facts(m), c, second, b);
    assert Fires(Meet(first, second, to, false), Facts(m), Fact(a, to, c));
    assert Fact(a, to, c) in Facts(m);
  }

  /** Relations no rule derives are exactly as asserted. */
  lemma BaseUnchanged(e: set<Fact>, m: set<Fact>, p: Rel)
    requires CoreModel(e, m) && !IsHead(p)
    ensures forall a, b :: Fact(a, p, b) in m <==> (a, b) in Asserted(e, p)
  {
    forall r | r in CoreRules()
      ensures Head(r) != p
    {
    }
    LeastModelInduct(CoreRules(), e, m, p, Facts(e));
    forall a, b
      ensures Fact(a, p, b) in m <==> (a, b) in Asserted(e, p)
    {
      AssertedIff(e, p, a, b);
      if Fact(a, p, b) in m { assert Fact(a, p, b) in Facts(e); }
      if Fact(a, p, b) in e { ModelHolds(e, m, Fact(a, p, b)); }
    }
  }

  // ----- build dependencies -------------------------------------------------------------------

  lemma DependsOnExactly(e: set<Fact>, m: set<Fact>)
    requires CoreModel(e, m)
    ensures forall a, b :: Fact(a, DependsOn, b) in m <==> (a, b) in BuildDeps(e)
  {
    var good := iset f: Fact | (f.s, f.o) in BuildDeps(e);
    BaseUnchanged(e, m, InputDrv);
    forall f | f in e && f.p == DependsOn
      ensures f in good
    {
      AssertedIff(e, DependsOn, f.s, f.o);
    }
    forall r, f | r in CoreRules() && Head(r) == DependsOn && Fires(r, Restricted(m, DependsOn, good), f)
      ensures f in good
    {
      assert r == Copy(InputDrv, DependsOn);
      assert Fact(f.s, InputDrv, f.o) in m;
    }
    LeastModelInduct(CoreRules(), e, m, DependsOn, good);
    forall a, b
      ensures Fact(a, DependsOn, b) in m <==> (a, b) in BuildDeps(e)
    {
      AssertedIff(e, DependsOn, a, b);
      AssertedIff(e, InputDrv, a, b);
      if (a, b) in Asserted(e, DependsOn) { ModelHolds(e, m, Fact(a, DependsOn, b)); }
      if (a, b) in Asserted(e, InputDrv) {
        ModelHolds(e, m, Fact(a, InputDrv, b));
        ApplyCopy(e, m, InputDrv, DependsOn, a, b);
      }
      if Fact(a, DependsOn, b) in m { assert Fact(a, DependsOn, b) in good; }
    }
  }

  // ----- relations closed under steps on either side ---------------------------------------------

  /** Any number of `back` steps, one `seed` step, any number of `fwd` steps. */
  ghost predicate Spans(back: Edges<Text>, seed: Edges<Text>, fwd: Edges<Text>, a: Text, d: Text) {
    exists b, c :: Reach(back, a, b) && (b, c) in seed && Reach(fwd, c, d)
  }

  lemma SpansSeed(back: Edges<Text>, seed: Edges<Text>, fwd: Edges<Text>, a: Text, d: Text)
    requires (a, d) in seed
    ensures Spans(back, seed, fwd, a, d)
  {
    ReachRefl(back, a);
    ReachRefl(fwd, d);
  }

  lemma SpansForward(back: Edges<Text>, seed: Edges<Text>, fwd: Edges<Text>, a: Text, c: Text, d: Text)
    requires Spans(back, seed, fwd, a, c) && (c, d) in fwd
    ensures Spans(back, seed, fwd, a, d)
  {
    var x, y :| Reach(back, a, x) && (x, y) in seed && Reach(fwd, y, c);
    ReachStep(fwd, y, c, d);
  }

  lemma SpansBack(back: Edges<Text>, seed: Edges<Text>, fwd: Edges<Text>, a: Text, b: Text, d: Text)
    requires (a, b) in back && Spans(back, seed, fwd, b, d)
    ensures Spans(back, seed, fwd, a, d)
  {
    var x, y :| Reach(back, b, x) && (x, y) in seed && Reach(fwd, y, d);
    ReachFromEdge(back, a, b);
    ReachTrans(back, a, b, x);
  }

  ghost function Spanned(back: Edges<Text>, seed: Edges<Text>, fwd: Edges<Text>): iset<Fact> {
    iset f: Fact | Spans(back, seed, fwd, f.s, f.o)
  }

  /** The relation holds the seed and is closed under both kinds of steps. */
  ghost predicate Spanning(m: set<Fact>, p: Rel, back: Edges<Text>, seed: Edges<Text>, fwd: Edges<Text>) {
    && (forall a, b :: (a, b) in seed ==> Fact(a, p, b) in m)
    && (forall a, b, c :: Fact(a, p, b) in m && (b, c) in fwd ==> Fact(a, p, c) in m)
    && (forall a, b, c :: (a, b) in back && Fact(b, p, c) in m ==> Fact(a, p, c) in m)
  }

  /** A head `f` over `n` comes from the seed or by one step from a pair already in `n`. */
  ghost predicate OneStep(n: iset<Fact>, p: Rel, back: Edges<Text>, seed: Edges<Text>, fwd: Edges<Text>, f: Fact) {
    || (f.s, f.o) in seed
    || (exists b :: Linked(n, f.s, p, b) && (b, f.o) in fwd)
    || (exists b :: (f.s, b) in back && Linked(n, b, p, f.o))
  }

  lemma SpansHold(m: set<Fact>, p: Rel, back: Edges<Text>, seed: Edges<Text>, fwd: Edges<Text>, a: Text, d: Text)
    requires Spanning(m, p, back, seed, fwd) && Spans(back, seed, fwd, a, d)
    ensures Fact(a, p, d) in m
  {
    var b, c :| Reach(back, a, b) && (b, c) in seed && Reach(fwd, c, d);
    ReachInduct(fwd, (iset x | Fact(b, p, x) in m), c, d);
    ReachInduct(back, (iset x | Fact(x, p, d) in m ==> Fact(a, p, d) in m), a, b);
  }

  /** The relation is exactly what its seeds and steps span. */
  lemma SpannedExactly(rules: set<Rule>, e: set<Fact>, m: set<Fact>, p: Rel, back: Edges<Text>, seed: Edges<Text>,
                       fwd: Edges<Text>)
    requires LeastModel(rules, e, m) && Spanning(m, p, back, seed, fwd)
    requires forall f :: f in e && f.p == p ==> (f.s, f.o) in seed
    requires forall r, f :: r in rules && Head(r) == p && Fires(r, Restricted(m, p, Spanned(back, seed, fwd)), f)
               ==> OneStep(Restricted(m, p, Spanned(back, seed, fwd)), p, back, seed, fwd, f)
    ensures forall a, d :: Fact(a, p, d) in m <==> Spans(back, seed, fwd, a, d)
  {
    var good := Spanned(back, seed, fwd);
    var n := Restricted(m, p, good);
    forall f | f in e && f.p == p
      ensures f in good
    {
      SpansSeed(back, seed, fwd, f.s, f.o);
    }
    forall r, f | r in rules && Head(r) == p && Fires(r, n, f)
      ensures f in good
    {
      OneStepSpans(m, p, back, seed, fwd, f);
    }
    LeastModelInduct(rules, e, m, p, good);
    forall a, d
      ensures Fact(a, p, d) in m <==> Spans(back, seed, fwd, a, d)
    {
      if Fact(a, p, d) in m { assert Fact(a, p, d) in good; }
      if Spans(back, seed, fwd, a, d) { SpansHold(m, p, back, seed, fwd, a, d); }
    }
  }

  lemma OneStepSpans(m: set<Fact>, p: Rel, back: Edges<Text>, seed: Edges<Text>, fwd: Edges<Text>, f: Fact)
    requires OneStep(Restricted(m, p, Spanned(back, seed, fwd)), p, back, seed, fwd, f)
    ensures Spans(back, seed, fwd, f.s, f.o)
  {
    var n := Restricted(m, p, Spanned(back, seed, fwd));
    if (f.s, f.o) in seed {
      SpansSeed(back, seed, fwd, f.s, f.o);
    } else if b :| Linked(n, f.s, p, b) && (b, f.o) in fwd {
      assert Fact(f.s, p, b) in Spanned(back, seed, fwd);
      SpansForward(back, seed, fwd, f.s, b, f.o);
    } else {
      var b :| (f.s, b) in back && Linked(n, b, p, f.o);
      assert Fact(b, p, f.o) in Spanned(back, seed, fwd);
      SpansBack(back, seed, fwd, f.s, b, f.o);
    }
  }

  ghost function NoEdges(): Edges<Text> {
    iset{}
  }

  // ----- transitive closures ----------------------------------------------------------------------

  /** A relation started by copying `base` and extended by `base` on the right. */
  lemma CopiedAndExtended(rules: set<Rule>, e: set<Fact>, m: set<Fact>, base: Rel, p: Rel, step: Edges<Text>)
    requires LeastModel(rules, e, m) && p != base
    requires Copy(base, p) in rules && Chain(p, base, p) in rules
    requires forall r :: r in rules && Head(r) == p ==> r == Copy(base, p) || r == Chain(p, base, p)
    requires forall a, b :: Fact(a, base, b) in m <==> (a, b) in step
    ensures forall a, d :: Fact(a, p, d) in m <==> Spans(NoEdges(), Asserted(e, p) + step, step, a, d)
  {
    var seed := Asserted(e, p) + step;
    var n := Restricted(m, p, Spanned(NoEdges(), seed, step));
    forall a, b | (a, b) in seed
      ensures Fact(a, p, b) in m
    {
      AssertedIff(e, p, a, b);
      if Fact(a, p, b) in e {
        assert Fact(a, p, b) in Facts(e);
        assert Fact(a, p, b) in Facts(m);
      } else {
        assert Linked(Facts(m), a, base, b);
        assert Fires(Copy(base, p), Facts(m), Fact(a, p, b));
        assert Fact(a, p, b) in Facts(m);
      }
    }
    forall a, b, c | Fact(a, p, b) in m && (b, c) in step
      ensures Fact(a, p, c) in m
    {
      assert Linked(Facts(m), a, p, b) && Linked(Facts(m), b, base, c);
      assert Fires(Chain(p, base, p), Facts(m), Fact(a, p, c));
      assert Fact(a, p, c) in Facts(m);
    }
    forall f | f in e && f.p == p
      ensures (f.s, f.o) in seed
    {
      AssertedIff(e, p, f.s, f.o);
    }
    forall r, f | r in rules && Head(r) == p && Fires(r, n, f)
      ensures OneStep(n, p, NoEdges(), seed, step, f)
    {
      if r == Copy(base, p) {
        assert Fact(f.s, base, f.o) in m;
      } else {
        var b :| Linked(n, f.s, p, b) && Linked(n, b, base, f.o);
        assert Fact(b, base, f.o) in m;
      }
    }
    SpannedExactly(rules, e, m, p, NoEdges(), seed, step);
  }

  lemma NoBackSteps(seed: Edges<Text>, step: Edges<Text>, a: Text, d: Text)
    ensures Spans(NoEdges(), seed, step, a, d) <==> exists c :: (a, c) in seed && Reach(step, c, d)
  {
    if Spans(NoEdges(), seed, step, a, d) {
      var b, c :| Reach(NoEdges(), a, b) && (b, c) in seed && Reach(step, c, d);
      ReachInduct(NoEdges(), iset{a}, a, b);
    }
    if c :| (a, c) in seed && Reach(step, c, d) {
      ReachRefl(NoEdges(), a);
    }
  }

  lemma TransitiveRules()
    ensures Copy(DependsOn, DependsOnTransitively) in CoreRules()
    ensures Chain(DependsOnTransitively, DependsOn, DependsOnTransitively) in CoreRules()
    ensures forall r :: r in CoreRules() && Head(r) == DependsOnTransitively
              ==> r == Copy(DependsOn, DependsOnTransitively)
                  || r == Chain(DependsOnTransitively, DependsOn, DependsOnTransitively)
  {
  }

  lemma TransitiveSpans(e: set<Fact>, m: set<Fact>)
    requires CoreModel(e, m)
    ensures forall a, d :: Fact(a, DependsOnTransitively, d) in m
              <==> Spans(NoEdges(), Asserted(e, DependsOnTransitively) + BuildDeps(e), BuildDeps(e), a, d)
  {
    DependsOnExactly(e, m);
    TransitiveRules();
    var rules := CoreRules();
    CopiedAndExtended(rules, e, m, DependsOn, DependsOnTransitively, BuildDeps(e));
  }

  /** `dependsOnTransitively`: an asserted pair or a direct dependency, then any number of direct
      dependencies; so without asserted pairs, exactly the transitive closure. */
  lemma DependsOnTransitivelyExactly(e: set<Fact>, m: set<Fact>, a: Text, d: Text)
    requires CoreModel(e, m)
    ensures Fact(a, DependsOnTransitively, d) in m
       <==> ReachPlus(BuildDeps(e), a, d)
            || exists c :: (a, c) in Asserted(e, DependsOnTransitively) && Reach(BuildDeps(e), c, d)
  {
    var seed := Asserted(e, DependsOnTransitively) + BuildDeps(e);
    TransitiveSpans(e, m);
    NoBackSteps(seed, BuildDeps(e), a, d);
  }

  lemma RefTRules()
    ensures Copy(References, RefT) in CoreRules() && Chain(RefT, References, RefT) in CoreRules()
    ensures forall r :: r in CoreRules() && Head(r) == RefT ==>
            r == Copy(References, RefT) || r == Chain(RefT, References, RefT)
  {
  }

  /** The reference closure between outputs, the engine's helper relation. */
  lemma RefTExactly(e: set<Fact>, m: set<Fact>, x: Text, y: Text)
    requires CoreModel(e, m) && forall f :: f in e ==> f.p != RefT
    ensures Fact(x, RefT, y) in m <==> ReachPlus(Asserted(e, References), x, y)
  {
    var refs := Asserted(e, References);
    BaseUnchanged(e, m, References);
    RefTRules();
    var rules := CoreRules();
    CopiedAndExtended(rules, e, m, References, RefT, refs);
    NoBackSteps(Asserted(e, RefT) + refs, refs, x, y);
    assert Asserted(e, RefT) == iset{};
  }

  /** An output of `a` transitively references an output of `b`. */
  ghost predicate OutputsReference(e: set<Fact>, a: Text, b: Text) {
    exists x, y :: (a, x) in Asserted(e, HasOutput) && (b, y) in Asserted(e, HasOutput)
                   && ReachPlus(Asserted(e, References), x, y)
  }

  lemma RuntimeDependsOnDerived(e: set<Fact>, m: set<Fact>, a: Text, b: Text)
    requires CoreModel(e, m) && forall f :: f in e ==> f.p != RuntimeDependsOn
    requires Fact(a, RuntimeDependsOn, b) in m
    ensures Fires(Bridge(HasOutput, RefT, RuntimeDependsOn), Facts(m), Fact(a, RuntimeDependsOn, b))
  {
    var rule := Bridge(HasOutput, RefT, RuntimeDependsOn);
    var good := iset f | Fires(rule, Facts(m), f);
    forall r, f | r in CoreRules() && Head(r) == RuntimeDependsOn && Fires(r, Restricted(m, RuntimeDependsOn, good), f)
      ensures f in good
    {
      assert r == rule;
      assert Restricted(m, RuntimeDependsOn, good) <= Facts(m);
      FiresMonotone(r, Restricted(m, RuntimeDependsOn, good), Facts(m), f);
    }
    LeastModelInduct(CoreRules(), e, m, RuntimeDependsOn, good);
    assert Fact(a, RuntimeDependsOn, b) in good;
  }

  lemma RuntimeDependsOnHolds(e: set<Fact>, m: set<Fact>, a: Text, b: Text)
    requires CoreModel(e, m) && (forall f :: f in e ==> f.p != RefT) && a != b && OutputsReference(e, a, b)
    ensures Fact(a, RuntimeDependsOn, b) in m
  {
    BaseUnchanged(e, m, HasOutput);
    var x, y :| (a, x) in Asserted(e, HasOutput) && (b, y) in Asserted(e, HasOutput)
                && ReachPlus(Asserted(e, References), x, y);
    RefTExactly(e, m, x, y);
    assert Linked(Facts(m), a, HasOutput, x) && Linked(Facts(m), x, RefT, y) && Linked(Facts(m), b, HasOutput, y);
    assert Fires(Bridge(HasOutput, RefT, RuntimeDependsOn), Facts(m), Fact(a, RuntimeDependsOn, b));
    assert Fact(a, RuntimeDependsOn, b) in Facts(m);
  }

  /** A runtime-depends on B: an output of A transitively references an output of B, A and B distinct. */
  lemma RuntimeDependsOnExactly(e: set<Fact>, m: set<Fact>, a: Text, b: Text)
    requires CoreModel(e, m) && forall f :: f in e ==> f.p != RefT && f.p != RuntimeDependsOn
    ensures Fact(a, RuntimeDependsOn, b) in m <==> a != b && OutputsReference(e, a, b)
  {
    if Fact(a, RuntimeDependsOn, b) in m {
      RuntimeDependsOnDerived(e, m, a, b);
      var x, y :| Linked(Facts(m), a, HasOutput, x) && Linked(Facts(m), x, RefT, y) &&
          Linked(Facts(m), b, HasOutput, y);
      RefTExactly(e, m, x, y);
      BaseUnchanged(e, m, HasOutput);
      assert Fact(a, HasOutput, x) in m && Fact(b, HasOutput, y) in m;
    }
    if a != b && OutputsReference(e, a, b) {
      RuntimeDependsOnHolds(e, m, a, b);
    }
  }

  // ----- runtime closure ------------------------------------------------------------------------------

  ghost predicate Joined(first: Edges<Text>, second: Edges<Text>, a: Text, c: Text) {
    exists b :: (a, b) in first && (b, c) in second
  }

  /** Outputs of roots, layer contents, and what a front-end asserted. */
  ghost predicate RuntimeSeed(e: set<Fact>, s: Text, o: Text) {
    || (s, o) in Asserted(e, RuntimeClosureContains)
    || Joined(Asserted(e, HasRoot), Asserted(e, HasOutput), s, o)
    || Joined(Asserted(e, HasLayer), Asserted(e, LayerContains), s, o)
  }

  ghost function RuntimeSeeds(e: set<Fact>): Edges<Text> {
    iset s, o | RuntimeSeed(e, s, o) :: (s, o)
  }

  ghost predicate RuntimeClosureOf(e: set<Fact>, s: Text, o: Text) {
    Spans(Asserted(e, SnapshotOf), RuntimeSeeds(e), Asserted(e, References), s, o)
  }

  lemma RuntimeRules(r: Rule)
    requires r in CoreRules() && Head(r) == RuntimeClosureContains
    ensures r in {Chain(HasRoot, HasOutput, RuntimeClosureContains),
                  Chain(RuntimeClosureContains, References, RuntimeClosureContains),
                  Chain(SnapshotOf, RuntimeClosureContains, RuntimeClosureContains),
                  Chain(HasLayer, LayerContains, RuntimeClosureContains)}
  {
  }

  lemma RuntimeSpanning(e: set<Fact>, m: set<Fact>)
    requires CoreModel(e, m)
    ensures Spanning(m, RuntimeClosureContains, Asserted(e, SnapshotOf), RuntimeSeeds(e), Asserted(e, References))
  {
    BaseUnchanged(e, m, SnapshotOf);
    BaseUnchanged(e, m, References);
    forall a, b | (a, b) in RuntimeSeeds(e)
      ensures Fact(a, RuntimeClosureContains, b) in m
    {
      RuntimeSeedHolds(e, m, a, b);
    }
    forall a, b, c | Fact(a, RuntimeClosureContains, b) in m && (b, c) in Asserted(e, References)
      ensures Fact(a, RuntimeClosureContains, c) in m
    {
      ApplyChain(e, m, RuntimeClosureContains, References, RuntimeClosureContains, a, b, c);
    }
    forall a, b, c | (a, b) in Asserted(e, SnapshotOf) && Fact(b, RuntimeClosureContains, c) in m
      ensures Fact(a, RuntimeClosureContains, c) in m
    {
      ApplyChain(e, m, SnapshotOf, RuntimeClosureContains, RuntimeClosureContains, a, b, c);
    }
  }

  lemma RuntimeSeedHolds(e: set<Fact>, m: set<Fact>, a: Text, b: Text)
    requires CoreModel(e, m) && RuntimeSeed(e, a, b)
    ensures Fact(a, RuntimeClosureContains, b) in m
  {
    if (a, b) in Asserted(e, RuntimeClosureContains) {
      AssertedIff(e, RuntimeClosureContains, a, b);
      ModelHolds(e, m, Fact(a, RuntimeClosureContains, b));
    } else if Joined(Asserted(e, HasRoot), Asserted(e, HasOutput), a, b) {
      JoinHolds(e, m, HasRoot, HasOutput, RuntimeClosureContains, a, b);
    } else {
      JoinHolds(e, m, HasLayer, LayerContains, RuntimeClosureContains, a, b);
    }
  }

  lemma JoinHolds(e: set<Fact>, m: set<Fact>, first: Rel, second: Rel, to: Rel, a: Text, c: Text)
    requires CoreModel(e, m) && Chain(first, second, to) in CoreRules() && !IsHead(first) && !IsHead(second)
    requires Joined(Asserted(e, first), Asserted(e, second), a, c)
    ensures Fact(a, to, c) in m
  {
    var b :| (a, b) in Asserted(e, first) && (b, c) in Asserted(e, second);
    BaseUnchanged(e, m, first);
    BaseUnchanged(e, m, second);
    ApplyChain(e, m, first, second, to, a, b, c);
  }

  lemma RuntimeSeedStep(e: set<Fact>, m: set<Fact>, first: Rel, second: Rel, a: Text, b: Text, c: Text)
    requires CoreModel(e, m) && Fact(a, first, b) in m && Fact(b, second, c) in m
    requires (first == HasRoot && second == HasOutput) || (first == HasLayer && second == LayerContains)
    ensures (a, c) in RuntimeSeeds(e)
  {
    BaseUnchanged(e, m, first);
    BaseUnchanged(e, m, second);
    assert Joined(Asserted(e, first), Asserted(e, second), a, c);
    assert RuntimeSeed(e, a, c);
  }

  lemma RuntimeOneStep(e: set<Fact>, m: set<Fact>, r: Rule, n: iset<Fact>, f: Fact)
    requires CoreModel(e, m) && n <= Facts(m)
    requires r in CoreRules() && Head(r) == RuntimeClosureContains && Fires(r, n, f)
    ensures OneStep(n, RuntimeClosureContains, Asserted(e, SnapshotOf), RuntimeSeeds(e), Asserted(e, References), f)
  {
    RuntimeRules(r);
    var b :| Linked(n, f.s, r.first, b) && Linked(n, b, r.second, f.o);
    assert Fact(f.s, r.first, b) in Facts(m) && Fact(b, r.second, f.o) in Facts(m);
    if r.first == HasRoot || r.first == HasLayer {
      RuntimeSeedStep(e, m, r.first, r.second, f.s, b, f.o);
    } else {
      BaseUnchanged(e, m, SnapshotOf);
      BaseUnchanged(e, m, References);
    }
  }

  /** `runtimeClosureContains`: from a snapshot (or through commits to one), what is reachable along
      references from the outputs of its roots, its layer contents, or what was asserted of it. */
  lemma RuntimeClosureExactly(e: set<Fact>, m: set<Fact>)
    requires CoreModel(e, m)
    ensures forall s, o :: Fact(s, RuntimeClosureContains, o) in m <==> RuntimeClosureOf(e, s, o)
  {
    var back, seed, fwd := Asserted(e, SnapshotOf), RuntimeSeeds(e), Asserted(e, References);
    var n := Restricted(m, RuntimeClosureContains, Spanned(back, seed, fwd));
    RuntimeSpanning(e, m);
    forall f | f in e && f.p == RuntimeClosureContains
      ensures (f.s, f.o) in seed
    {
      AssertedIff(e, RuntimeClosureContains, f.s, f.o);
      assert RuntimeSeed(e, f.s, f.o);
    }
    assert n <= Facts(m);
    forall r, f | r in CoreRules() && Head(r) == RuntimeClosureContains && Fires(r, n, f)
      ensures OneStep(n, RuntimeClosureContains, back, seed, fwd, f)
    {
      RuntimeOneStep(e, m, r, n, f);
    }
    SpannedExactly(CoreRules(), e, m, RuntimeClosureContains, back, seed, fwd);
  }

  // ----- build closure ----------------------------------------------------------------------------------

  /** `d` produced an output in the runtime closure of `s`. */
  ghost predicate ProducesShipped(e: set<Fact>, s: Text, d: Text) {
    exists o :: RuntimeClosureOf(e, s, o) && (d, o) in Asserted(e, HasOutput)
  }

  /** Roots, producers of shipped outputs, and what a front-end asserted. */
  ghost predicate BuildSeed(e: set<Fact>, s: Text, d: Text) {
    (s, d) in Asserted(e, ClosureContains) || (s, d) in Asserted(e, HasRoot) || ProducesShipped(e, s, d)
  }

  ghost function BuildSeeds(e: set<Fact>): Edges<Text> {
    iset s, d | BuildSeed(e, s, d) :: (s, d)
  }

  ghost predicate BuildClosureOf(e: set<Fact>, s: Text, d: Text) {
    Spans(Asserted(e, SnapshotOf), BuildSeeds(e), BuildDeps(e), s, d)
  }

  lemma BuildRules(r: Rule)
    requires r in CoreRules() && Head(r) == ClosureContains
    ensures r in {Copy(HasRoot, ClosureContains), Chain(ClosureContains, DependsOn, ClosureContains),
                  Chain(SnapshotOf, ClosureContains, ClosureContains),
                  Meet(RuntimeClosureContains, HasOutput, ClosureContains, false)}
  {
  }

  lemma BuildSeedHolds(e: set<Fact>, m: set<Fact>, a: Text, b: Text)
    requires CoreModel(e, m) && BuildSeed(e, a, b)
    ensures Fact(a, ClosureContains, b) in m
  {
    if (a, b) in Asserted(e, ClosureContains) {
      AssertedIff(e, ClosureContains, a, b);
      ModelHolds(e, m, Fact(a, ClosureContains, b));
    } else if (a, b) in Asserted(e, HasRoot) {
      BaseUnchanged(e, m, HasRoot);
      ApplyCopy(e, m, HasRoot, ClosureContains, a, b);
    } else {
      ShippedHolds(e, m, a, b);
    }
  }

  lemma ShippedHolds(e: set<Fact>, m: set<Fact>, a: Text, b: Text)
    requires CoreModel(e, m) && ProducesShipped(e, a, b)
    ensures Fact(a, ClosureContains, b) in m
  {
    var o :| RuntimeClosureOf(e, a, o) && (b, o) in Asserted(e, HasOutput);
    RuntimeClosureExactly(e, m);
    BaseUnchanged(e, m, HasOutput);
    ApplyMeet(e, m, RuntimeClosureContains, HasOutput, ClosureContains, a, o, b);
  }

  lemma BuildSpanning(e: set<Fact>, m: set<Fact>)
    requires CoreModel(e, m)
    ensures Spanning(m, ClosureContains, Asserted(e, SnapshotOf), BuildSeeds(e), BuildDeps(e))
  {
    BaseUnchanged(e, m, SnapshotOf);
    DependsOnExactly(e, m);
    forall a, b | (a, b) in BuildSeeds(e)
      ensures Fact(a, ClosureContains, b) in m
    {
      BuildSeedHolds(e, m, a, b);
    }
    forall a, b, c | Fact(a, ClosureContains, b) in m && (b, c) in BuildDeps(e)
      ensures Fact(a, ClosureContains, c) in m
    {
      ApplyChain(e, m, ClosureContains, DependsOn, ClosureContains, a, b, c);
    }
    forall a, b, c | (a, b) in Asserted(e, SnapshotOf) && Fact(b, ClosureContains, c) in m
      ensures Fact(a, ClosureContains, c) in m
    {
      ApplyChain(e, m, SnapshotOf, ClosureContains, ClosureContains, a, b, c);
    }
  }

  lemma BuildOneStep(e: set<Fact>, m: set<Fact>, r: Rule, n: iset<Fact>, f: Fact)
    requires CoreModel(e, m) && n <= Facts(m)
    requires r in CoreRules() && Head(r) == ClosureContains && Fires(r, n, f)
    ensures OneStep(n, ClosureContains, Asserted(e, SnapshotOf), BuildSeeds(e), BuildDeps(e), f)
  {
    BuildRules(r);
    if r.Copy? {
      BaseUnchanged(e, m, HasRoot);
      assert Fact(f.s, HasRoot, f.o) in Facts(m);
      assert BuildSeed(e, f.s, f.o);
    } else if r.Meet? {
      var o :| Linked(n, f.s, RuntimeClosureContains, o) && Linked(n, f.o, HasOutput, o);
      assert Fact(f.s, RuntimeClosureContains, o) in Facts(m) && Fact(f.o, HasOutput, o) in Facts(m);
      BaseUnchanged(e, m, HasOutput);
      RuntimeClosureExactly(e, m);
      assert ProducesShipped(e, f.s, f.o);
      assert BuildSeed(e, f.s, f.o);
    } else {
      var b :| Linked(n, f.s, r.first, b) && Linked(n, b, r.second, f.o);
      assert Fact(f.s, r.first, b) in Facts(m) && Fact(b, r.second, f.o) in Facts(m);
      BaseUnchanged(e, m, SnapshotOf);
      DependsOnExactly(e, m);
    }
  }

  /** `closureContains`: from a snapshot (or through commits to one), what is reachable along build
      dependencies from its roots, the producers of what it ships, or what was asserted of it. */
  lemma BuildClosureExactly(e: set<Fact>, m: set<Fact>)
    requires CoreModel(e, m)
    ensures forall s, d :: Fact(s, ClosureContains, d) in m <==> BuildClosureOf(e, s, d)
  {
    var back, seed, fwd := Asserted(e, SnapshotOf), BuildSeeds(e), BuildDeps(e);
    var n := Restricted(m, ClosureContains, Spanned(back, seed, fwd));
    BuildSpanning(e, m);
    forall f | f in e && f.p == ClosureContains
      ensures (f.s, f.o) in seed
    {
      AssertedIff(e, ClosureContains, f.s, f.o);
      assert BuildSeed(e, f.s, f.o);
    }
    assert n <= Facts(m);
    forall r, f | r in CoreRules() && Head(r) == ClosureContains && Fires(r, n, f)
      ensures OneStep(n, ClosureContains, back, seed, fwd, f)
    {
      BuildOneStep(e, m, r, n, f);
    }
    SpannedExactly(CoreRules(), e, m, ClosureContains, back, seed, fwd);
  }

  // ----- follows resolution -------------------------------------------------------------------------------

  ghost function ResolveSeeds(e: set<Fact>): Edges<Text> {
    Asserted(e, ResolvesTo) + Asserted(e, PinnedTo)
  }

  lemma FollowsSpanning(e: set<Fact>, m: set<Fact>)
    requires CoreModel(e, m)
    ensures Spanning(m, ResolvesTo, Asserted(e, Follows), ResolveSeeds(e), NoEdges())
  {
    BaseUnchanged(e, m, Follows);
    BaseUnchanged(e, m, PinnedTo);
    forall a, b | (a, b) in ResolveSeeds(e)
      ensures Fact(a, ResolvesTo, b) in m
    {
      AssertedIff(e, ResolvesTo, a, b);
      if Fact(a, ResolvesTo, b) in e {
        ModelHolds(e, m, Fact(a, ResolvesTo, b));
      } else {
        ApplyCopy(e, m, PinnedTo, ResolvesTo, a, b);
      }
    }
    forall a, b, c | (a, b) in Asserted(e, Follows) && Fact(b, ResolvesTo, c) in m
      ensures Fact(a, ResolvesTo, c) in m
    {
      ApplyChain(e, m, Follows, ResolvesTo, ResolvesTo, a, b, c);
    }
  }

  lemma ResolveRules(r: Rule)
    requires r in CoreRules() && Head(r) == ResolvesTo
    ensures r in {Copy(PinnedTo, ResolvesTo), Chain(Follows, ResolvesTo, ResolvesTo)}
  {
  }

  lemma ResolveOneStep(e: set<Fact>, m: set<Fact>, r: Rule, n: iset<Fact>, f: Fact)
    requires CoreModel(e, m) && n <= Facts(m)
    requires r in CoreRules() && Head(r) == ResolvesTo && Fires(r, n, f)
    ensures OneStep(n, ResolvesTo, Asserted(e, Follows), ResolveSeeds(e), NoEdges(), f)
  {
    ResolveRules(r);
    if r.Copy? {
      BaseUnchanged(e, m, PinnedTo);
      assert Fact(f.s, PinnedTo, f.o) in Facts(m);
    } else {
      BaseUnchanged(e, m, Follows);
      var b :| Linked(n, f.s, Follows, b) && Linked(n, b, ResolvesTo, f.o);
      assert Fact(f.s, Follows, b) in Facts(m);
    }
  }

  lemma ResolvesToSpans(e: set<Fact>, m: set<Fact>)
    requires CoreModel(e, m)
    ensures forall i, p :: Fact(i, ResolvesTo, p) in m <==>
            Spans(Asserted(e, Follows), ResolveSeeds(e), NoEdges(), i, p)
  {
    var back, seed := Asserted(e, Follows), ResolveSeeds(e);
    var n := Restricted(m, ResolvesTo, Spanned(back, seed, NoEdges()));
    FollowsSpanning(e, m);
    forall f | f in e && f.p == ResolvesTo
      ensures (f.s, f.o) in seed
    {
      AssertedIff(e, ResolvesTo, f.s, f.o);
    }
    assert n <= Facts(m);
    forall r, f | r in CoreRules() && Head(r) == ResolvesTo && Fires(r, n, f)
      ensures OneStep(n, ResolvesTo, back, seed, NoEdges(), f)
    {
      ResolveOneStep(e, m, r, n, f);
    }
    SpannedExactly(CoreRules(), e, m, ResolvesTo, back, seed, NoEdges());
  }

  /** `resolvesTo`: along any number of follows edges, then a pin. */
  lemma ResolvesToExactly(e: set<Fact>, m: set<Fact>)
    requires CoreModel(e, m)
    ensures forall i, p :: Fact(i, ResolvesTo, p) in m
              <==> exists j :: Reach(Asserted(e, Follows), i, j) && (j, p) in ResolveSeeds(e)
  {
    ResolvesToSpans(e, m);
    forall i, p
      ensures Fact(i, ResolvesTo, p) in m
         <==> exists j :: Reach(Asserted(e, Follows), i, j) && (j, p) in ResolveSeeds(e)
    {
      NoForwardSteps(Asserted(e, Follows), ResolveSeeds(e), i, p);
    }
  }

  lemma NoForwardSteps(back: Edges<Text>, seed: Edges<Text>, a: Text, d: Text)
    ensures Spans(back, seed, NoEdges(), a, d) <==> exists b :: Reach(back, a, b) && (b, d) in seed
  {
    if Spans(back, seed, NoEdges(), a, d) {
      var b, c :| Reach(back, a, b) && (b, c) in seed && Reach(NoEdges(), c, d);
      ReachInduct(NoEdges(), iset{c}, c, d);
    }
    if b :| Reach(back, a, b) && (b, d) in seed {
      ReachRefl(NoEdges(), d);
    }
  }

  // ----- relations whose rules are not recursive ------------------------------------------------------------

  /** A relation with one rule holds what was asserted and what the rule gives. */
  lemma OneRule(rules: set<Rule>, e: set<Fact>, m: set<Fact>, rule: Rule, f: Fact)
    requires LeastModel(rules, e, m) && rule in rules
    requires forall r :: r in rules && Head(r) == f.p ==> r == rule
    ensures f in m <==> f in e || Fires(rule, Facts(m), f)
  {
    Supported(rules, e, m, f);
    if r :| r in rules && Fires(r, Facts(m), f) {
      assert Head(r) == f.p;
    }
  }

  lemma ProducedByRules()
    ensures Inverse(HasOutput, ProducedBy) in CoreRules()
    ensures forall r :: r in CoreRules() && Head(r) == ProducedBy ==> r == Inverse(HasOutput, ProducedBy)
  {
  }

  lemma SharesLayerRules()
    ensures Meet(HasLayer, HasLayer, SharesLayerWith, true) in CoreRules()
    ensures forall r :: r in CoreRules() && Head(r) == SharesLayerWith ==>
              r == Meet(HasLayer, HasLayer, SharesLayerWith, true)
  {
  }

  /** `producedBy`: the inverse of `hasOutput`, and what was asserted. */
  lemma ProducedByExactly(e: set<Fact>, m: set<Fact>, o: Text, d: Text)
    requires CoreModel(e, m)
    ensures Fact(o, ProducedBy, d) in m <==> Fact(o, ProducedBy, d) in e || Fact(d, HasOutput, o) in e
  {
    var rules := CoreRules();
    ProducedByRules();
    OneRule(rules, e, m, Inverse(HasOutput, ProducedBy), Fact(o, ProducedBy, d));
    BaseUnchanged(e, m, HasOutput);
    AssertedIff(e, HasOutput, d, o);
    assert Linked(Facts(m), d, HasOutput, o) <==> Fact(d, HasOutput, o) in m;
  }

  ghost predicate ShareLayer(e: set<Fact>, a: Text, b: Text) {
    exists l :: Fact(a, HasLayer, l) in e && Fact(b, HasLayer, l) in e
  }

  /** `sharesLayerWith`: different images with a layer in common, and what was asserted. */
  lemma SharesLayerExactly(e: set<Fact>, m: set<Fact>, a: Text, b: Text)
    requires CoreModel(e, m)
    ensures Fact(a, SharesLayerWith, b) in m
       <==> Fact(a, SharesLayerWith, b) in e || (a != b && ShareLayer(e, a, b))
  {
    var rules := CoreRules();
    SharesLayerRules();
    OneRule(rules, e, m, Meet(HasLayer, HasLayer, SharesLayerWith, true), Fact(a, SharesLayerWith, b));
    BaseUnchanged(e, m, HasLayer);
    forall l
      ensures Linked(Facts(m), a, HasLayer, l) <==> Fact(a, HasLayer, l) in e
      ensures Linked(Facts(m), b, HasLayer, l) <==> Fact(b, HasLayer, l) in e
    {
      AssertedIff(e, HasLayer, a, l);
      AssertedIff(e, HasLayer, b, l);
      assert Linked(Facts(m), a, HasLayer, l) <==> Fact(a, HasLayer, l) in m;
    }
  }

  lemma TypeRules(r: Rule)
    ensures r in CoreRules() && Head(r) == RdfType
       <==> r == ObjectType(HasOutput, "https://w3id.org/nix2rdf/ns#Output")
            || r == SubjectType(DrvPath, "https://w3id.org/nix2rdf/ns#Derivation")
            || r == SubjectType(ClosureContains, "https://w3id.org/nix2rdf/ns#Snapshot")
  {
  }

  /** The classes the pack assigns: what some derivation has as an output is an output, what has a derivation
      path is a derivation, and what has a build closure is a snapshot. */
  ghost predicate Classified(e: set<Fact>, x: Text, class_: Text) {
    || (class_ == "https://w3id.org/nix2rdf/ns#Output" && exists d :: Fact(d, HasOutput, x) in e)
    || (class_ == "https://w3id.org/nix2rdf/ns#Derivation" && exists p :: Fact(x, DrvPath, p) in e)
    || (class_ == "https://w3id.org/nix2rdf/ns#Snapshot" && exists d :: BuildClosureOf(e, x, d))
  }

  lemma TypeDerived(m: iset<Fact>, f: Fact)
    requires f.p == RdfType
    ensures (exists r :: r in CoreRules() && Fires(r, m, f))
       <==> || (f.o == OUTPUT && exists a :: Linked(m, a, HasOutput, f.s))
            || (f.o == DERIVATION && exists b :: Linked(m, f.s, DrvPath, b))
            || (f.o == SNAPSHOT && exists b :: Linked(m, f.s, ClosureContains, b))
  {
    var a, b := ObjectType(HasOutput, OUTPUT), SubjectType(DrvPath, DERIVATION);
    var c := SubjectType(ClosureContains, SNAPSHOT);
    TypeRules(a);
    TypeRules(b);
    TypeRules(c);
    assert Fires(a, m, f) <==> f.o == OUTPUT && exists x :: Linked(m, x, HasOutput, f.s);
    assert Fires(b, m, f) <==> f.o == DERIVATION && exists x :: Linked(m, f.s, DrvPath, x);
    assert Fires(c, m, f) <==> f.o == SNAPSHOT && exists x :: Linked(m, f.s, ClosureContains, x);
    if r :| r in CoreRules() && Fires(r, m, f) {
      assert Head(r) == RdfType;
      TypeRules(r);
    }
  }

  lemma TypesExactly(e: set<Fact>, m: set<Fact>, x: Text, class_: Text)
    requires CoreModel(e, m)
    ensures Fact(x, RdfType, class_) in m <==> Fact(x, RdfType, class_) in e || Classified(e, x, class_)
  {
    var rules := CoreRules();
    Supported(rules, e, m, Fact(x, RdfType, class_));
    TypeDerived(Facts(m), Fact(x, RdfType, class_));
    OutputTyped(e, m, x);
    DerivationTyped(e, m, x);
    SnapshotTyped(e, m, x);
  }

  lemma OutputTyped(e: set<Fact>, m: set<Fact>, x: Text)
    requires CoreModel(e, m)
    ensures (exists a :: Linked(Facts(m), a, HasOutput, x)) <==> exists d :: Fact(d, HasOutput, x) in e
  {
    BaseUnchanged(e, m, HasOutput);
    forall d
      ensures Linked(Facts(m), d, HasOutput, x) <==> Fact(d, HasOutput, x) in e
    {
      AssertedIff(e, HasOutput, d, x);
      assert Linked(Facts(m), d, HasOutput, x) <==> Fact(d, HasOutput, x) in m;
    }
  }

  lemma DerivationTyped(e: set<Fact>, m: set<Fact>, x: Text)
    requires CoreModel(e, m)
    ensures (exists b :: Linked(Facts(m), x, DrvPath, b)) <==> exists p :: Fact(x, DrvPath, p) in e
  {
    BaseUnchanged(e, m, DrvPath);
    forall p
      ensures Linked(Facts(m), x, DrvPath, p) <==> Fact(x, DrvPath, p) in e
    {
      AssertedIff(e, DrvPath, x, p);
      assert Linked(Facts(m), x, DrvPath, p) <==> Fact(x, DrvPath, p) in m;
    }
  }

  lemma SnapshotTyped(e: set<Fact>, m: set<Fact>, x: Text)
    requires CoreModel(e, m)
    ensures (exists b :: Linked(Facts(m), x, ClosureContains, b)) <==> exists d :: BuildClosureOf(e, x, d)
  {
    BuildClosureExactly(e, m);
    forall d
      ensures Linked(Facts(m), x, ClosureContains, d) <==> BuildClosureOf(e, x, d)
    {
      assert Linked(Facts(m), x, ClosureContains, d) <==> Fact(x, ClosureContains, d) in m;
    }
  }
}
