/** Datalog over triples: the rule shapes that occur in the core pack, their immediate consequences,
    least models, and a naive evaluation that computes them.

    `new` is what a run exports: the derived triples that were not asserted. */
module Datalog {
  import opened Texts

  /** The predicates of the core pack; `RefT` is its helper relation, which never leaves the engine. */
  datatype Rel =
    | InputDrv | DependsOn | DependsOnTransitively
    | HasOutput | ProducedBy | RdfType | DrvPath
    | References | RefT | RuntimeDependsOn
    | HasRoot | ClosureContains | RuntimeClosureContains | SnapshotOf
    | HasLayer | LayerContains | SharesLayerWith
    | PinnedTo | Follows | ResolvesTo
    | Other(iri: Text)

  datatype Fact = Fact(s: Text, p: Rel, o: Text)

  datatype Rule =
    | Copy(from: Rel, to: Rel)                                   // t(a, to, b) :- t(a, from, b)
    | Inverse(from: Rel, to: Rel)                                // t(b, to, a) :- t(a, from, b)
    | Chain(first: Rel, second: Rel, to: Rel)                    // t(a, to, c) :- t(a, first, b), t(b, second, c)
    // t(a, to, c) :- t(a, first, b), t(c, second, b); with `distinct` also a != c
    | Meet(first: Rel, second: Rel, to: Rel, distinct: bool)
    | SubjectType(from: Rel, class_: Text)                       // t(a, rdf:type, class) :- t(a, from, b)
    | ObjectType(from: Rel, class_: Text)                        // t(b, rdf:type, class) :- t(a, from, b)
    // t(a, to, c) :- t(a, out, x), t(x, link, y), t(c, out, y), a != c
    | Bridge(out: Rel, link: Rel, to: Rel)

  // ----- meaning ---------------------------------------------------------------------

  ghost predicate Linked(m: iset<Fact>, a: Text, p: Rel, b: Text) {
    Fact(a, p, b) in m
  }

  /** Rule `r`, with its body in `m`, has the head `f`. */
  ghost predicate Fires(r: Rule, m: iset<Fact>, f: Fact) {
    match r
    case Copy(from, to) => f.p == to && Linked(m, f.s, from, f.o)
    case Inverse(from, to) => f.p == to && Linked(m, f.o, from, f.s)
    case Chain(first, second, to) => f.p == to && exists b :: Linked(m, f.s, first, b) && Linked(m, b, second, f.o)
    case Meet(first, second, to, distinct) =>
      f.p == to && (distinct ==> f.s != f.o) && exists b :: Linked(m, f.s, first, b) && Linked(m, f.o, second, b)
    case SubjectType(from, class_) => f.p == RdfType && f.o == class_ && exists b :: Linked(m, f.s, from, b)
    case ObjectType(from, class_) => f.p == RdfType && f.o == class_ && exists a :: Linked(m, a, from, f.s)
    case Bridge(out, link, to) =>
      f.p == to && f.s != f.o
      && exists x, y :: Linked(m, f.s, out, x) && Linked(m, x, link, y) && Linked(m, f.o, out, y)
  }

  function Head(r: Rule): Rel {
    if r.SubjectType? || r.ObjectType? then RdfType else r.to
  }

  ghost predicate Closed(rules: set<Rule>, m: iset<Fact>) {
    forall r, f :: r in rules && Fires(r, m, f) ==> f in m
  }

  ghost function Facts(db: set<Fact>): iset<Fact> {
    iset f | f in db
  }

  ghost predicate IsModel(rules: set<Rule>, edb: set<Fact>, m: iset<Fact>) {
    Facts(edb) <= m && Closed(rules, m)
  }

  ghost predicate LeastModel(rules: set<Rule>, edb: set<Fact>, m: set<Fact>) {
    IsModel(rules, edb, Facts(m)) && forall n :: IsModel(rules, edb, n) ==> Facts(m) <= n
  }

  lemma LeastModelUnique(rules: set<Rule>, edb: set<Fact>, m: set<Fact>, n: set<Fact>)
    requires LeastModel(rules, edb, m) && LeastModel(rules, edb, n)
    ensures m == n
  {
    assert Facts(m) <= Facts(n) && Facts(n) <= Facts(m);
    forall f
      ensures f in m <==> f in n
    {
      assert f in Facts(m) <==> f in Facts(n);
    }
  }

  // ----- evaluation ---------------------------------------------------------------------

  function Derive(r: Rule, db: set<Fact>): set<Fact> {
    match r
    case Copy(from, to) => set g | g in db && g.p == from :: Fact(g.s, to, g.o)
    case Inverse(from, to) => set g | g in db && g.p == from :: Fact(g.o, to, g.s)
    case Chain(first, second, to) =>
      set g, h | g in db && h in db && g.p == first && h.p == second && g.o == h.s :: Fact(g.s, to, h.o)
    case Meet(first, second, to, distinct) =>
      set g, h | g in db && h in db && g.p == first && h.p == second && g.o == h.o && (distinct ==> g.s != h.s)
               :: Fact(g.s, to, h.s)
    case SubjectType(from, class_) => set g | g in db && g.p == from :: Fact(g.s, RdfType, class_)
    case ObjectType(from, class_) => set g | g in db && g.p == from :: Fact(g.o, RdfType, class_)
    case Bridge(out, link, to) =>
      set g, l, h | g in db && l in db && h in db && Bridges(out, link, g, l, h) :: Fact(g.s, to, h.s)
  }

  predicate Bridges(out: Rel, link: Rel, g: Fact, l: Fact, h: Fact) {
    g.p == out && l.p == link && h.p == out && g.o == l.s && l.o == h.o && g.s != h.s
  }

  lemma DeriveCopies(r: Rule, db: set<Fact>, f: Fact)
    requires r.Copy? || r.Inverse? || r.SubjectType? || r.ObjectType?
    ensures f in Derive(r, db) <==> Fires(r, Facts(db), f)
  {
    if Fires(r, Facts(db), f) {
      match r
      case Copy(from, to) => assert Fact(f.s, from, f.o) in db;
      case Inverse(from, to) => assert Fact(f.o, from, f.s) in db;
      case SubjectType(from, class_) =>
        var b :| Linked(Facts(db), f.s, from, b);
        assert Fact(f.s, from, b) in db;
      case ObjectType(from, class_) =>
        var a :| Linked(Facts(db), a, from, f.s);
        assert Fact(a, from, f.s) in db;
    }
    if f in Derive(r, db) {
      var g :| g in db && g.p == r.from && f == (match r
        case Copy(_, to) => Fact(g.s, to, g.o)
        case Inverse(_, to) => Fact(g.o, to, g.s)
        case SubjectType(_, c) => Fact(g.s, RdfType, c)
        case ObjectType(_, c) => Fact(g.o, RdfType, c));
      assert Linked(Facts(db), g.s, r.from, g.o);
    }
  }

  lemma DeriveJoins(r: Rule, db: set<Fact>, f: Fact)
    requires r.Chain? || r.Meet?
    ensures f in Derive(r, db) <==> Fires(r, Facts(db), f)
  {
    if Fires(r, Facts(db), f) {
      if r.Chain? {
        var b :| Linked(Facts(db), f.s, r.first, b) && Linked(Facts(db), b, r.second, f.o);
        assert Fact(f.s, r.first, b) in db && Fact(b, r.second, f.o) in db;
      } else {
        var b :| Linked(Facts(db), f.s, r.first, b) && Linked(Facts(db), f.o, r.second, b);
        assert Fact(f.s, r.first, b) in db && Fact(f.o, r.second, b) in db;
      }
    }
    if f in Derive(r, db) {
      if r.Chain? {
        var g, h :| g in db && h in db && g.p == r.first && h.p == r.second && g.o == h.s && f == Fact(g.s, r.to, h.o);
        assert Linked(Facts(db), f.s, r.first, g.o) && Linked(Facts(db), g.o, r.second, f.o);
      } else {
        var g, h :| g in db && h in db && g.p == r.first && h.p == r.second && g.o == h.o
                    && (r.distinct ==> g.s != h.s) && f == Fact(g.s, r.to, h.s);
        assert Linked(Facts(db), f.s, r.first, g.o) && Linked(Facts(db), f.o, r.second, g.o);
      }
    }
  }

  lemma BridgeDerived(r: Rule, db: set<Fact>, f: Fact)
    requires r.Bridge? && Fires(r, Facts(db), f)
    ensures f in Derive(r, db)
  {
    var x, y :| Linked(Facts(db), f.s, r.out, x) && Linked(Facts(db), x, r.link, y) && Linked(Facts(db), f.o, r.out, y);
    var g, l, h := Fact(f.s, r.out, x), Fact(x, r.link, y), Fact(f.o, r.out, y);
    assert g in db && l in db && h in db && Bridges(r.out, r.link, g, l, h);
  }

  lemma BridgeFires(r: Rule, db: set<Fact>, f: Fact)
    requires r.Bridge? && f in Derive(r, db)
    ensures Fires(r, Facts(db), f)
  {
    var g, l, h :| g in db && l in db && h in db && Bridges(r.out, r.link, g, l, h) && f == Fact(g.s, r.to, h.s);
    assert Linked(Facts(db), g.s, r.out, g.o) && Linked(Facts(db), g.o, r.link, l.o) &&
           Linked(Facts(db), h.s, r.out, l.o);
  }

  lemma DeriveFires(r: Rule, db: set<Fact>, f: Fact)
    ensures f in Derive(r, db) <==> Fires(r, Facts(db), f)
  {
    if r.Chain? || r.Meet? {
      DeriveJoins(r, db, f);
    } else if r.Bridge? {
      if Fires(r, Facts(db), f) { BridgeDerived(r, db, f); }
      if f in Derive(r, db) { BridgeFires(r, db, f); }
    } else {
      DeriveCopies(r, db, f);
    }
  }

  function Consequences(rules: set<Rule>, db: set<Fact>): set<Fact> {
    set r, f | r in rules && f in Derive(r, db) :: f
  }

  /** More facts never derive less. */
  lemma FiresMonotone(r: Rule, m: iset<Fact>, n: iset<Fact>, f: Fact)
    requires m <= n && Fires(r, m, f)
    ensures Fires(r, n, f)
  {
    match r
    case Chain(first, second, to) =>
      var b :| Linked(m, f.s, first, b) && Linked(m, b, second, f.o);
      assert Linked(n, f.s, first, b) && Linked(n, b, second, f.o);
    case Meet(first, second, to, distinct) =>
      var b :| Linked(m, f.s, first, b) && Linked(m, f.o, second, b);
      assert Linked(n, f.s, first, b) && Linked(n, f.o, second, b);
    case SubjectType(from, _) =>
      var b :| Linked(m, f.s, from, b);
      assert Linked(n, f.s, from, b);
    case ObjectType(from, _) =>
      var a :| Linked(m, a, from, f.s);
      assert Linked(n, a, from, f.s);
    case Bridge(out, link, to) =>
      var x, y :| Linked(m, f.s, out, x) && Linked(m, x, link, y) && Linked(m, f.o, out, y);
      assert Linked(n, f.s, out, x) && Linked(n, x, link, y) && Linked(n, f.o, out, y);
    case _ =>
  }

  // ----- naive evaluation terminates in the least model -------------------------------------

  ghost function Nodes(rules: set<Rule>, edb: set<Fact>): set<Text> {
    (set f | f in edb :: f.s) + (set f | f in edb :: f.o)
    + (set r | r in rules && (r.SubjectType? || r.ObjectType?) :: r.class_)
  }

  /** The facts that could ever be derived. */
  ghost function Universe(rules: set<Rule>, edb: set<Fact>): set<Fact> {
    edb + set s, r, o | s in Nodes(rules, edb) && r in rules && o in Nodes(rules, edb) :: Fact(s, Head(r), o)
  }

  ghost predicate Within(rules: set<Rule>, edb: set<Fact>, db: set<Fact>) {
    forall f :: f in db ==> f.s in Nodes(rules, edb) && f.o in Nodes(rules, edb) && f in Universe(rules, edb)
  }

  lemma DerivedWithin(rules: set<Rule>, edb: set<Fact>, db: set<Fact>, r: Rule, f: Fact)
    requires Within(rules, edb, db) && r in rules && f in Derive(r, db)
    ensures f.s in Nodes(rules, edb) && f.o in Nodes(rules, edb) && f in Universe(rules, edb)
  {
    DeriveFires(r, db, f);
    var m := Facts(db);
    assert forall a, p, b :: Linked(m, a, p, b) ==> Fact(a, p, b) in db;
    assert f.p == Head(r);
  }

  lemma StepSound(rules: set<Rule>, edb: set<Fact>, db: set<Fact>, n: iset<Fact>)
    requires Facts(db) <= n && IsModel(rules, edb, n)
    ensures Facts(db + Consequences(rules, db)) <= n
  {
    forall f | f in Consequences(rules, db)
      ensures f in n
    {
      var r :| r in rules && f in Derive(r, db);
      DeriveFires(r, db, f);
      FiresMonotone(r, Facts(db), n, f);
    }
  }

  method NaiveEvaluate(rules: set<Rule>, edb: set<Fact>) returns (db: set<Fact>)
    ensures LeastModel(rules, edb, db)
  {
    db := edb;
    while true
      invariant edb <= db && Within(rules, edb, db)
      invariant forall n :: IsModel(rules, edb, n) ==> Facts(db) <= n
      decreases Universe(rules, edb) - db
    {
      var next := db + Consequences(rules, db);
      forall f | f in Consequences(rules, db)
        ensures f.s in Nodes(rules, edb) && f.o in Nodes(rules, edb) && f in Universe(rules, edb)
      {
        var r :| r in rules && f in Derive(r, db);
        DerivedWithin(rules, edb, db, r, f);
      }
      forall n | IsModel(rules, edb, n)
        ensures Facts(next) <= n
      {
        StepSound(rules, edb, db, n);
      }
      if next == db {
        break;
      }
      var f :| f in next && f !in db;
      assert f in Universe(rules, edb) - db && f !in Universe(rules, edb) - next;
      db := next;
    }
    forall r, f | r in rules && Fires(r, Facts(db), f)
      ensures f in Facts(db)
    {
      DeriveFires(r, db, f);
      assert f in Consequences(rules, db);
    }
  }

  // ----- what a run exports -------------------------------------------------------------------

  /** The triples of a model; the helper relation stays inside. */
  function Triples(m: set<Fact>): set<Fact> {
    set f | f in m && f.p != RefT
  }

  function New(asserted: set<Fact>, m: set<Fact>): set<Fact> {
    Triples(m) - asserted
  }

  /** Input and export together are the model's triples, no more and no less; what is exported was not in the
      input, and the helper relation never is. */
  lemma ExportExactly(rules: set<Rule>, edb: set<Fact>, m: set<Fact>, f: Fact)
    requires LeastModel(rules, edb, m)
    ensures f.p != RefT ==> (f in edb || f in New(edb, m) <==> f in m)
    ensures f in New(edb, m) ==> f.p != RefT && f !in edb
  {
    assert f in edb ==> f in Facts(edb);
    assert f in Facts(m) <==> f in m;
  }

  /** Re-running on the input plus its own output computes the same model. */
  lemma RerunSameModel(rules: set<Rule>, edb: set<Fact>, m: set<Fact>)
    requires LeastModel(rules, edb, m)
    ensures LeastModel(rules, edb + New(edb, m), m)
  {
    var edb' := edb + New(edb, m);
    forall f | f in edb'
      ensures f in m
    {
      assert f in edb ==> f in Facts(edb);
      assert f in Facts(m) <==> f in m;
    }
    forall n | IsModel(rules, edb', n)
      ensures Facts(m) <= n
    {
      assert Facts(edb) <= Facts(edb');
      assert IsModel(rules, edb, n);
    }
  }

  /** ... and so derives nothing new. */
  lemma RerunDerivesNothing(rules: set<Rule>, edb: set<Fact>, m: set<Fact>, m': set<Fact>)
    requires LeastModel(rules, edb, m) && LeastModel(rules, edb + New(edb, m), m')
    ensures New(edb + New(edb, m), m') == {}
  {
    RerunSameModel(rules, edb, m);
    LeastModelUnique(rules, edb + New(edb, m), m, m');
  }

  // ----- induction over derivations --------------------------------------------------------------

  ghost function Restricted(m: set<Fact>, target: Rel, good: iset<Fact>): iset<Fact> {
    iset f | f in m && (f.p == target ==> f in good)
  }

  /** To show a property of all facts of one relation in the least model, show it of the asserted ones
      and of the heads of the rules for that relation, assuming it of the bodies. */
  lemma LeastModelInduct(rules: set<Rule>, edb: set<Fact>, m: set<Fact>, target: Rel, good: iset<Fact>)
    requires LeastModel(rules, edb, m)
    requires forall f :: f in edb && f.p == target ==> f in good
    requires forall r, f :: r in rules && Head(r) == target && Fires(r, Restricted(m, target, good), f) ==> f in good
    ensures forall f :: f in m && f.p == target ==> f in good
  {
    var n := Restricted(m, target, good);
    assert n <= Facts(m);
    forall f | f in edb
      ensures f in n
    {
      assert f in Facts(edb);
      assert f in Facts(m);
    }
    forall r, f | r in rules && Fires(r, n, f)
      ensures f in n
    {
      FiresMonotone(r, n, Facts(m), f);
      assert f in Facts(m);
      assert f.p == Head(r);
    }
    assert IsModel(rules, edb, n);
    forall f | f in m && f.p == target
      ensures f in good
    {
      assert f in Facts(m);
      assert f in n;
    }
  }

  /** Every fact of the least model was asserted or is derived in one step from facts of the model. */
  lemma Supported(rules: set<Rule>, edb: set<Fact>, m: set<Fact>, f: Fact)
    requires LeastModel(rules, edb, m)
    ensures f in m <==> f in edb || exists r :: r in rules && Fires(r, Facts(m), f)
  {
    var good := iset g | g in edb || exists r :: r in rules && Fires(r, Facts(m), g);
    forall r, g | r in rules && Head(r) == f.p && Fires(r, Restricted(m, f.p, good), g)
      ensures g in good
    {
      assert Restricted(m, f.p, good) <= Facts(m);
      FiresMonotone(r, Restricted(m, f.p, good), Facts(m), g);
    }
    LeastModelInduct(rules, edb, m, f.p, good);
    if f in edb {
      assert f in Facts(edb);
      assert f in Facts(m);
    } else if r :| r in rules && Fires(r, Facts(m), f) {
      assert f in Facts(m);
    }
  }
}
