/** Canonical names for the existential nulls of a rule run (`canonicalize_nulls` in reason.rs).

    Every null is named after the hash of the triples it occurs in, all nulls blanked out.  The
    result depends only on the isomorphism class of the derived triples, and two nulls share a
    name exactly when their blanked neighbourhoods agree. */
module Nulls {
  import opened Texts
  import opened Sorting
  import opened Hashing
  import opened NTriples

  datatype RdfTerm =
    | Iri(iri: Text)
    | Literal(lex: Text, dt: Text)
    | LangString(lex: Text, lang: Text)
    | Null(id: Text)

  datatype DerivedTriple = DerivedTriple(s: RdfTerm, p: RdfTerm, o: RdfTerm)

  datatype Row = Row(s: Term, p: Text, o: Term)

  const XSD_STRING: Text := "http://www.w3.org/2001/XMLSchema#string"

  function Key(t: RdfTerm): Text {
    match t
    case Null(_) => "_"
    case Iri(i) => "<" + i + ">"
    case Literal(l, d) => "\"" + l + "\"^^<" + d + ">"
    case LangString(l, g) => "\"" + l + "\"@" + g
  }

  function Line(t: DerivedTriple): Text {
    Key(t.s) + " " + Key(t.p) + " " + Key(t.o)
  }

  // ----- specification -----------------------------------------------------------

  /** A position and a triple with its nulls blanked out. */
  datatype Place = Place(subject: bool, blank: DerivedTriple)

  function BlankTerm(t: RdfTerm): RdfTerm {
    if t.Null? then Null("") else t
  }

  function Blank(t: DerivedTriple): DerivedTriple {
    DerivedTriple(BlankTerm(t.s), BlankTerm(t.p), BlankTerm(t.o))
  }

  /** The neighbourhood of a null, as data: every place it occurs at, nulls blanked out. */
  ghost function Neighbourhood(ts: set<DerivedTriple>, id: Text): set<Place> {
    (set t | t in ts && t.s == Null(id) :: Place(true, Blank(t)))
    + (set t | t in ts && t.o == Null(id) :: Place(false, Blank(t)))
  }

  /** The same as text: the lines the implementation hashes. */
  function PlaceLine(x: Place): Text {
    (if x.subject then "S " else "O ") + Line(x.blank)
  }

  ghost function Image(f: Place -> Text, s: set<Place>): set<Text> {
    set x | x in s :: f(x)
  }

  ghost function Signature(ts: set<DerivedTriple>, id: Text): set<Text> {
    Image(PlaceLine, Neighbourhood(ts, id))
  }

  ghost predicate Mentions(ts: set<DerivedTriple>, id: Text) {
    exists t :: t in ts && (t.s == Null(id) || t.o == Null(id))
  }

  function NullName(graph: Text, sig: set<Text>, sha: Digest): Text {
    graph + "/n/" + Short(sha(Frames(InOrder(sig))))
  }

  ghost function NameOf(ts: set<DerivedTriple>, id: Text, graph: Text, sha: Digest): Text {
    NullName(graph, Signature(ts, id), sha)
  }

  function NewTypedLiteral(lex: Text, dt: Text): Term {
    if dt == XSD_STRING then Simple(lex) else Typed(lex, dt)
  }

  ghost function Conv(ts: set<DerivedTriple>, t: RdfTerm, graph: Text, sha: Digest): Term {
    match t
    case Iri(i) => NamedNode(i)
    case Literal(l, d) => NewTypedLiteral(l, d)
    case LangString(l, g) => Lang(l, g)
    case Null(id) => NamedNode(NameOf(ts, id, graph, sha))
  }

  ghost function ConvRow(ts: set<DerivedTriple>, t: DerivedTriple, graph: Text, sha: Digest): Row
    requires t.p.Iri?
  {
    Row(Conv(ts, t.s, graph, sha), t.p.iri, Conv(ts, t.o, graph, sha))
  }

  /** The image of the rows with an IRI predicate under one map from nulls to IRIs. */
  ghost function Rows(ts: set<DerivedTriple>, graph: Text, sha: Digest): set<Row> {
    set t | t in ts && t.p.Iri? :: ConvRow(ts, t, graph, sha)
  }

  predicate RowLe(a: Row, b: Row) {
    || Less(Render(a.s), Render(b.s))
    || (Render(a.s) == Render(b.s) && (Less(a.p, b.p) || (a.p == b.p && LessEq(Render(a.o), Render(b.o)))))
  }

  lemma RowOrder()
    ensures TotalOrder(RowLe)
  {
    forall a: Row, b: Row
      ensures RowLe(a, b) || RowLe(b, a)
      ensures RowLe(a, b) && RowLe(b, a) ==> a == b
    {
      RowCompare(a, b);
    }
    forall a: Row, b: Row, c: Row | RowLe(a, b) && RowLe(b, c)
      ensures RowLe(a, c)
    {
      TextOrder();
      LessChain(Render(a.s), Render(b.s), Render(c.s));
      LessChain(a.p, b.p, c.p);
      assert LessEq(Render(a.o), Render(b.o)) && LessEq(Render(b.o), Render(c.o))
             ==> LessEq(Render(a.o), Render(c.o));
    }
  }

  lemma LessChain(a: Text, b: Text, c: Text)
    ensures Less(a, b) && Less(b, c) ==> Less(a, c)
  {
    if Less(a, b) && Less(b, c) { LessTransitive(a, b, c); }
  }

  lemma RowCompare(a: Row, b: Row)
    ensures RowLe(a, b) || RowLe(b, a)
    ensures RowLe(a, b) && RowLe(b, a) ==> a == b
  {
    Trichotomy(Render(a.s), Render(b.s));
    Trichotomy(a.p, b.p);
    Trichotomy(Render(a.o), Render(b.o));
    if Render(a.s) == Render(b.s) { RenderInjective(a.s, b.s); }
    if Render(a.o) == Render(b.o) { RenderInjective(a.o, b.o); }
  }

  lemma Trichotomy(a: Text, b: Text)
    ensures a == b || Less(a, b) || Less(b, a)
    ensures Less(a, b) ==> a != b && !Less(b, a)
    ensures Less(b, a) ==> a != b
  {
    LessTotal(a, b);
    if Less(a, b) { LessAsymmetric(a, b); }
    if Less(b, a) { LessAsymmetric(b, a); }
  }

  /** The strictly sorted, duplicate-free list of the converted rows. */
  ghost predicate IsCanonical(out: seq<Row>, ts: set<DerivedTriple>, graph: Text, sha: Digest) {
    Sorted(RowLe, out) && Distinct(out) && Elements(out) == Rows(ts, graph, sha)
  }

  // ----- the algorithm -------------------------------------------------------------

  function AddLine(sigs: map<Text, set<Text>>, id: Text, line: Text): map<Text, set<Text>> {
    sigs[id := (if id in sigs then sigs[id] else {}) + {line}]
  }

  /** `sigs` holds exactly the signatures of the nulls mentioned in `ts`. */
  ghost predicate Collected(f: Place -> Text, sigs: map<Text, set<Text>>, ts: set<DerivedTriple>) {
    forall id :: && (id in sigs <==> Mentions(ts, id))
                 && (id in sigs ==> sigs[id] == Image(f, Neighbourhood(ts, id)))
  }

  lemma NeighbourhoodGrows(ts: set<DerivedTriple>, t: DerivedTriple, id: Text)
    ensures Neighbourhood(ts + {t}, id)
         == Neighbourhood(ts, id) + (if t.s == Null(id) then {Place(true, Blank(t))} else {})
                                  + (if t.o == Null(id) then {Place(false, Blank(t))} else {})
    ensures Mentions(ts + {t}, id) <==> Mentions(ts, id) || t.s == Null(id) || t.o == Null(id)
    ensures !Mentions(ts, id) ==> Neighbourhood(ts, id) == {}
  {
    assert t in ts + {t};
  }

  lemma ImageGrows(f: Place -> Text, ts: set<DerivedTriple>, t: DerivedTriple, id: Text)
    ensures Image(f, Neighbourhood(ts + {t}, id))
         == Image(f, Neighbourhood(ts, id)) + (if t.s == Null(id) then {f(Place(true, Blank(t)))} else {})
                                            + (if t.o == Null(id) then {f(Place(false, Blank(t)))} else {})
  {
    NeighbourhoodGrows(ts, t, id);
    ImageUnion(f, Neighbourhood(ts, id), if t.s == Null(id) then {Place(true, Blank(t))} else {},
               if t.o == Null(id) then {Place(false, Blank(t))} else {});
  }

  lemma CollectOne(f: Place -> Text, sigs: map<Text, set<Text>>, ts: set<DerivedTriple>, t: DerivedTriple,
                   x: Text, y: Text)
    requires Collected(f, sigs, ts)
    requires x == f(Place(true, Blank(t))) && y == f(Place(false, Blank(t)))
    ensures
      var s1 := if t.s.Null? then AddLine(sigs, t.s.id, x) else sigs;
      var s2 := if t.o.Null? then AddLine(s1, t.o.id, y) else s1;
      Collected(f, s2, ts + {t})
  {
    var s1 := if t.s.Null? then AddLine(sigs, t.s.id, x) else sigs;
    var s2 := if t.o.Null? then AddLine(s1, t.o.id, y) else s1;
    forall id
      ensures id in s2 <==> Mentions(ts + {t}, id)
      ensures id in s2 ==> s2[id] == Image(f, Neighbourhood(ts + {t}, id))
    {
      NeighbourhoodGrows(ts, t, id);
      ImageGrows(f, ts, t, id);
      assert id !in sigs ==> Image(f, Neighbourhood(ts, id)) == {};
    }
  }

  lemma ImageUnion(f: Place -> Text, a: set<Place>, b: set<Place>, c: set<Place>)
    ensures Image(f, a + b + c) == Image(f, a) + Image(f, b) + Image(f, c)
    ensures forall x :: Image(f, {x}) == {f(x)}
    ensures Image(f, {}) == {}
  {
  }

  lemma BlankLine(t: DerivedTriple)
    ensures Line(Blank(t)) == Line(t)
  {
  }

  /** One row's contribution: its line, tagged with the position of each null. */
  function CollectTriple(sigs: map<Text, set<Text>>, t: DerivedTriple): map<Text, set<Text>> {
    var line := Line(t);
    var s1 := if t.s.Null? then AddLine(sigs, t.s.id, "S " + line) else sigs;
    if t.o.Null? then AddLine(s1, t.o.id, "O " + line) else s1
  }

  lemma CollectTripleCollects(sigs: map<Text, set<Text>>, ts: set<DerivedTriple>, t: DerivedTriple)
    requires Collected(PlaceLine, sigs, ts)
    ensures Collected(PlaceLine, CollectTriple(sigs, t), ts + {t})
  {
    var x, y := "S " + Line(t), "O " + Line(t);
    assert x == PlaceLine(Place(true, Blank(t))) && y == PlaceLine(Place(false, Blank(t))) by {
      BlankLine(t);
    }
    CollectOne(PlaceLine, sigs, ts, t, x, y);
  }

  method CollectSignatures(triples: seq<DerivedTriple>) returns (sigs: map<Text, set<Text>>)
    ensures Collected(PlaceLine, sigs, Elements(triples))
  {
    sigs := map[];
    for i := 0 to |triples|
      invariant Collected(PlaceLine, sigs, Elements(triples[..i]))
    {
      CollectTripleCollects(sigs, Elements(triples[..i]), triples[i]);
      assert triples[..i + 1] == triples[..i] + [triples[i]];
      assert Elements(triples[..i + 1]) == Elements(triples[..i]) + {triples[i]};
      sigs := CollectTriple(sigs, triples[i]);
    }
    assert triples[..|triples|] == triples;
  }

  function ConvWith(names: map<Text, Text>, t: RdfTerm): Term
    requires t.Null? ==> t.id in names
  {
    match t
    case Iri(i) => NamedNode(i)
    case Literal(l, d) => NewTypedLiteral(l, d)
    case LangString(l, g) => Lang(l, g)
    case Null(id) => NamedNode(names[id])
  }

  lemma RowConverted(ts: set<DerivedTriple>, names: map<Text, Text>, t: DerivedTriple, graph: Text, sha: Digest)
    requires forall id :: Mentions(ts, id) ==> id in names && names[id] == NameOf(ts, id, graph, sha)
    requires t in ts && t.p.Iri?
    ensures (t.s.Null? ==> t.s.id in names) && (t.o.Null? ==> t.o.id in names)
    ensures Row(ConvWith(names, t.s), t.p.iri, ConvWith(names, t.o)) == ConvRow(ts, t, graph, sha)
  {
    assert t.s.Null? ==> Mentions(ts, t.s.id);
    assert t.o.Null? ==> Mentions(ts, t.o.id);
  }

  lemma PushElement<T>(s: seq<T>, x: T)
    ensures Elements(s + [x]) == Elements(s) + {x}
  {
  }

  method ConvertRows(triples: seq<DerivedTriple>, names: map<Text, Text>, ghost graph: Text, ghost sha: Digest)
    returns (out: seq<Row>)
    requires forall id :: Mentions(Elements(triples), id) ==>
               id in names && names[id] == NameOf(Elements(triples), id, graph, sha)
    ensures Elements(out) == Rows(Elements(triples), graph, sha)
  {
    ghost var ts := Elements(triples);
    out := [];
    for i := 0 to |triples|
      invariant Elements(out) == RowsOf(ts, triples[..i], graph, sha)
    {
      var tr := triples[i];
      assert tr in ts;
      assert triples[..i + 1] == triples[..i] + [tr];
      if tr.p.Iri? {
        RowConverted(ts, names, tr, graph, sha);
        var row := Row(ConvWith(names, tr.s), tr.p.iri, ConvWith(names, tr.o));
        RowsStep(ts, triples[..i], tr, graph, sha);
        PushElement(out, row);
        out := out + [row];
      } else {
        RowsStep(ts, triples[..i], tr, graph, sha);
      }
    }
    assert triples[..|triples|] == triples;
    assert RowsOf(ts, triples, graph, sha) == Rows(ts, graph, sha);
  }

  /** The rows of the triples listed so far, names taken from the whole set. */
  ghost function RowsOf(ts: set<DerivedTriple>, listed: seq<DerivedTriple>, graph: Text, sha: Digest): set<Row> {
    set t | t in listed && t.p.Iri? :: ConvRow(ts, t, graph, sha)
  }

  lemma RowsStep(ts: set<DerivedTriple>, listed: seq<DerivedTriple>, t: DerivedTriple, graph: Text, sha: Digest)
    ensures RowsOf(ts, listed + [t], graph, sha)
         == RowsOf(ts, listed, graph, sha) + if t.p.Iri? then {ConvRow(ts, t, graph, sha)} else {}
  {
  }

  method CanonicalizeNulls(triples: seq<DerivedTriple>, graph: Text, sha: Digest) returns (out: seq<Row>)
    ensures IsCanonical(out, Elements(triples), graph, sha)
  {
    var sigs := CollectSignatures(triples);
    var names := map id | id in sigs :: NullName(graph, sigs[id], sha);
    out := ConvertRows(triples, names, graph, sha);
    RowOrder();
    SortSorted(RowLe, out);
    SortElements(RowLe, out);
    out := Sort(RowLe, out);
    DedupSorted(RowLe, out);
    DedupElements(out);
    out := Dedup(out);
  }

  // ----- invariance ------------------------------------------------------------------

  function RenameTerm(rho: Text -> Text, t: RdfTerm): RdfTerm {
    match t
    case Null(id) => Null(rho(id))
    case Iri(_) => t
    case Literal(_, _) => t
    case LangString(_, _) => t
  }

  function RenameTriple(rho: Text -> Text, t: DerivedTriple): DerivedTriple {
    DerivedTriple(RenameTerm(rho, t.s), RenameTerm(rho, t.p), RenameTerm(rho, t.o))
  }

  ghost function Renamed(rho: Text -> Text, ts: set<DerivedTriple>): set<DerivedTriple> {
    set t | t in ts :: RenameTriple(rho, t)
  }

  ghost predicate InjectiveOn(rho: Text -> Text, ts: set<DerivedTriple>) {
    forall a, b :: Mentions(ts, a) && Mentions(ts, b) && rho(a) == rho(b) ==> a == b
  }

  lemma RenamedPlace(rho: Text -> Text, ts: set<DerivedTriple>, id: Text, x: Place)
    requires x in Neighbourhood(ts, id)
    ensures x in Neighbourhood(Renamed(rho, ts), rho(id))
  {
    var t :| t in ts && x == Place(x.subject, Blank(t)) && (if x.subject then t.s else t.o) == Null(id);
    var t' := RenameTriple(rho, t);
    assert t' in Renamed(rho, ts) && x == Place(x.subject, Blank(t'));
    assert (if x.subject then t'.s else t'.o) == Null(rho(id));
  }

  lemma PlaceRenamedBack(rho: Text -> Text, ts: set<DerivedTriple>, id: Text, x: Place)
    requires InjectiveOn(rho, ts) && Mentions(ts, id) && x in Neighbourhood(Renamed(rho, ts), rho(id))
    ensures x in Neighbourhood(ts, id)
  {
    var t' :| t' in Renamed(rho, ts) && x == Place(x.subject, Blank(t')) &&
        (if x.subject then t'.s else t'.o) == Null(rho(id));
    var t :| t in ts && t' == RenameTriple(rho, t);
    assert t.s.Null? ==> Mentions(ts, t.s.id);
    assert t.o.Null? ==> Mentions(ts, t.o.id);
    assert x == Place(x.subject, Blank(t)) && (if x.subject then t.s else t.o) == Null(id);
  }

  lemma NeighbourhoodRenamed(rho: Text -> Text, ts: set<DerivedTriple>, id: Text)
    requires InjectiveOn(rho, ts) && Mentions(ts, id)
    ensures Neighbourhood(Renamed(rho, ts), rho(id)) == Neighbourhood(ts, id)
  {
    forall x
      ensures x in Neighbourhood(Renamed(rho, ts), rho(id)) <==> x in Neighbourhood(ts, id)
    {
      if x in Neighbourhood(Renamed(rho, ts), rho(id)) { PlaceRenamedBack(rho, ts, id, x); }
      if x in Neighbourhood(ts, id) { RenamedPlace(rho, ts, id, x); }
    }
  }

  lemma RowRenamed(rho: Text -> Text, ts: set<DerivedTriple>, t: DerivedTriple, graph: Text, sha: Digest)
    requires InjectiveOn(rho, ts) && t in ts && t.p.Iri?
    ensures RenameTriple(rho, t) in Renamed(rho, ts)
    ensures ConvRow(Renamed(rho, ts), RenameTriple(rho, t), graph, sha) == ConvRow(ts, t, graph, sha)
  {
    if t.s.Null? {
      assert Mentions(ts, t.s.id);
      NeighbourhoodRenamed(rho, ts, t.s.id);
    }
    if t.o.Null? {
      assert Mentions(ts, t.o.id);
      NeighbourhoodRenamed(rho, ts, t.o.id);
    }
  }

  lemma RowsRenamed(rho: Text -> Text, ts: set<DerivedTriple>, graph: Text, sha: Digest)
    requires InjectiveOn(rho, ts)
    ensures Rows(Renamed(rho, ts), graph, sha) == Rows(ts, graph, sha)
  {
    var ts' := Renamed(rho, ts);
    forall r | r in Rows(ts', graph, sha)
      ensures r in Rows(ts, graph, sha)
    {
      var t' :| t' in ts' && t'.p.Iri? && r == ConvRow(ts', t', graph, sha);
      var t :| t in ts && t' == RenameTriple(rho, t);
      RowRenamed(rho, ts, t, graph, sha);
      assert t.p.Iri? && r == ConvRow(ts, t, graph, sha);
    }
    forall r | r in Rows(ts, graph, sha)
      ensures r in Rows(ts', graph, sha)
    {
      var t :| t in ts && t.p.Iri? && r == ConvRow(ts, t, graph, sha);
      RowRenamed(rho, ts, t, graph, sha);
      assert RenameTriple(rho, t) in ts' && RenameTriple(rho, t).p.Iri?;
    }
  }

  /** Relabelling the nulls injectively, permuting the rows and repeating rows leave the output
      unchanged, byte for byte, whatever the hash function. */
  lemma CanonicalInvariant(triples: seq<DerivedTriple>, triples': seq<DerivedTriple>, rho: Text -> Text,
                           graph: Text, sha: Digest, out: seq<Row>, out': seq<Row>)
    requires InjectiveOn(rho, Elements(triples))
    requires Elements(triples') == Renamed(rho, Elements(triples))
    requires IsCanonical(out, Elements(triples), graph, sha)
    requires IsCanonical(out', Elements(triples'), graph, sha)
    ensures out == out'
  {
    RowsRenamed(rho, Elements(triples), graph, sha);
    RowOrder();
    SortedSetUnique(RowLe, out, out');
  }

  // ----- which nulls are merged ------------------------------------------------------

  predicate Without(s: Text, cs: Text) {
    forall c :: c in cs ==> c !in s
  }

  predicate ValidTerm(t: RdfTerm) {
    match t
    case Iri(i) => Without(i, " <>")
    case Literal(_, d) => Without(d, " <>")
    case LangString(_, g) => Without(g, " @>")
    case Null(_) => true
  }

  /** RDF triples: valid IRIs and language tags, and IRIs as predicates. */
  ghost predicate ValidTriples(ts: set<DerivedTriple>) {
    forall t :: t in ts ==> ValidTerm(t.s) && ValidTerm(t.o) && t.p.Iri? && ValidTerm(t.p)
  }

  lemma KeyInjective(a: RdfTerm, b: RdfTerm)
    requires ValidTerm(a) && ValidTerm(b)
    requires Key(a) == Key(b)
    ensures a == b || (a.Null? && b.Null?)
  {
    var k := Key(a);
    KeyShape(a);
    KeyShape(b);
    if a.Iri? {
      assert k[1..|k| - 1] == a.iri && k[1..|k| - 1] == b.iri;
    } else if a.Literal? {
      TypedKeyInjective(a.lex, a.dt, b.lex, b.dt);
    } else if a.LangString? {
      LangKeyInjective(a.lex, a.lang, b.lex, b.lang);
    }
  }

  lemma TypedKeyInjective(lex: Text, dt: Text, lex': Text, dt': Text)
    requires '<' !in dt && '<' !in dt'
    requires Key(Literal(lex, dt)) == Key(Literal(lex', dt'))
    ensures lex == lex' && dt == dt'
  {
    var k := Key(Literal(lex, dt));
    var x, y := "\"" + lex + "\"^^", "\"" + lex' + "\"^^";
    assert k[..|k| - 1] == x + ['<'] + dt && k[..|k| - 1] == y + ['<'] + dt';
    RSplitOnceJoin(x, '<', dt);
    RSplitOnceJoin(y, '<', dt');
    assert x[1..|x| - 3] == lex && y[1..|y| - 3] == lex';
  }

  lemma LangKeyInjective(lex: Text, lang: Text, lex': Text, lang': Text)
    requires '@' !in lang && '@' !in lang'
    requires Key(LangString(lex, lang)) == Key(LangString(lex', lang'))
    ensures lex == lex' && lang == lang'
  {
    var k := Key(LangString(lex, lang));
    var x, y := "\"" + lex + "\"", "\"" + lex' + "\"";
    assert k == x + ['@'] + lang && k == y + ['@'] + lang';
    RSplitOnceJoin(x, '@', lang);
    RSplitOnceJoin(y, '@', lang');
    assert x[1..|x| - 1] == lex && y[1..|y| - 1] == lex';
  }

  lemma KeyShape(t: RdfTerm)
    requires ValidTerm(t)
    ensures Key(t) != []
    ensures t.Null? ==> Key(t)[0] == '_'
    ensures t.Iri? ==> Key(t)[0] == '<'
    ensures t.Literal? ==> Key(t)[0] == '"' && Key(t)[|Key(t)| - 1] == '>'
    ensures t.LangString? ==> Key(t)[0] == '"' && Key(t)[|Key(t)| - 1] != '>'
  {
    if t.LangString? {
      var k := Key(t);
      assert k == "\"" + t.lex + "\"@" + t.lang;
      assert t.lang != [] ==> k[|k| - 1] == t.lang[|t.lang| - 1];
      assert '>' in " @>";
    }
  }

  lemma CutFront(p: Text, o: Text, p': Text, o': Text)
    requires ' ' !in p && ' ' !in p' && "_" + " " + p + " " + o == "_" + " " + p' + " " + o'
    ensures p == p' && o == o'
  {
    var l := "_" + " " + p + " " + o;
    assert l[2..] == p + [' '] + o && l[2..] == p' + [' '] + o';
    SplitOnceJoin(p, ' ', o);
    SplitOnceJoin(p', ' ', o');
  }

  lemma CutBack(s: Text, p: Text, s': Text, p': Text)
    requires ' ' !in p && ' ' !in p' && s + " " + p + " " + "_" == s' + " " + p' + " " + "_"
    ensures s == s' && p == p'
  {
    var l := s + " " + p + " " + "_";
    assert l[..|l| - 2] == s + [' '] + p && l[..|l| - 2] == s' + [' '] + p';
    RSplitOnceJoin(s, ' ', p);
    RSplitOnceJoin(s', ' ', p');
  }

  lemma SubjectLineInjective(t: DerivedTriple, u: DerivedTriple)
    requires t.s.Null? && u.s.Null? && ValidTerm(t.o) && ValidTerm(t.p) && ValidTerm(u.o) && ValidTerm(u.p)
    requires t.p.Iri? && u.p.Iri? && Line(t) == Line(u)
    ensures Blank(t) == Blank(u)
  {
    IriKeyPlain(t.p);
    IriKeyPlain(u.p);
    CutFront(Key(t.p), Key(t.o), Key(u.p), Key(u.o));
    KeyInjective(t.o, u.o);
    KeyInjective(t.p, u.p);
  }

  lemma ObjectLineInjective(t: DerivedTriple, u: DerivedTriple)
    requires t.o.Null? && u.o.Null? && ValidTerm(t.s) && ValidTerm(t.p) && ValidTerm(u.s) && ValidTerm(u.p)
    requires t.p.Iri? && u.p.Iri? && Line(t) == Line(u)
    ensures Blank(t) == Blank(u)
  {
    IriKeyPlain(t.p);
    IriKeyPlain(u.p);
    CutBack(Key(t.s), Key(t.p), Key(u.s), Key(u.p));
    KeyInjective(t.s, u.s);
    KeyInjective(t.p, u.p);
  }

  lemma IriKeyPlain(t: RdfTerm)
    requires t.Iri? && ValidTerm(t)
    ensures ' ' !in Key(t)
  {
  }

  /** The signature line at a place determines the blanked triple. */
  lemma LineInjective(t: DerivedTriple, u: DerivedTriple, subject: bool)
    requires ValidTerm(t.s) && ValidTerm(t.o) && t.p.Iri? && ValidTerm(t.p)
    requires ValidTerm(u.s) && ValidTerm(u.o) && u.p.Iri? && ValidTerm(u.p)
    requires if subject then t.s.Null? && u.s.Null? else t.o.Null? && u.o.Null?
    requires Line(t) == Line(u)
    ensures Blank(t) == Blank(u)
  {
    if subject { SubjectLineInjective(t, u); } else { ObjectLineInjective(t, u); }
  }

  lemma PlaceLineInjective(ts: set<DerivedTriple>, a: Text, b: Text, x: Place, y: Place)
    requires ValidTriples(ts) && x in Neighbourhood(ts, a) && y in Neighbourhood(ts, b)
    requires PlaceLine(x) == PlaceLine(y)
    ensures x == y
  {
    var l := PlaceLine(x);
    assert l[0] == if x.subject then 'S' else 'O';
    assert l[0] == if y.subject then 'S' else 'O';
    assert l[2..] == Line(x.blank) && l[2..] == Line(y.blank);
    LineInjective(x.blank, y.blank, x.subject);
  }

  lemma NeighbourhoodFromSignature(ts: set<DerivedTriple>, a: Text, b: Text)
    requires ValidTriples(ts)
    requires Signature(ts, a) <= Signature(ts, b)
    ensures Neighbourhood(ts, a) <= Neighbourhood(ts, b)
  {
    forall x | x in Neighbourhood(ts, a)
      ensures x in Neighbourhood(ts, b)
    {
      assert PlaceLine(x) in Signature(ts, b);
      var y :| y in Neighbourhood(ts, b) && PlaceLine(y) == PlaceLine(x);
      PlaceLineInjective(ts, a, b, x, y);
    }
  }

  /** The truncated hash does not collide on the signatures of these two nulls. */
  ghost predicate Separates(sha: Digest, ts: set<DerivedTriple>, a: Text, b: Text) {
    Short(sha(Frames(InOrder(Signature(ts, a))))) == Short(sha(Frames(InOrder(Signature(ts, b)))))
    ==> Signature(ts, a) == Signature(ts, b)
  }

  lemma NullNameInjective(graph: Text, s: set<Text>, t: set<Text>, sha: Digest)
    requires NullName(graph, s, sha) == NullName(graph, t, sha)
    ensures Short(sha(Frames(InOrder(s)))) == Short(sha(Frames(InOrder(t))))
  {
    var n := NullName(graph, s, sha);
    var prefix := graph + "/n/";
    assert n[|prefix|..] == Short(sha(Frames(InOrder(s))));
    assert n[|prefix|..] == Short(sha(Frames(InOrder(t))));
  }

  /** Two nulls get one name exactly when their blanked neighbourhoods are equal. */
  lemma SameNameIffSameNeighbourhood(ts: set<DerivedTriple>, a: Text, b: Text, graph: Text, sha: Digest)
    requires ValidTriples(ts) && Separates(sha, ts, a, b)
    ensures NameOf(ts, a, graph, sha) == NameOf(ts, b, graph, sha) <==> Neighbourhood(ts, a) == Neighbourhood(ts, b)
  {
    if NameOf(ts, a, graph, sha) == NameOf(ts, b, graph, sha) {
      NullNameInjective(graph, Signature(ts, a), Signature(ts, b), sha);
      NeighbourhoodFromSignature(ts, a, b);
      NeighbourhoodFromSignature(ts, b, a);
    }
  }

  function Swap(a: Text, b: Text): Text -> Text {
    (id: Text) => if id == a then b else if id == b then a else id
  }

  /** Exchanging the two labels maps every triple to a triple of the set, and so the set to itself. */
  ghost predicate Interchangeable(ts: set<DerivedTriple>, a: Text, b: Text) {
    forall t {:trigger RenameTriple(Swap(a, b), t)} :: t in ts ==> RenameTriple(Swap(a, b), t) in ts
  }

  lemma SwapTwice(a: Text, b: Text, t: DerivedTriple)
    ensures RenameTriple(Swap(a, b), RenameTriple(Swap(a, b), t)) == t
  {
  }

  lemma InterchangeableSelfImage(ts: set<DerivedTriple>, a: Text, b: Text)
    requires Interchangeable(ts, a, b)
    ensures Renamed(Swap(a, b), ts) == ts
  {
    var rho := Swap(a, b);
    forall t
      ensures t in ts <==> t in Renamed(rho, ts)
    {
      if t in ts {
        SwapTwice(a, b, t);
        assert RenameTriple(rho, t) in ts;
      }
      if t in Renamed(rho, ts) {
        var u :| u in ts && RenameTriple(rho, u) == t;
      }
    }
  }

  lemma SwapInjective(a: Text, b: Text, x: Text, y: Text)
    requires Swap(a, b)(x) == Swap(a, b)(y)
    ensures x == y
  {
  }

  lemma SwapNeighbourhood(ts: set<DerivedTriple>, a: Text, b: Text)
    requires Mentions(ts, a) && Interchangeable(ts, a, b)
    ensures Neighbourhood(ts, b) == Neighbourhood(ts, a)
  {
    var rho := Swap(a, b);
    forall x, y | Mentions(ts, x) && Mentions(ts, y) && rho(x) == rho(y)
      ensures x == y
    {
      SwapInjective(a, b, x, y);
    }
    InterchangeableSelfImage(ts, a, b);
    NeighbourhoodRenamed(rho, ts, a);
    assert rho(a) == b;
  }

  /** Interchangeable nulls always get one name, with no assumption on the triples or the hash. */
  lemma InterchangeableShareName(ts: set<DerivedTriple>, a: Text, b: Text, graph: Text, sha: Digest)
    requires Mentions(ts, a) && Interchangeable(ts, a, b)
    ensures NameOf(ts, a, graph, sha) == NameOf(ts, b, graph, sha)
  {
    SwapNeighbourhood(ts, a, b);
  }

  /** The triples with nulls at both ends, at least, stay in the set under the exchange. */
  ghost predicate PairsClosed(ts: set<DerivedTriple>, a: Text, b: Text) {
    forall t {:trigger RenameTriple(Swap(a, b), t)} :: t in ts && t.s.Null? && t.o.Null? ==>
        RenameTriple(Swap(a, b), t) in ts
  }

  lemma SwapStays(ts: set<DerivedTriple>, a: Text, b: Text, t: DerivedTriple)
    requires ValidTriples(ts) && t in ts && !(t.s.Null? && t.o.Null?)
    requires Neighbourhood(ts, a) == Neighbourhood(ts, b)
    ensures RenameTriple(Swap(a, b), t) in ts
  {
    var t' := RenameTriple(Swap(a, b), t);
    if t.s == Null(a) || t.s == Null(b) {
      var other := Swap(a, b)(t.s.id);
      assert Place(true, Blank(t)) in Neighbourhood(ts, t.s.id);
      assert Place(true, Blank(t)) in Neighbourhood(ts, other);
      var u :| u in ts && u.s == Null(other) && Blank(u) == Blank(t);
      assert u == t';
    } else if t.o == Null(a) || t.o == Null(b) {
      var other := Swap(a, b)(t.o.id);
      assert Place(false, Blank(t)) in Neighbourhood(ts, t.o.id);
      assert Place(false, Blank(t)) in Neighbourhood(ts, other);
      var u :| u in ts && u.o == Null(other) && Blank(u) == Blank(t);
      assert u == t';
    } else {
      assert t' == t;
    }
  }

  /** Two nulls are interchangeable exactly when they share a name and the triples between nulls are
      closed under the exchange: that is all that sharing a name leaves open. */
  lemma InterchangeableExactly(ts: set<DerivedTriple>, a: Text, b: Text, graph: Text, sha: Digest)
    requires ValidTriples(ts) && Separates(sha, ts, a, b)
    requires Mentions(ts, a) && Mentions(ts, b)
    ensures Interchangeable(ts, a, b)
       <==> NameOf(ts, a, graph, sha) == NameOf(ts, b, graph, sha) && PairsClosed(ts, a, b)
  {
    if NameOf(ts, a, graph, sha) == NameOf(ts, b, graph, sha) && PairsClosed(ts, a, b) {
      SameNameIffSameNeighbourhood(ts, a, b, graph, sha);
      forall t | t in ts
        ensures RenameTriple(Swap(a, b), t) in ts
      {
        if !(t.s.Null? && t.o.Null?) {
          SwapStays(ts, a, b, t);
        }
      }
    }
    if Interchangeable(ts, a, b) {
      InterchangeableShareName(ts, a, b, graph, sha);
    }
  }

  ghost predicate NoNullPairs(ts: set<DerivedTriple>) {
    forall t :: t in ts ==> !(t.s.Null? && t.o.Null?)
  }

  /** When no triple has nulls at both ends, merged nulls are truly interchangeable, and nulls
      that are not interchangeable stay apart. */
  lemma SameNameIffInterchangeable(ts: set<DerivedTriple>, a: Text, b: Text, graph: Text, sha: Digest)
    requires ValidTriples(ts) && NoNullPairs(ts) && Separates(sha, ts, a, b)
    requires Mentions(ts, a) && Mentions(ts, b)
    ensures NameOf(ts, a, graph, sha) == NameOf(ts, b, graph, sha) <==> Interchangeable(ts, a, b)
  {
    InterchangeableExactly(ts, a, b, graph, sha);
  }

  /** Two null-to-null rows and a further triple on the second object. */
  ghost predicate TwoPairs(ts: set<DerivedTriple>, ab: DerivedTriple, cd: DerivedTriple, dx: DerivedTriple,
                           a: Text, b: Text, c: Text, d: Text) {
    && ts == {ab, cd, dx} && a != b && a != c && a != d && c != b && c != d && b != d
    && ab.s == Null(a) && ab.o == Null(b) && cd.s == Null(c) && cd.o == Null(d)
    && dx.s == Null(d) && dx.o.Iri? && ab.p == cd.p && ab.p.Iri? && dx.p.Iri?
  }

  lemma TwoPairsMerged(ts: set<DerivedTriple>, ab: DerivedTriple, cd: DerivedTriple, dx: DerivedTriple,
                       a: Text, b: Text, c: Text, d: Text, graph: Text, sha: Digest)
    requires TwoPairs(ts, ab, cd, dx, a, b, c, d)
    ensures NameOf(ts, a, graph, sha) == NameOf(ts, c, graph, sha)
  {
    assert Neighbourhood(ts, a) == {Place(true, Blank(ab))};
    assert Neighbourhood(ts, c) == {Place(true, Blank(cd))};
  }

  lemma TwoPairsDistinct(ts: set<DerivedTriple>, ab: DerivedTriple, cd: DerivedTriple, dx: DerivedTriple,
                         a: Text, b: Text, c: Text, d: Text)
    requires TwoPairs(ts, ab, cd, dx, a, b, c, d)
    ensures !PairsClosed(ts, a, c) && !Interchangeable(ts, a, c)
  {
    var swapped := RenameTriple(Swap(a, c), ab);
    assert swapped == DerivedTriple(Null(c), ab.p, Null(b));
    assert swapped !in ts;
  }

  /** Such a set. */
  lemma TwoPairsExample()
    ensures var ab := DerivedTriple(Null("a"), Iri("p"), Null("b"));
            var cd := DerivedTriple(Null("c"), Iri("p"), Null("d"));
            var dx := DerivedTriple(Null("d"), Iri("q"), Iri("x"));
            && TwoPairs({ab, cd, dx}, ab, cd, dx, "a", "b", "c", "d")
            && ValidTerm(ab.p) && ValidTerm(dx.p) && ValidTerm(dx.o)
  {
    assert "a"[0] == 'a' && "b"[0] == 'b' && "c"[0] == 'c' && "d"[0] == 'd';
  }

  /** With a triple between two nulls the converse fails: `a` and `c` point at different nulls, of
      which only one has a further triple, yet they are merged under every hash function.  So it is for
      all four labels and all valid IRIs. */
  lemma MergedButDistinguishable(ts: set<DerivedTriple>, ab: DerivedTriple, cd: DerivedTriple, dx: DerivedTriple,
                                 a: Text, b: Text, c: Text, d: Text, graph: Text, sha: Digest)
    requires TwoPairs(ts, ab, cd, dx, a, b, c, d) && ValidTerm(ab.p) && ValidTerm(dx.p) && ValidTerm(dx.o)
    ensures ValidTriples(ts) && NameOf(ts, a, graph, sha) == NameOf(ts, c, graph, sha)
    ensures !PairsClosed(ts, a, c) && !Interchangeable(ts, a, c)
  {
    TwoPairsMerged(ts, ab, cd, dx, a, b, c, d, graph, sha);
    TwoPairsDistinct(ts, ab, cd, dx, a, b, c, d);
  }

  // ----- what the output says --------------------------------------------------------------------------

  /** The term a reader of the output sees: a plain literal is a string. */
  function ReadTerm(t: Term): RdfTerm {
    match t
    case NamedNode(i) => Iri(i)
    case BlankNode(id) => Null(id)
    case Simple(l) => Literal(l, "http://www.w3.org/2001/XMLSchema#string")
    case Typed(l, d) => Literal(l, d)
    case Lang(l, g) => LangString(l, g)
  }

  function ReadRow(r: Row): DerivedTriple {
    DerivedTriple(ReadTerm(r.s), Iri(r.p), ReadTerm(r.o))
  }

  /** A term with a null replaced by the IRI of its name. */
  ghost function Named(ts: set<DerivedTriple>, t: RdfTerm, graph: Text, sha: Digest): RdfTerm {
    if t.Null? then Iri(NameOf(ts, t.id, graph, sha)) else t
  }

  ghost function NamedTriple(ts: set<DerivedTriple>, t: DerivedTriple, graph: Text, sha: Digest): DerivedTriple {
    DerivedTriple(Named(ts, t.s, graph, sha), t.p, Named(ts, t.o, graph, sha))
  }

  predicate PlainTerm(t: Term) {
    t.Typed? ==> t.dt != "http://www.w3.org/2001/XMLSchema#string"
  }

  lemma ConvRead(ts: set<DerivedTriple>, t: RdfTerm, graph: Text, sha: Digest)
    ensures ReadTerm(Conv(ts, t, graph, sha)) == Named(ts, t, graph, sha)
    ensures PlainTerm(Conv(ts, t, graph, sha))
  {
  }

  lemma RowRead(ts: set<DerivedTriple>, t: DerivedTriple, graph: Text, sha: Digest)
    requires t.p.Iri?
    ensures ReadRow(ConvRow(ts, t, graph, sha)) == NamedTriple(ts, t, graph, sha)
    ensures PlainTerm(ConvRow(ts, t, graph, sha).s) && PlainTerm(ConvRow(ts, t, graph, sha).o)
  {
    ConvRead(ts, t.s, graph, sha);
    ConvRead(ts, t.o, graph, sha);
  }

  ghost predicate Source(ts: set<DerivedTriple>, t: DerivedTriple, r: Row, graph: Text, sha: Digest) {
    t in ts && t.p.Iri? && r == ConvRow(ts, t, graph, sha)
  }

  lemma RowHasSource(out: seq<Row>, ts: set<DerivedTriple>, graph: Text, sha: Digest, r: Row)
    requires Elements(out) == Rows(ts, graph, sha)
    ensures r in out <==> exists t :: Source(ts, t, r, graph, sha)
  {
    assert r in out <==> r in Rows(ts, graph, sha) by { assert r in out <==> r in Elements(out); }
    if r in Rows(ts, graph, sha) {
      var t :| t in ts && t.p.Iri? && r == ConvRow(ts, t, graph, sha);
      assert Source(ts, t, r, graph, sha);
    }
  }

  /** The output rows, read back, are exactly the triples with an IRI predicate, every null replaced by the IRI
      of its name. */
  lemma OutputRead(out: seq<Row>, ts: set<DerivedTriple>, graph: Text, sha: Digest, x: DerivedTriple)
    requires IsCanonical(out, ts, graph, sha)
    ensures (exists r :: r in out && ReadRow(r) == x)
       <==> exists t :: t in ts && t.p.Iri? && NamedTriple(ts, t, graph, sha) == x
  {
    if r :| r in out && ReadRow(r) == x {
      RowHasSource(out, ts, graph, sha, r);
      var t :| Source(ts, t, r, graph, sha);
      RowRead(ts, t, graph, sha);
      assert t in ts && t.p.Iri? && NamedTriple(ts, t, graph, sha) == x;
    }
    if t :| t in ts && t.p.Iri? && NamedTriple(ts, t, graph, sha) == x {
      var r := ConvRow(ts, t, graph, sha);
      RowRead(ts, t, graph, sha);
      assert Source(ts, t, r, graph, sha);
      RowHasSource(out, ts, graph, sha, r);
    }
  }

  /** Strings are written as plain literals, and the rows are in the order of their texts. */
  lemma OutputPlainAndOrdered(out: seq<Row>, ts: set<DerivedTriple>, graph: Text, sha: Digest)
    requires IsCanonical(out, ts, graph, sha)
    ensures forall r :: r in out ==> PlainTerm(r.s) && PlainTerm(r.o)
    ensures forall i, j :: 0 <= i < j < |out| ==> RowBefore(out[i], out[j])
  {
    forall r | r in out
      ensures PlainTerm(r.s) && PlainTerm(r.o)
    {
      RowHasSource(out, ts, graph, sha, r);
      var t :| Source(ts, t, r, graph, sha);
      RowRead(ts, t, graph, sha);
    }
    forall i, j | 0 <= i < j < |out|
      ensures RowBefore(out[i], out[j])
    {
      assert RowLe(out[i], out[j]) && out[i] != out[j];
      DistinctBefore(out[i], out[j]);
    }
  }

  lemma DistinctBefore(a: Row, b: Row)
    requires RowLe(a, b) && a != b
    ensures RowBefore(a, b)
  {
    if Less(Render(a.s), Render(b.s)) {
      LessAsymmetric(Render(a.s), Render(b.s));
    } else if Less(a.p, b.p) {
      LessAsymmetric(a.p, b.p);
    } else if Render(a.o) == Render(b.o) {
      RenderInjective(a.s, b.s);
      RenderInjective(a.o, b.o);
    }
  }

  /** By rendered subject, then predicate, then rendered object. */
  predicate RowBefore(a: Row, b: Row) {
    if Render(a.s) != Render(b.s) then Less(Render(a.s), Render(b.s))
    else if a.p != b.p then Less(a.p, b.p)
    else Less(Render(a.o), Render(b.o))
  }

  /** Without nulls the output is the input: the triples with an IRI predicate, unchanged. */
  lemma OutputWithoutNulls(out: seq<Row>, ts: set<DerivedTriple>, graph: Text, sha: Digest, x: DerivedTriple)
    requires IsCanonical(out, ts, graph, sha)
    requires forall t :: t in ts ==> !t.s.Null? && !t.o.Null?
    ensures (exists r :: r in out && ReadRow(r) == x) <==> x in ts && x.p.Iri?
  {
    OutputRead(out, ts, graph, sha, x);
    forall t | t in ts
      ensures NamedTriple(ts, t, graph, sha) == t
    {
    }
  }

  /** Characters that are written as they are. */
  predicate Unescaped(s: Text) {
    forall i :: 0 <= i < |s| ==> EscapeChar(s[i]) == [s[i]]
  }

  lemma {:induction false} EscapeUnescaped(s: Text)
    requires Unescaped(s)
    ensures Escape(s) == s
  {
    if s != [] {
      EscapeUnescaped(s[1..]);
      assert s == [s[0]] + s[1..];
    }
  }

  /** Signature lines write terms as N-Triples does, but for escapes in literals; a null is an underscore. */
  lemma KeyIsNTriples(t: RdfTerm)
    ensures match t
            case Iri(i) => Key(t) == Render(NamedNode(i))
            case Literal(l, d) => Unescaped(l) ==> Key(t) == Render(Typed(l, d))
            case LangString(l, g) => Unescaped(l) ==> Key(t) == Render(Lang(l, g))
            case Null(_) => Key(t) == "_"
  {
    match t
    case Literal(l, d) => if Unescaped(l) { EscapeUnescaped(l); }
    case LangString(l, g) => if Unescaped(l) { EscapeUnescaped(l); }
    case _ =>
  }

  /** The line of a triple at a position: `S` or `O`, and the triple as N-Triples would write it without the
      full stop. */
  function PositionLine(subject: bool, t: DerivedTriple): Text {
    (if subject then "S " else "O ") + (Key(t.s) + " " + Key(t.p) + " " + Key(t.o))
  }

  ghost predicate Contributes(t: DerivedTriple, id: Text, l: Text) {
    (t.s == Null(id) && l == PositionLine(true, t)) || (t.o == Null(id) && l == PositionLine(false, t))
  }

  lemma PositionLineIs(subject: bool, t: DerivedTriple)
    ensures PositionLine(subject, t) == PlaceLine(Place(subject, Blank(t)))
  {
    BlankLine(t);
  }

  /** The signature of a null has one line for each place it occurs at. */
  lemma SignatureLines(ts: set<DerivedTriple>, id: Text, l: Text)
    ensures l in Signature(ts, id) <==> exists t :: t in ts && Contributes(t, id, l)
  {
    if l in Signature(ts, id) {
      var x :| x in Neighbourhood(ts, id) && l == PlaceLine(x);
      var t :| t in ts && x == Place(x.subject, Blank(t)) && (if x.subject then t.s else t.o) == Null(id);
      PositionLineIs(x.subject, t);
      assert Contributes(t, id, l);
    }
    if t :| t in ts && Contributes(t, id, l) {
      PositionLineIs(true, t);
      PositionLineIs(false, t);
      var x := Place(t.s == Null(id) && l == PositionLine(true, t), Blank(t));
      assert x in Neighbourhood(ts, id) && l == PlaceLine(x);
    }
  }

  /** A null's name is the graph, `/n/`, and sixteen digits of the hash of its framed, sorted signature. */
  lemma NameRead(ts: set<DerivedTriple>, id: Text, graph: Text, sha: Digest) returns (stream: Text, lines: seq<Text>)
    requires FitU64(InOrder(Signature(ts, id))) && |sha(Frames(InOrder(Signature(ts, id))))| >= 16
    ensures ReadFrames(stream) == Some(lines) && Elements(lines) == Signature(ts, id) && Increasing(Less, lines)
    ensures |sha(stream)| >= 16 && NameOf(ts, id, graph, sha) == graph + "/n/" + sha(stream)[..16]
  {
    lines := InOrder(Signature(ts, id));
    stream := Frames(lines);
    FramesRead(lines);
    InOrderIncreasing(Signature(ts, id));
  }

  lemma InOrderIncreasing(s: set<Text>)
    ensures Increasing(Less, InOrder(s))
  {
    InOrderSorted(s);
    var r := InOrder(s);
    forall i, j | 0 <= i < j < |r|
      ensures Less(r[i], r[j])
    {
      assert LessEq(r[i], r[j]) && r[i] != r[j];
    }
  }
}
