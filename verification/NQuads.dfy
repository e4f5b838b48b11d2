/** Fragments as canonical N-Quads text, and the two cheap scans of that text which reason.rs
    performs instead of parsing it: the objects of a predicate, and the graph IRI. */
module NQuads {
  import opened Texts
  import opened Sorting
  import opened NTriples

  datatype Triple = Triple(s: Term, p: Text, o: Term)

  // ----- well-formed RDF ------------------------------------------------------------

  predicate ValidIri(i: Text) {
    forall c :: c in i ==> c as int > 32 && c != '<' && c != '>'
  }

  lemma AppendValid(a: Text, b: Text)
    requires ValidIri(a) && ValidIri(b)
    ensures ValidIri(a + b)
  {
  }

  predicate NoBlanks(s: Text) {
    forall c :: c in s ==> c as int > 32
  }

  predicate ValidTerm(t: Term) {
    match t
    case NamedNode(i) => ValidIri(i)
    case BlankNode(id) => NoBlanks(id)
    case Simple(_) => true
    case Typed(_, dt) => ValidIri(dt)
    case Lang(_, lang) => NoBlanks(lang)
  }

  predicate ValidTriple(t: Triple) {
    (t.s.NamedNode? || t.s.BlankNode?) && ValidTerm(t.s) && ValidIri(t.p) && ValidTerm(t.o)
  }

  // ----- fragments --------------------------------------------------------------------

  function LineOf(t: Triple): Text {
    Render(t.s) + ([' '] + (RenderIri(t.p) + ([' '] + Render(t.o))))
  }

  function QuadLine(g: Text, line: Text): Text {
    line + ([' '] + (RenderIri(g) + " ."))
  }

  function QuadOf(g: Text): Text -> Text {
    (l: Text) => QuadLine(g, l)
  }

  function NquadsText(lines: set<Text>, g: Text): Text {
    Unlines(Map(QuadOf(g), InOrder(lines)))
  }

  /** Writing one more line, piece by piece. */
  lemma LineWritten(out: Text, ordered: seq<Text>, i: nat, g: Text)
    requires i < |ordered|
    ensures out + ordered[i] + [' '] + RenderIri(g) + " .\n" + Unlines(Map(QuadOf(g), ordered[i + 1..]))
         == out + Unlines(Map(QuadOf(g), ordered[i..]))
  {
    var f := QuadOf(g);
    assert ordered[i..][1..] == ordered[i + 1..];
    assert Map(f, ordered[i..]) == [f(ordered[i])] + Map(f, ordered[i + 1..]);
    assert Map(f, ordered[i..])[1..] == Map(f, ordered[i + 1..]);
    assert ordered[i] + [' '] + RenderIri(g) + " .\n" == f(ordered[i]) + ['\n'];
  }

  /** A set of triples for one named graph, kept as their lines. */
  class Fragment {
    const graph: Text
    var lines: set<Text>

    constructor (graph: Text)
      ensures this.graph == graph && lines == {}
    {
      this.graph := graph;
      lines := {};
    }

    method Add(t: Triple)
      modifies this`lines
      ensures lines == old(lines) + {LineOf(t)}
    {
      lines := lines + {LineOf(t)};
    }

    method ToNquads() returns (out: Text)
      ensures out == NquadsText(lines, graph)
    {
      out := [];
      var ordered := InOrder(lines);
      for i := 0 to |ordered|
        invariant out + Unlines(Map(QuadOf(graph), ordered[i..])) == NquadsText(lines, graph)
      {
        LineWritten(out, ordered, i, graph);
        out := out + ordered[i];
        out := out + [' '];
        out := out + RenderIri(graph);
        out := out + " .\n";
      }
    }
  }

  // ----- the scans ----------------------------------------------------------------------

  predicate Angle(c: char) {
    c == '<' || c == '>'
  }

  function TrimStart(s: Text): Text {
    if s != [] && Angle(s[0]) then TrimStart(s[1..]) else s
  }

  function TrimEnd(s: Text): Text {
    if s != [] && Angle(s[|s| - 1]) then TrimEnd(s[..|s| - 1]) else s
  }

  /** `trim_matches(|c| c == '<' || c == '>')` */
  function Trim(s: Text): Text {
    TrimEnd(TrimStart(s))
  }

  function Token(s: Text): Text {
    s[..IndexOf(s, ' ')]
  }

  function AfterToken(s: Text): Option<Text> {
    var i := IndexOf(s, ' ');
    if i == |s| then None else Some(s[i + 1..])
  }

  function ObjectToken(s: Text): Option<Text> {
    var o := Token(s);
    if o != [] && o[0] == '<' then Some(Trim(o)) else None
  }

  /** The object of one line, if its predicate is `p` (already in angle brackets) and its third
      token starts like an IRI. */
  function ScanLine(line: Text, p: Text): Option<Text> {
    match AfterToken(line)
    case None => None
    case Some(rest) =>
      if Token(rest) != p then None
      else
        match AfterToken(rest)
        case None => None
        case Some(rest2) => ObjectToken(rest2)
  }

  ghost function Scanned(lines: seq<Text>, p: Text): set<Text> {
    set l | l in lines && ScanLine(l, p).Some? :: ScanLine(l, p).value
  }

  ghost function Objects(nquads: Text, predicateIri: Text): set<Text> {
    Scanned(Lines(nquads), RenderIri(predicateIri))
  }

  method ObjectsOf(nquads: Text, predicateIri: Text) returns (out: set<Text>)
    ensures out == Objects(nquads, predicateIri)
  {
    var p := RenderIri(predicateIri);
    out := {};
    var lines := Lines(nquads);
    for i := 0 to |lines|
      invariant out == Scanned(lines[..i], p)
    {
      assert lines[..i + 1] == lines[..i] + [lines[i]];
      var o := ScanLine(lines[i], p);
      if o.Some? {
        assert Scanned(lines[..i + 1], p) == Scanned(lines[..i], p) + {o.value};
        out := out + {o.value};
      } else {
        assert Scanned(lines[..i + 1], p) == Scanned(lines[..i], p);
      }
    }
    assert lines[..|lines|] == lines;
  }

  /** The last token but one of a line. */
  function LastButOne(line: Text): Option<Text> {
    match RSplitOnce(line, ' ')
    case None => None
    case Some((front, _)) => Some(front[AfterLast(front, ' ')..])
  }

  /** The graph IRI `read_input` takes from the first line; `None` for an empty fragment. */
  function GraphOf(nquads: Text): Option<Text> {
    var lines := Lines(nquads);
    if lines == [] then None
    else
      match LastButOne(lines[0])
      case None => None
      case Some(g) => Some(Trim(g))
  }

  // ----- the scans agree with the triples -------------------------------------------------

  lemma TrimIri(i: Text)
    requires ValidIri(i)
    ensures Trim(RenderIri(i)) == i
  {
    var s := RenderIri(i);
    assert s[0] == '<' && s[1..] == i + ">";
    if i == [] {
      assert s == "<>";
      assert TrimStart(s) == TrimStart(s[1..]) == TrimStart(s[1..][1..]);
    } else {
      assert (i + ">")[0] == i[0];
      assert i[0] in i && i[|i| - 1] in i;
      assert TrimStart(s) == TrimStart(i + ">") == i + ">";
      assert (i + ">")[..|i|] == i && (i + ">")[|i|] == '>';
      assert TrimEnd(i + ">") == TrimEnd(i) == i;
    }
  }

  lemma TokenOf(a: Text, rest: Text)
    requires ' ' !in a
    ensures Token(a + ([' '] + rest)) == a
    ensures AfterToken(a + ([' '] + rest)) == Some(rest)
  {
    var s := a + [' '] + rest;
    assert a + ([' '] + rest) == s;
    IndexOfJoin(a, ' ', rest);
    assert s[..|a|] == a && s[|a| + 1..] == rest;
  }

  lemma NodeHasNoSpace(t: Term)
    requires ValidTerm(t) && (t.NamedNode? || t.BlankNode?)
    ensures ' ' !in Render(t)
  {
  }

  lemma ScanParts(a: Text, b: Text, rest: Text, p: Text)
    requires ' ' !in a && ' ' !in b
    ensures ScanLine(a + ([' '] + (b + ([' '] + rest))), p) == if b == p then ObjectToken(rest) else None
  {
    TokenOf(a, b + ([' '] + rest));
    TokenOf(b, rest);
  }

  lemma ObjectTokenOf(t: Term, rest: Text)
    requires ValidTerm(t)
    ensures ObjectToken(Render(t) + ([' '] + rest)) == if t.NamedNode? then Some(t.iri) else None
  {
    var s := Render(t) + ([' '] + rest);
    RenderHead(t);
    assert s[0] == Render(t)[0];
    if t.NamedNode? {
      NodeHasNoSpace(t);
      TokenOf(Render(t), rest);
      TrimIri(t.iri);
    } else {
      var i := IndexOf(s, ' ');
      assert i > 0 ==> s[..i][0] == s[0];
    }
  }

  /** Whatever its literals contain, a line scans as the triple says. */
  lemma ScanAgrees(t: Triple, g: Text, p: Text)
    requires ValidTriple(t)
    ensures ScanLine(QuadLine(g, LineOf(t)), RenderIri(p))
         == if t.p == p && t.o.NamedNode? then Some(t.o.iri) else None
  {
    var tail := RenderIri(g) + " .";
    var rest := Render(t.o) + ([' '] + tail);
    assert QuadLine(g, LineOf(t)) == Render(t.s) + ([' '] + (RenderIri(t.p) + ([' '] + rest)));
    NodeHasNoSpace(t.s);
    NodeHasNoSpace(NamedNode(t.p));
    ScanParts(Render(t.s), RenderIri(t.p), rest, RenderIri(p));
    assert RenderIri(t.p)[1..|t.p| + 1] == t.p && RenderIri(p)[1..|p| + 1] == p;
    ObjectTokenOf(t.o, tail);
  }

  lemma {:induction false} EscapeNoNewline(s: Text)
    ensures '\n' !in Escape(s)
  {
    if s != [] {
      EscapeNoNewline(s[1..]);
      assert forall c :: c in EscapeChar(s[0]) ==> c as int >= 32;
    }
  }

  lemma RenderNoNewline(t: Term)
    requires ValidTerm(t)
    ensures '\n' !in Render(t)
  {
    if !t.NamedNode? && !t.BlankNode? {
      EscapeNoNewline(t.lex);
    }
  }

  lemma QuadLinePlain(t: Triple, g: Text)
    requires ValidTriple(t) && ValidIri(g)
    ensures PlainLine(QuadLine(g, LineOf(t)))
  {
    RenderNoNewline(t.s);
    RenderNoNewline(t.o);
    RenderNoNewline(NamedNode(t.p));
    RenderNoNewline(NamedNode(g));
    var l := QuadLine(g, LineOf(t));
    assert l == LineOf(t) + [' '] + RenderIri(g) + " .";
    assert l[|l| - 1] == '.';
  }

  ghost function LinesOf(ts: set<Triple>): set<Text> {
    set t | t in ts :: LineOf(t)
  }

  lemma MapElements<A, B>(f: A -> B, s: seq<A>)
    ensures Elements(Map(f, s)) == set x | x in Elements(s) :: f(x)
  {
    var m := Map(f, s);
    forall y | y in m
      ensures y in set x | x in Elements(s) :: f(x)
    {
      var i :| 0 <= i < |m| && m[i] == y;
      assert s[i] in Elements(s);
    }
    forall x | x in Elements(s)
      ensures f(x) in m
    {
      var i :| 0 <= i < |s| && s[i] == x;
      assert m[i] == f(x);
    }
  }

  ghost function Quads(ts: set<Triple>, g: Text): set<Text> {
    set t | t in ts :: QuadLine(g, LineOf(t))
  }

  lemma QuadImage(ts: set<Triple>, g: Text, ordered: seq<Text>)
    requires Elements(ordered) == LinesOf(ts)
    ensures Elements(Map(QuadOf(g), ordered)) == Quads(ts, g)
  {
    MapElements(QuadOf(g), ordered);
    forall t | t in ts
      ensures LineOf(t) in LinesOf(ts)
    {
    }
    forall x | x in LinesOf(ts)
      ensures QuadOf(g)(x) in Quads(ts, g)
    {
      var t :| t in ts && x == LineOf(t);
      assert QuadLine(g, LineOf(t)) in Quads(ts, g);
    }
  }

  lemma QuadsPlain(ts: set<Triple>, g: Text, q: Text)
    requires ValidIri(g) && (forall t :: t in ts ==> ValidTriple(t)) && q in Quads(ts, g)
    ensures PlainLine(q)
  {
    var t :| t in ts && q == QuadLine(g, LineOf(t));
    QuadLinePlain(t, g);
  }

  /** The lines of a fragment's text are exactly the quads of its triples. */
  lemma TextLines(ts: set<Triple>, g: Text)
    requires ValidIri(g) && forall t :: t in ts ==> ValidTriple(t)
    ensures Elements(Lines(NquadsText(LinesOf(ts), g))) == Quads(ts, g)
  {
    var quads := Map(QuadOf(g), InOrder(LinesOf(ts)));
    QuadImage(ts, g, InOrder(LinesOf(ts)));
    forall i | 0 <= i < |quads|
      ensures PlainLine(quads[i])
    {
      assert quads[i] in Elements(quads);
      QuadsPlain(ts, g, quads[i]);
    }
    LinesUnlines(quads);
  }

  /** The text scan finds exactly the IRI objects of the triples with the given predicate. */
  lemma ObjectsAgree(ts: set<Triple>, g: Text, p: Text)
    requires ValidIri(g) && forall t :: t in ts ==> ValidTriple(t)
    ensures Objects(NquadsText(LinesOf(ts), g), p) == set t | t in ts && t.p == p && t.o.NamedNode? :: t.o.iri
  {
    var lines := Lines(NquadsText(LinesOf(ts), g));
    TextLines(ts, g);
    forall t | t in ts
      ensures QuadLine(g, LineOf(t)) in lines
      ensures ScanLine(QuadLine(g, LineOf(t)), RenderIri(p))
           == if t.p == p && t.o.NamedNode? then Some(t.o.iri) else None
    {
      assert QuadLine(g, LineOf(t)) in Elements(lines);
      ScanAgrees(t, g, p);
    }
    forall o | o in Scanned(lines, RenderIri(p))
      ensures o in set t | t in ts && t.p == p && t.o.NamedNode? :: t.o.iri
    {
      var l :| l in lines && ScanLine(l, RenderIri(p)) == Some(o);
      assert l in Elements(lines);
      var t :| t in ts && l == QuadLine(g, LineOf(t));
    }
  }

  lemma QuadLineGraph(line: Text, g: Text)
    requires ValidIri(g)
    ensures LastButOne(QuadLine(g, line)) == Some(RenderIri(g))
  {
    var front := line + [' '] + RenderIri(g);
    assert QuadLine(g, line) == front + [' '] + ".";
    RSplitOnceJoin(front, ' ', ".");
    NodeHasNoSpace(NamedNode(g));
    AfterLastJoin(line, ' ', RenderIri(g));
    assert front[|line| + 1..] == RenderIri(g);
  }

  /** A fragment's graph IRI is recovered from its text, unless the fragment is empty. */
  lemma GraphRecovered(ts: set<Triple>, g: Text)
    requires ValidIri(g) && forall t :: t in ts ==> ValidTriple(t)
    ensures GraphOf(NquadsText(LinesOf(ts), g)) == if ts == {} then None else Some(g)
  {
    var lines := Lines(NquadsText(LinesOf(ts), g));
    TextLines(ts, g);
    assert lines != [] ==> lines[0] in Elements(lines);
    if ts != {} {
      var t0 :| t0 in ts;
      assert QuadLine(g, LineOf(t0)) in Elements(lines);
      assert lines[0] in Elements(lines);
      var t :| t in ts && lines[0] == QuadLine(g, LineOf(t));
      QuadLineGraph(LineOf(t), g);
      TrimIri(g);
    } else {
      assert Elements(lines) == {};
    }
  }

  // ----- the text determines the triples ------------------------------------------------------

  lemma LineOfInjective(t: Triple, u: Triple)
    requires ValidTriple(t) && ValidTriple(u) && LineOf(t) == LineOf(u)
    ensures t == u
  {
    LineOfRead(t);
    LineOfRead(u);
  }

  lemma QuadLineInjective(g: Text, a: Text, b: Text)
    requires QuadLine(g, a) == QuadLine(g, b)
    ensures a == b
  {
    var x := QuadLine(g, a);
    assert x[..|a|] == a && x[..|b|] == b;
  }

  lemma QuadsHas(ts: set<Triple>, g: Text, t: Triple)
    requires ValidTriple(t) && forall u :: u in ts ==> ValidTriple(u)
    ensures QuadLine(g, LineOf(t)) in Quads(ts, g) <==> t in ts
  {
    if QuadLine(g, LineOf(t)) in Quads(ts, g) {
      var u :| u in ts && QuadLine(g, LineOf(t)) == QuadLine(g, LineOf(u));
      QuadLineInjective(g, LineOf(t), LineOf(u));
      LineOfInjective(t, u);
    }
  }

  /** Two fragments of one graph have the same text exactly when they have the same triples. */
  lemma TextExactly(a: set<Triple>, b: set<Triple>, g: Text)
    requires ValidIri(g) && forall t :: t in a + b ==> ValidTriple(t)
    ensures NquadsText(LinesOf(a), g) == NquadsText(LinesOf(b), g) <==> a == b
  {
    if NquadsText(LinesOf(a), g) == NquadsText(LinesOf(b), g) {
      TextLines(a, g);
      TextLines(b, g);
      forall t | t in a + b
        ensures t in a <==> t in b
      {
        QuadsHas(a, g, t);
        QuadsHas(b, g, t);
      }
    }
  }

  // ----- reading the text back --------------------------------------------------------------------------

  /** Subject, predicate and object of a line without its graph: the first two end at a space. */
  function LineRead(l: Text): Option<Triple> {
    var i := IndexOf(l, ' ');
    if i == |l| then None
    else
      var rest := l[i + 1..];
      var j := IndexOf(rest, ' ');
      if j == |rest| then None
      else
        match (TermRead(l[..i]), Bracketed(rest[..j]), TermRead(rest[j + 1..]))
        case (Some(s), Some(p), Some(o)) => Some(Triple(s, p, o))
        case _ => None
  }

  /** A line of N-Quads: triple, graph and a full stop, each after a space. */
  function QuadRead(q: Text): Option<(Triple, Text)> {
    if |q| < 2 || q[|q| - 2..] != " ." then None
    else
      match RSplitOnce(q[..|q| - 2], ' ')
      case None => None
      case Some((line, g)) =>
        match (LineRead(line), Bracketed(g))
        case (Some(t), Some(graph)) => Some((t, graph))
        case _ => None
  }

  lemma LineOfRead(t: Triple)
    requires ValidTriple(t)
    ensures LineRead(LineOf(t)) == Some(t)
  {
    var l, rest := LineOf(t), RenderIri(t.p) + ([' '] + Render(t.o));
    NodeHasNoSpace(t.s);
    NodeHasNoSpace(NamedNode(t.p));
    TokenOf(Render(t.s), rest);
    TokenOf(RenderIri(t.p), Render(t.o));
    assert l[IndexOf(l, ' ') + 1..] == rest && rest[IndexOf(rest, ' ') + 1..] == Render(t.o);
    RenderRead(t.s);
    RenderRead(t.o);
    BracketsRead(t.p);
  }

  lemma QuadLineRead(t: Triple, g: Text)
    requires ValidTriple(t) && ValidIri(g)
    ensures QuadRead(QuadLine(g, LineOf(t))) == Some((t, g))
  {
    var q := QuadLine(g, LineOf(t));
    var front := LineOf(t) + [' '] + RenderIri(g);
    assert q == front + " .";
    assert q[..|q| - 2] == front && q[|q| - 2..] == " .";
    NodeHasNoSpace(NamedNode(g));
    RSplitOnceJoin(LineOf(t), ' ', RenderIri(g));
    LineOfRead(t);
    BracketsRead(g);
  }

  /** The text of a fragment, read line by line, is its triples, each in its graph. */
  lemma TextRead(ts: set<Triple>, g: Text, x: (Triple, Text))
    requires ValidIri(g) && forall t :: t in ts ==> ValidTriple(t)
    ensures (exists l :: l in Lines(NquadsText(LinesOf(ts), g)) && QuadRead(l) == Some(x)) <==> x.0 in ts && x.1 == g
    ensures forall l :: l in Lines(NquadsText(LinesOf(ts), g)) ==> QuadRead(l).Some?
  {
    var lines := Lines(NquadsText(LinesOf(ts), g));
    TextLines(ts, g);
    forall l | l in lines
      ensures QuadRead(l).Some? && QuadRead(l).value.0 in ts && QuadRead(l).value.1 == g
    {
      assert l in Elements(lines);
      var t :| t in ts && l == QuadLine(g, LineOf(t));
      QuadLineRead(t, g);
    }
    if x.0 in ts && x.1 == g {
      QuadLineRead(x.0, g);
      assert QuadLine(g, LineOf(x.0)) in Elements(lines);
    }
  }

  /** A quad without its graph: what stands before the graph IRI, its brackets, the spaces and the full stop. */
  function WithoutGraph(q: Text, g: Text): Text
    requires |q| >= |g| + 5
  {
    q[..|q| - |g| - 5]
  }

  lemma GraphDropped(line: Text, g: Text)
    ensures |QuadLine(g, line)| >= |g| + 5 && WithoutGraph(QuadLine(g, line), g) == line
  {
  }

  lemma QuadsSplit(ts: set<Triple>, g: Text, ordered: seq<Text>)
    requires ValidIri(g) && (forall t :: t in ts ==> ValidTriple(t)) && Elements(ordered) == LinesOf(ts)
    ensures Lines(Unlines(Map(QuadOf(g), ordered))) == Map(QuadOf(g), ordered)
  {
    var quads := Map(QuadOf(g), ordered);
    QuadImage(ts, g, ordered);
    forall i | 0 <= i < |quads|
      ensures PlainLine(quads[i])
    {
      assert quads[i] in Elements(quads);
      QuadsPlain(ts, g, quads[i]);
    }
    LinesUnlines(quads);
  }

  /** Its lines are in the strict order of their triples' texts. */
  lemma {:induction false} TextOrdered(ts: set<Triple>, g: Text, i: nat, j: nat)
    requires ValidIri(g) && forall t :: t in ts ==> ValidTriple(t)
    requires i < j < |Lines(NquadsText(LinesOf(ts), g))|
    ensures var lines := Lines(NquadsText(LinesOf(ts), g));
            && |lines[i]| >= |g| + 5 && |lines[j]| >= |g| + 5
            && WithoutGraph(lines[i], g) != WithoutGraph(lines[j], g)
            && LessEq(WithoutGraph(lines[i], g), WithoutGraph(lines[j], g))
  {
    var ordered := InOrder(LinesOf(ts));
    InOrderSorted(LinesOf(ts));
    QuadsSplit(ts, g, ordered);
    GraphDropped(ordered[i], g);
    GraphDropped(ordered[j], g);
  }
}
