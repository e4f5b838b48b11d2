/** RDF terms and their canonical N-Triples rendering, on which all ordering, deduplication and
    hashing of the repository is done. */
module NTriples {
  import opened Texts

  datatype Term =
    | NamedNode(iri: Text)
    | BlankNode(id: Text)
    | Simple(lex: Text)
    | Typed(lex: Text, dt: Text)
    | Lang(lex: Text, lang: Text)

  function EscapeChar(c: char): (r: Text)
    ensures r != []
    ensures r[0] != '"'
    ensures r[0] == '\\' || r == [c]
    ensures forall x :: x in r ==> x as int >= 32
  {
    if c as int == 8 then "\\b"
    else if c == '\t' then "\\t"
    else if c == '\n' then "\\n"
    else if c as int == 12 then "\\f"
    else if c == '\r' then "\\r"
    else if c == '"' then "\\\""
    else if c == '\\' then "\\\\"
    else if (c as int) < 32 || c as int == 127 then
      ['\\', 'u', '0', '0', HexDigit(c as int / 16), HexDigit(c as int % 16)]
    else [c]
  }

  function Escape(s: Text): Text {
    if s == [] then [] else EscapeChar(s[0]) + Escape(s[1..])
  }

  function Quote(s: Text): Text {
    "\"" + Escape(s) + "\""
  }

  function RenderIri(iri: Text): Text {
    "<" + iri + ">"
  }

  function Render(t: Term): (r: Text)
    ensures r != []
  {
    match t
    case NamedNode(iri) => RenderIri(iri)
    case BlankNode(id) => "_:" + id
    case Simple(lex) => Quote(lex)
    case Typed(lex, dt) => Quote(lex) + "^^" + RenderIri(dt)
    case Lang(lex, lang) => Quote(lex) + "@" + lang
  }

  // ----- reading a term back ------------------------------------------------------------------------

  /** The character an upper-case hex digit stands for, as a number. */
  function HexRead(c: char): Option<nat> {
    if '0' <= c <= '9' then Some(c as int - '0' as int)
    else if 'A' <= c <= 'F' then Some(c as int - 'A' as int + 10)
    else None
  }

  /** The escapes of one letter, as N-Triples defines them. */
  function LetterRead(c: char): Option<char> {
    if c == 't' then Some(9 as char)
    else if c == 'b' then Some(8 as char)
    else if c == 'n' then Some(10 as char)
    else if c == 'r' then Some(13 as char)
    else if c == 'f' then Some(12 as char)
    else if c == '"' || c == '\\' then Some(c)
    else None
  }

  /** One character of a quoted string and how much of the text it takes; nothing at the closing quote. */
  function CharRead(s: Text): (r: Option<(char, nat)>)
    ensures r.Some? ==> 0 < r.value.1 <= |s|
  {
    if s == [] || s[0] == '"' then None
    else if s[0] != '\\' then Some((s[0], 1))
    else if |s| > 1 && s[1] != 'u' then
      match LetterRead(s[1])
      case Some(c) => Some((c, 2))
      case None => None
    else if |s| >= 6 && s[2] == '0' && s[3] == '0' && HexRead(s[4]).Some? && HexRead(s[5]).Some? then
      Some(((HexRead(s[4]).value * 16 + HexRead(s[5]).value) as char, 6))
    else None
  }

  /** A string up to its closing quote, and what follows the quote. */
  function StringRead(s: Text): Option<(Text, Text)>
    decreases |s|
  {
    if s != [] && s[0] == '"' then Some(([], s[1..]))
    else
      match CharRead(s)
      case None => None
      case Some((c, n)) =>
        match StringRead(s[n..])
        case None => None
        case Some((rest, tail)) => Some(([c] + rest, tail))
  }

  function Bracketed(s: Text): Option<Text> {
    if |s| >= 2 && s[0] == '<' && s[|s| - 1] == '>' then Some(s[1..|s| - 1]) else None
  }

  /** What follows a quoted string: nothing, a datatype or a language. */
  function LiteralRead(lex: Text, tail: Text): Option<Term> {
    if tail == [] then Some(Simple(lex))
    else if tail[0] == '@' then Some(Lang(lex, tail[1..]))
    else if |tail| >= 2 && tail[..2] == "^^" && Bracketed(tail[2..]).Some? then
      Some(Typed(lex, Bracketed(tail[2..]).value))
    else None
  }

  function TermRead(s: Text): Option<Term> {
    if Bracketed(s).Some? then Some(NamedNode(Bracketed(s).value))
    else if |s| >= 2 && s[0] == '_' && s[1] == ':' then Some(BlankNode(s[2..]))
    else if s != [] && s[0] == '"' && StringRead(s[1..]).Some? then
      LiteralRead(StringRead(s[1..]).value.0, StringRead(s[1..]).value.1)
    else None
  }

  lemma HexDigitRead(n: nat)
    requires n < 16
    ensures HexRead(HexDigit(n)) == Some(n)
  {
  }

  lemma EscapedCharRead(c: char, tail: Text)
    ensures CharRead(EscapeChar(c) + tail) == Some((c, |EscapeChar(c)|))
  {
    var e := EscapeChar(c);
    var s := e + tail;
    assert forall i :: 0 <= i < |e| ==> s[i] == e[i];
    if |e| == 6 {
      HexDigitRead(c as int / 16);
      HexDigitRead(c as int % 16);
    }
  }

  lemma {:induction false} ReadStep(c: char, s: Text, rest: Text, tail: Text)
    requires StringRead(rest) == Some((s, tail)) && CharRead(EscapeChar(c) + rest) == Some((c, |EscapeChar(c)|))
    ensures StringRead(EscapeChar(c) + rest) == Some(([c] + s, tail))
  {
    var e := EscapeChar(c);
    assert (e + rest)[0] == e[0] && (e + rest)[|e|..] == rest;
  }

  lemma Associates(a: Text, b: Text, c: Text)
    ensures (a + b) + c == a + (b + c)
  {
  }

  lemma {:induction false} EscapedRead(s: Text, tail: Text)
    ensures StringRead(Escape(s) + (['"'] + tail)) == Some((s, tail))
  {
    var all := Escape(s) + (['"'] + tail);
    if s == [] {
      assert all == ['"'] + tail;
    } else {
      var e, rest := EscapeChar(s[0]), Escape(s[1..]) + (['"'] + tail);
      Associates(e, Escape(s[1..]), ['"'] + tail);
      EscapedRead(s[1..], tail);
      EscapedCharRead(s[0], rest);
      ReadStep(s[0], s[1..], rest, tail);
      assert [s[0]] + s[1..] == s;
    }
  }

  lemma AfterQuote(s: Text)
    ensures var q := ['"'] + s; q[0] == '"' && q[1..] == s
  {
  }

  lemma QuoteThen(lex: Text, tail: Text)
    ensures Quote(lex) + tail == ['"'] + (Escape(lex) + (['"'] + tail))
  {
    Associates(Escape(lex), ['"'], tail);
    assert Quote(lex) == ['"'] + (Escape(lex) + ['"']);
  }

  lemma {:induction false} QuoteRead(lex: Text, tail: Text)
    ensures var s := Quote(lex) + tail; s != [] && s[0] == '"' && StringRead(s[1..]) == Some((lex, tail))
  {
    QuoteThen(lex, tail);
    AfterQuote(Escape(lex) + (['"'] + tail));
    EscapedRead(lex, tail);
  }

  lemma {:induction false} LiteralTermRead(lex: Text, tail: Text, t: Term)
    requires LiteralRead(lex, tail) == Some(t)
    ensures TermRead(Quote(lex) + tail) == Some(t)
  {
    QuoteRead(lex, tail);
  }

  lemma BracketsRead(i: Text)
    ensures Bracketed(RenderIri(i)) == Some(i)
  {
    assert RenderIri(i)[1..|i| + 1] == i;
  }

  lemma TypedRead(lex: Text, dt: Text)
    ensures LiteralRead(lex, "^^" + RenderIri(dt)) == Some(Typed(lex, dt))
  {
    var tail := "^^" + RenderIri(dt);
    assert tail[..2] == "^^" && tail[2..] == RenderIri(dt);
    BracketsRead(dt);
  }

  lemma LangRead(lex: Text, lang: Text)
    ensures LiteralRead(lex, "@" + lang) == Some(Lang(lex, lang))
  {
    assert ("@" + lang)[1..] == lang;
  }

  lemma NodeTermRead(i: Text)
    ensures TermRead(RenderIri(i)) == Some(NamedNode(i))
  {
    BracketsRead(i);
  }

  lemma BlankRead(id: Text)
    ensures TermRead("_:" + id) == Some(BlankNode(id))
  {
    assert ("_:" + id)[2..] == id;
  }

  lemma {:induction false} SimpleTermRead(lex: Text)
    ensures TermRead(Quote(lex)) == Some(Simple(lex))
  {
    LiteralTermRead(lex, [], Simple(lex));
    assert Quote(lex) == Quote(lex) + [];
  }

  lemma {:induction false} TypedTermRead(lex: Text, dt: Text)
    ensures TermRead(Quote(lex) + "^^" + RenderIri(dt)) == Some(Typed(lex, dt))
  {
    var tail := "^^" + RenderIri(dt);
    TypedRead(lex, dt);
    LiteralTermRead(lex, tail, Typed(lex, dt));
    assert Quote(lex) + "^^" + RenderIri(dt) == Quote(lex) + tail;
  }

  lemma {:induction false} LangTermRead(lex: Text, lang: Text)
    ensures TermRead(Quote(lex) + "@" + lang) == Some(Lang(lex, lang))
  {
    var tail := "@" + lang;
    LangRead(lex, lang);
    LiteralTermRead(lex, tail, Lang(lex, lang));
    assert Quote(lex) + "@" + lang == Quote(lex) + tail;
  }

  /** Reading a rendered term, by the grammar of N-Triples, gives the term. */
  lemma {:induction false} RenderRead(t: Term)
    ensures TermRead(Render(t)) == Some(t)
  {
    match t
    case NamedNode(i) => NodeTermRead(i);
    case BlankNode(id) => BlankRead(id);
    case Simple(lex) => SimpleTermRead(lex);
    case Typed(lex, dt) => TypedTermRead(lex, dt);
    case Lang(lex, lang) => LangTermRead(lex, lang);
  }

  /** So different terms never render alike, and ordering and deduplicating by text is faithful. */
  lemma RenderInjective(a: Term, b: Term)
    requires Render(a) == Render(b)
    ensures a == b
  {
    RenderRead(a);
    RenderRead(b);
  }

  /** The first character tells IRIs, blank nodes and literals apart. */
  lemma RenderHead(t: Term)
    ensures Render(t)[0] == if t.NamedNode? then '<' else if t.BlankNode? then '_' else '"'
  {
    if t.Simple? || t.Typed? || t.Lang? {
      assert Quote(t.lex)[0] == '"';
    }
  }
}
