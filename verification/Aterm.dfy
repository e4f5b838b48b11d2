/** The ATerm parser of drv_file.rs, against Nix's way of printing ATerms. */
module Aterm {
  import opened Texts

  datatype ATerm = Str(s: Text) | List(items: seq<ATerm>) | Tuple(items: seq<ATerm>)

  datatype DrvError =
    | Expected(c: char)
    | Unterminated
    | BadEscape
    | Unexpected
    | BadSequence
    | ExpectedString
    | ExpectedList
    | NotDerive
    | MalformedDerive
    | FieldCount(n: nat)
    | IndexPanic

  type Parsed<T> = Result<(T, Text), DrvError>

  // ----- printing -------------------------------------------------------------------

  function EscapeChar(c: char): (r: Text) {
    match c
    case '"' => "\\\""
    case '\\' => "\\\\"
    case '\n' => "\\n"
    case '\r' => "\\r"
    case '\t' => "\\t"
    case _ => [c]
  }

  function Escape(s: Text): Text {
    if s == [] then [] else EscapeChar(s[0]) + Escape(s[1..])
  }

  function Print(t: ATerm): (r: Text)
    ensures r != [] && r[0] in "\"[("
    decreases t
  {
    match t
    case Str(s) => ['"'] + (Escape(s) + ['"'])
    case List(items) => ['['] + (PrintItems(items) + [']'])
    case Tuple(items) => ['('] + (PrintItems(items) + [')'])
  }

  function PrintItems(items: seq<ATerm>): Text
    decreases items
  {
    if items == [] then []
    else if |items| == 1 then Print(items[0])
    else Print(items[0]) + ([','] + PrintItems(items[1..]))
  }

  // ----- the parser, as a function of the remaining text ------------------------------

  function UnescapeChar(c: char): char {
    match c
    case 'n' => '\n'
    case 'r' => '\r'
    case 't' => '\t'
    case other => other
  }

  function Prepend(out: Text, r: Parsed<Text>): Parsed<Text> {
    match r
    case Ok((v, rest)) => Ok((out + v, rest))
    case Err(e) => Err(e)
  }

  /** The rest of a string literal, after its opening quote. */
  function ParseChars(s: Text): (r: Parsed<Text>)
    ensures r.Ok? ==> |r.value.1| < |s|
    decreases |s|
  {
    if s == [] then Err(Unterminated)
    else if s[0] == '"' then Ok(([], s[1..]))
    else if s[0] == '\\' then
      if |s| == 1 then Err(BadEscape) else Prepend([UnescapeChar(s[1])], ParseChars(s[2..]))
    else Prepend([s[0]], ParseChars(s[1..]))
  }

  function ParseString(s: Text): (r: Parsed<Text>)
    ensures r.Ok? ==> |r.value.1| < |s|
  {
    if s == [] || s[0] != '"' then Err(Expected('"')) else ParseChars(s[1..])
  }

  function AddItems(items: seq<ATerm>, r: Parsed<seq<ATerm>>): Parsed<seq<ATerm>> {
    match r
    case Ok((v, rest)) => Ok((items + v, rest))
    case Err(e) => Err(e)
  }

  function ParseTerm(s: Text): (r: Parsed<ATerm>)
    ensures r.Ok? ==> |r.value.1| < |s|
    decreases |s|, 0
  {
    if s == [] then Err(Unexpected)
    else if s[0] == '"' then
      match ParseString(s)
      case Ok((v, rest)) => Ok((Str(v), rest))
      case Err(e) => Err(e)
    else if s[0] == '[' then
      match ParseSeq(s[1..], ']')
      case Ok((v, rest)) => Ok((List(v), rest))
      case Err(e) => Err(e)
    else if s[0] == '(' then
      match ParseSeq(s[1..], ')')
      case Ok((v, rest)) => Ok((Tuple(v), rest))
      case Err(e) => Err(e)
    else Err(Unexpected)
  }

  function ParseSeq(s: Text, close: char): (r: Parsed<seq<ATerm>>)
    ensures r.Ok? ==> |r.value.1| < |s|
    decreases |s|, 2
  {
    if s != [] && s[0] == close then Ok(([], s[1..])) else ParseItems(s, close)
  }

  function ParseItems(s: Text, close: char): (r: Parsed<seq<ATerm>>)
    ensures r.Ok? ==> |r.value.1| < |s|
    decreases |s|, 1
  {
    match ParseTerm(s)
    case Err(e) => Err(e)
    case Ok((t, rest)) =>
      if rest == [] then Err(BadSequence)
      else if rest[0] == ',' then AddItems([t], ParseItems(rest[1..], close))
      else if rest[0] == close then Ok(([t], rest[1..]))
      else Err(BadSequence)
  }

  // ----- the parser as it runs ----------------------------------------------------------

  /** The outcome of a parser method agrees with the specification, cursor included. */
  ghost predicate Agrees<T>(spec: Parsed<T>, r: Result<T, DrvError>, rest: Text) {
    match spec
    case Err(e) => r == Err(e)
    case Ok((v, rest')) => r == Ok(v) && rest == rest'
  }

  class Parser {
    const s: Text
    var i: nat

    constructor (s: Text, i: nat)
      requires i <= |s|
      ensures this.s == s && this.i == i
    {
      this.s := s;
      this.i := i;
    }

    ghost predicate Valid()
      reads this
    {
      i <= |s|
    }

    ghost function Rest(): Text
      requires Valid()
      reads this
    {
      s[i..]
    }

    method Peek() returns (c: Option<char>)
      requires Valid()
      ensures c == if Rest() == [] then None else Some(Rest()[0])
    {
      c := if i < |s| then Some(s[i]) else None;
    }

    method Expect(b: char) returns (r: Result<(), DrvError>)
      requires Valid()
      modifies this`i
      ensures Valid() && old(i) <= i
      ensures if old(Rest()) != [] && old(Rest())[0] == b
              then r == Ok(()) && i == old(i) + 1
              else r == Err(Expected(b)) && i == old(i)
    {
      var c := Peek();
      if c == Some(b) {
        i := i + 1;
        r := Ok(());
      } else {
        r := Err(Expected(b));
      }
    }

    method String() returns (r: Result<Text, DrvError>)
      requires Valid()
      modifies this`i
      ensures Valid() && old(i) <= i
      ensures Agrees(ParseString(old(Rest())), r, Rest())
    {
      var q := Expect('"');
      if q.Err? {
        return Err(q.error);
      }
      ghost var target := ParseChars(Rest());
      assert Rest() == old(Rest())[1..];
      var out: Text := [];
      PrependNothing(target);
      while true
        invariant Valid() && old(i) <= i
        invariant Prepend(out, ParseChars(Rest())) == target
        decreases |s| - i
      {
        var c := Char();
        if c.Err? {
          return Err(c.error);
        }
        if c.value.None? {
          assert out + [] == out;
          return Ok(out);
        }
        PrependTwice(out, [c.value.value], ParseChars(Rest()));
        out := out + [c.value.value];
      }
      assert false;
    }

    /** One turn of the loop of `string`: the closing quote, an escape, or a plain character. */
    method Char() returns (r: Result<Option<char>, DrvError>)
      requires Valid()
      modifies this`i
      ensures Valid() && old(i) <= i
      ensures r.Ok? && r.value.Some? ==> old(i) < i
      ensures ParseChars(old(Rest()))
           == match r
              case Err(e) => Err(e)
              case Ok(None) => Ok(([], Rest()))
              case Ok(Some(c)) => Prepend([c], ParseChars(Rest()))
    {
      ghost var before := Rest();
      var c := Peek();
      if c.None? {
        return Err(Unterminated);
      }
      assert before[1..] == s[i + 1..];
      i := i + 1;
      if c.value == '"' {
        return Ok(None);
      }
      if c.value != '\\' {
        return Ok(c);
      }
      var e := Peek();
      if e.None? {
        return Err(BadEscape);
      }
      assert before[2..] == s[i + 1..] && before[1] == e.value;
      i := i + 1;
      r := Ok(Some(UnescapeChar(e.value)));
    }

    method Term() returns (r: Result<ATerm, DrvError>)
      requires Valid()
      modifies this`i
      ensures Valid() && old(i) <= i
      ensures Agrees(ParseTerm(old(Rest())), r, Rest())
      decreases |s| - i, 0
    {
      var c := Peek();
      if c == Some('"') {
        var v := String();
        r := if v.Ok? then Ok(Str(v.value)) else Err(v.error);
      } else if c == Some('[') {
        assert Rest()[1..] == s[i + 1..];
        i := i + 1;
        var v := Seq(']');
        r := if v.Ok? then Ok(List(v.value)) else Err(v.error);
      } else if c == Some('(') {
        assert Rest()[1..] == s[i + 1..];
        i := i + 1;
        var v := Seq(')');
        r := if v.Ok? then Ok(Tuple(v.value)) else Err(v.error);
      } else {
        r := Err(Unexpected);
      }
    }

    method Seq(close: char) returns (r: Result<seq<ATerm>, DrvError>)
      requires Valid()
      modifies this`i
      ensures Valid() && old(i) <= i
      ensures Agrees(ParseSeq(old(Rest()), close), r, Rest())
      decreases |s| - i, 2
    {
      var first := Peek();
      if first == Some(close) {
        assert Rest()[1..] == s[i + 1..];
        i := i + 1;
        return Ok([]);
      }
      r := Items(close);
    }

    /** The loop of `seq`: one term after another until the closing bracket. */
    method Items(close: char) returns (r: Result<seq<ATerm>, DrvError>)
      requires Valid()
      modifies this`i
      ensures Valid() && old(i) <= i
      ensures Agrees(ParseItems(old(Rest()), close), r, Rest())
      decreases |s| - i, 1
    {
      var items: seq<ATerm> := [];
      ghost var target := ParseItems(Rest(), close);
      assert target.Ok? ==> [] + target.value.0 == target.value.0;
      while true
        invariant Valid() && old(i) <= i
        invariant AddItems(items, ParseItems(Rest(), close)) == target
        decreases |s| - i
      {
        ghost var before := Rest();
        ghost var soFar := items;
        var t := Term();
        if t.Err? {
          return Err(t.error);
        }
        assert ParseTerm(before) == Ok((t.value, Rest()));
        ItemsStep(soFar, t.value, before, Rest(), close);
        items := items + [t.value];
        var more := Separator(close);
        if more.Err? {
          return Err(more.error);
        }
        if !more.value {
          return Ok(items);
        }
      }
      assert false;
    }

    /** After an item: a comma (more to come), the closing bracket, or an error. */
    method Separator(close: char) returns (more: Result<bool, DrvError>)
      requires Valid()
      modifies this`i
      ensures Valid() && old(i) <= i
      ensures var rest := old(Rest());
              if rest != [] && rest[0] == ',' then more == Ok(true) && Rest() == rest[1..]
              else if rest != [] && rest[0] == close then more == Ok(false) && Rest() == rest[1..]
              else more == Err(BadSequence)
    {
      var c := Peek();
      if c == Some(',') || c == Some(close) {
        assert Rest()[1..] == s[i + 1..];
        i := i + 1;
        more := Ok(c == Some(','));
      } else {
        more := Err(BadSequence);
      }
    }
  }

  lemma PrependNothing(r: Parsed<Text>)
    ensures Prepend([], r) == r
  {
    if r.Ok? {
      assert [] + r.value.0 == r.value.0;
    }
  }

  /** One turn of the loop in `seq`: after a term comes a comma, the closing bracket, or an error. */
  lemma ItemsStep(soFar: seq<ATerm>, t: ATerm, before: Text, rest: Text, close: char)
    requires ParseTerm(before) == Ok((t, rest))
    ensures AddItems(soFar, ParseItems(before, close))
         == if rest == [] then Err(BadSequence)
            else if rest[0] == ',' then AddItems(soFar + [t], ParseItems(rest[1..], close))
            else if rest[0] == close then Ok((soFar + [t], rest[1..]))
            else Err(BadSequence)
  {
    if rest != [] && rest[0] == ',' {
      AddItemsTwice(soFar, [t], ParseItems(rest[1..], close));
    }
  }

  lemma PrependTwice(a: Text, b: Text, r: Parsed<Text>)
    ensures Prepend(a, Prepend(b, r)) == Prepend(a + b, r)
  {
    if r.Ok? {
      assert a + (b + r.value.0) == a + b + r.value.0;
    }
  }

  lemma AddItemsTwice(a: seq<ATerm>, b: seq<ATerm>, r: Parsed<seq<ATerm>>)
    ensures AddItems(a, AddItems(b, r)) == AddItems(a + b, r)
  {
    if r.Ok? {
      assert a + (b + r.value.0) == a + b + r.value.0;
    }
  }

  // ----- round trip -----------------------------------------------------------------------

  lemma ParsePlain(c: char, tail: Text)
    requires c != '"' && c != '\\'
    ensures ParseChars([c] + tail) == Prepend([c], ParseChars(tail))
  {
    var text := [c] + tail;
    assert text[0] == c && text[1..] == tail;
  }

  lemma ParseEscape(x: char, tail: Text)
    ensures ParseChars(['\\', x] + tail) == Prepend([UnescapeChar(x)], ParseChars(tail))
  {
    var text := ['\\', x] + tail;
    assert text[0] == '\\' && text[1] == x && text[2..] == tail;
  }

  lemma ParseEscaped(c: char, tail: Text)
    ensures ParseChars(EscapeChar(c) + tail) == Prepend([c], ParseChars(tail))
  {
    var e := EscapeChar(c);
    if |e| == 2 {
      assert e == ['\\', e[1]] && UnescapeChar(e[1]) == c;
      ParseEscape(e[1], tail);
    } else {
      assert e == [c];
      ParsePlain(c, tail);
    }
  }

  lemma {:induction false} CharsRoundTrip(s: Text, rest: Text)
    ensures ParseChars(Escape(s) + (['"'] + rest)) == Ok((s, rest))
  {
    if s == [] {
      assert Escape(s) + (['"'] + rest) == ['"'] + rest;
    } else {
      var tail := Escape(s[1..]) + (['"'] + rest);
      assert Escape(s) + (['"'] + rest) == EscapeChar(s[0]) + tail;
      ParseEscaped(s[0], tail);
      CharsRoundTrip(s[1..], rest);
      assert [s[0]] + s[1..] == s;
    }
  }

  /** For every term and every trailing text the parser returns the printed term and stops exactly
      at its end. */
  lemma {:induction false} TermRoundTrip(t: ATerm, rest: Text)
    ensures ParseTerm(Print(t) + rest) == Ok((t, rest))
    decreases t
  {
    var text := Print(t) + rest;
    match t
    case Str(s) =>
      assert text[1..] == Escape(s) + (['"'] + rest);
      CharsRoundTrip(s, rest);
    case List(items) =>
      assert text[1..] == PrintItems(items) + ([']'] + rest);
      SeqRoundTrip(items, ']', rest);
    case Tuple(items) =>
      assert text[1..] == PrintItems(items) + ([')'] + rest);
      SeqRoundTrip(items, ')', rest);
  }

  lemma {:induction false} SeqRoundTrip(items: seq<ATerm>, close: char, rest: Text)
    requires close == ']' || close == ')'
    ensures ParseSeq(PrintItems(items) + ([close] + rest), close) == Ok((items, rest))
    decreases items, 1
  {
    var text := PrintItems(items) + ([close] + rest);
    if items == [] {
      assert text == [close] + rest;
    } else {
      assert text[0] == Print(items[0])[0];
      ItemsRoundTrip(items, close, rest);
    }
  }

  lemma LastItem(s: Text, t: ATerm, close: char, rest: Text)
    requires close != ',' && ParseTerm(s) == Ok((t, [close] + rest))
    ensures ParseItems(s, close) == Ok(([t], rest))
  {
    assert ([close] + rest)[0] == close && ([close] + rest)[1..] == rest;
  }

  lemma NextItem(s: Text, t: ATerm, close: char, tail: Text)
    requires ParseTerm(s) == Ok((t, [','] + tail))
    ensures ParseItems(s, close) == AddItems([t], ParseItems(tail, close))
  {
    assert ([','] + tail)[0] == ',' && ([','] + tail)[1..] == tail;
  }

  lemma ManyItemsText(items: seq<ATerm>, x: Text)
    requires |items| > 1
    ensures PrintItems(items) + x == Print(items[0]) + ([','] + (PrintItems(items[1..]) + x))
  {
    Regroup(Print(items[0]), PrintItems(items[1..]), x);
  }

  lemma Regroup(a: Text, b: Text, x: Text)
    ensures a + ([','] + b) + x == a + ([','] + (b + x))
  {
  }

  lemma ItemsAdded(items: seq<ATerm>, rest: Text)
    requires items != []
    ensures AddItems([items[0]], Ok((items[1..], rest))) == Ok((items, rest))
  {
    assert items == [items[0]] + items[1..];
  }

  lemma OnlyItem(items: seq<ATerm>, close: char, rest: Text)
    requires |items| == 1 && close != ','
    requires ParseTerm(Print(items[0]) + ([close] + rest)) == Ok((items[0], [close] + rest))
    ensures ParseItems(PrintItems(items) + ([close] + rest), close) == Ok((items, rest))
  {
    assert PrintItems(items) == Print(items[0]);
    LastItem(Print(items[0]) + ([close] + rest), items[0], close, rest);
    assert items == [items[0]];
  }

  lemma {:induction false} ItemsRoundTrip(items: seq<ATerm>, close: char, rest: Text)
    requires (close == ']' || close == ')') && items != []
    ensures ParseItems(PrintItems(items) + ([close] + rest), close) == Ok((items, rest))
    decreases items, 0
  {
    if |items| == 1 {
      TermRoundTrip(items[0], [close] + rest);
      OnlyItem(items, close, rest);
    } else {
      var tail := PrintItems(items[1..]) + ([close] + rest);
      ManyItemsText(items, [close] + rest);
      assert ParseItems(Print(items[0]) + ([','] + tail), close) == AddItems([items[0]], ParseItems(tail, close)) by {
        TermRoundTrip(items[0], [','] + tail);
        NextItem(Print(items[0]) + ([','] + tail), items[0], close, tail);
      }
      ItemsRoundTrip(items[1..], close, rest);
      ItemsAdded(items, rest);
    }
  }

  // ----- the grammar ------------------------------------------------------------------------------

  /** What a character after a backslash stands for. */
  function Meaning(c: char): char {
    if c == 'n' then 10 as char else if c == 'r' then 13 as char else if c == 't' then 9 as char else c
  }

  /** `x` writes the characters of `s`: each as itself, unless it is a quote or a backslash, or after a
      backslash. */
  predicate WritesChars(s: Text, x: Text)
    decreases |x|
  {
    if x == [] then s == []
    else if s == [] then false
    else if x[0] == '\\' then |x| > 1 && s[0] == Meaning(x[1]) && WritesChars(s[1..], x[2..])
    else x[0] != '"' && s[0] == x[0] && WritesChars(s[1..], x[1..])
  }

  /** `x` is a way of writing the term. */
  ghost predicate Writes(t: ATerm, x: Text)
    decreases t
  {
    |x| > 1 &&
    var inner := x[1..|x| - 1];
    match t
    case Str(s) => x[0] == '"' && x[|x| - 1] == '"' && WritesChars(s, inner)
    case List(items) => x[0] == '[' && x[|x| - 1] == ']' && WritesItems(items, inner)
    case Tuple(items) => x[0] == '(' && x[|x| - 1] == ')' && WritesItems(items, inner)
  }

  /** Items separated by commas. */
  ghost predicate WritesItems(items: seq<ATerm>, x: Text)
    decreases items
  {
    if items == [] then x == []
    else if |items| == 1 then Writes(items[0], x)
    else exists k :: 0 <= k < |x| && x[k] == ',' && Writes(items[0], x[..k]) && WritesItems(items[1..], x[k + 1..])
  }

  lemma {:induction false} CharsWritten(s: Text, x: Text, rest: Text)
    requires WritesChars(s, x)
    ensures ParseChars(x + (['"'] + rest)) == Ok((s, rest))
    decreases |x|
  {
    var all := x + (['"'] + rest);
    if x == [] {
      assert all == ['"'] + rest;
    } else if x[0] == '\\' {
      assert all[2..] == x[2..] + (['"'] + rest) && all[1] == x[1];
      CharsWritten(s[1..], x[2..], rest);
      assert s == [s[0]] + s[1..];
    } else {
      assert all[1..] == x[1..] + (['"'] + rest);
      CharsWritten(s[1..], x[1..], rest);
      assert s == [s[0]] + s[1..];
    }
  }

  /** Every way of writing a term is parsed to the term, up to its end. */
  lemma {:induction false} WrittenParses(t: ATerm, x: Text, rest: Text)
    requires Writes(t, x)
    ensures ParseTerm(x + rest) == Ok((t, rest))
    decreases t
  {
    var inner, all := x[1..|x| - 1], x + rest;
    assert all[0] == x[0] && all[1..] == inner + ([x[|x| - 1]] + rest);
    match t
    case Str(s) => CharsWritten(s, inner, rest);
    case List(items) => SeqWritten(items, inner, ']', rest);
    case Tuple(items) => SeqWritten(items, inner, ')', rest);
  }

  lemma {:induction false} SeqWritten(items: seq<ATerm>, x: Text, close: char, rest: Text)
    requires WritesItems(items, x) && (close == ']' || close == ')')
    ensures ParseSeq(x + ([close] + rest), close) == Ok((items, rest))
    decreases items, 1
  {
    var all := x + ([close] + rest);
    if items == [] {
      assert all == [close] + rest;
    } else {
      ItemsWritten(items, x, close, rest);
      FirstWritten(items, x);
      assert all[0] == x[0];
    }
  }

  lemma FirstWritten(items: seq<ATerm>, x: Text)
    requires items != [] && WritesItems(items, x)
    ensures x != [] && x[0] != ']' && x[0] != ')'
  {
    if |items| > 1 {
      var k :| 0 <= k < |x| && x[k] == ',' && Writes(items[0], x[..k]) && WritesItems(items[1..], x[k + 1..]);
      assert x[0] == x[..k][0];
    }
  }

  lemma {:induction false} ItemsWritten(items: seq<ATerm>, x: Text, close: char, rest: Text)
    requires items != [] && WritesItems(items, x) && (close == ']' || close == ')')
    ensures ParseItems(x + ([close] + rest), close) == Ok((items, rest))
    decreases items, 0
  {
    if |items| == 1 {
      WrittenParses(items[0], x, [close] + rest);
      LastItem(x + ([close] + rest), items[0], close, rest);
      assert items == [items[0]];
    } else {
      var k :| 0 <= k < |x| && x[k] == ',' && Writes(items[0], x[..k]) && WritesItems(items[1..], x[k + 1..]);
      var tail := x[k + 1..] + ([close] + rest);
      assert x + ([close] + rest) == x[..k] + ([','] + tail);
      assert ParseItems(x + ([close] + rest), close) == AddItems([items[0]], ParseItems(tail, close)) by {
        WrittenParses(items[0], x[..k], [','] + tail);
        NextItem(x[..k] + ([','] + tail), items[0], close, tail);
      }
      ItemsWritten(items[1..], x[k + 1..], close, rest);
      ItemsAdded(items, rest);
    }
  }

  lemma PrependOne(c: char, r: Parsed<Text>, v: Text, rest: Text)
    requires Prepend([c], r) == Ok((v, rest))
    ensures v != [] && v[0] == c && r == Ok((v[1..], rest))
  {
    assert v == [c] + r.value.0;
  }

  lemma AddOne(t: ATerm, r: Parsed<seq<ATerm>>, items: seq<ATerm>, rest: Text)
    requires AddItems([t], r) == Ok((items, rest))
    ensures items != [] && items[0] == t && r == Ok((items[1..], rest))
  {
    assert items == [t] + r.value.0;
  }

  /** How `ParseChars` goes on. */
  lemma {:induction false} CharsCases(s: Text, v: Text, rest: Text)
    requires ParseChars(s) == Ok((v, rest))
    ensures s != []
    ensures s[0] == '"' ==> v == [] && rest == s[1..]
    ensures s[0] == '\\' ==> |s| > 1 && v != [] && v[0] == Meaning(s[1]) && ParseChars(s[2..]) == Ok((v[1..], rest))
    ensures s[0] != '"' && s[0] != '\\' ==> v != [] && v[0] == s[0] && ParseChars(s[1..]) == Ok((v[1..], rest))
  {
    if s[0] == '\\' {
      PrependOne(UnescapeChar(s[1]), ParseChars(s[2..]), v, rest);
    } else if s[0] != '"' {
      PrependOne(s[0], ParseChars(s[1..]), v, rest);
    }
  }

  lemma EscapedWritten(v: Text, c: char, x: Text)
    requires v != [] && v[0] == Meaning(c) && WritesChars(v[1..], x)
    ensures WritesChars(v, ['\\', c] + x)
  {
    assert (['\\', c] + x)[2..] == x;
  }

  lemma PlainWritten(v: Text, c: char, x: Text)
    requires c != '"' && c != '\\' && v != [] && v[0] == c && WritesChars(v[1..], x)
    ensures WritesChars(v, [c] + x)
  {
    assert ([c] + x)[1..] == x;
  }

  lemma {:induction false} CharsRead(s: Text, v: Text, rest: Text) returns (x: Text)
    requires ParseChars(s) == Ok((v, rest))
    ensures WritesChars(v, x) && s == x + (['"'] + rest)
    decreases |s|
  {
    CharsCases(s, v, rest);
    if s[0] == '"' {
      x := [];
    } else if s[0] == '\\' {
      var y := CharsRead(s[2..], v[1..], rest);
      x := ['\\', s[1]] + y;
      EscapedWritten(v, s[1], y);
    } else {
      var y := CharsRead(s[1..], v[1..], rest);
      x := [s[0]] + y;
      PlainWritten(v, s[0], y);
    }
  }

  lemma StringWritten(v: Text, x: Text)
    requires WritesChars(v, x)
    ensures Writes(Str(v), ['"'] + (x + ['"']))
  {
    assert (['"'] + (x + ['"']))[1..|x| + 1] == x;
  }

  lemma BracketsWritten(t: ATerm, x: Text)
    requires !t.Str? && WritesItems(t.items, x)
    ensures Writes(t, (if t.List? then ['['] else ['(']) + (x + if t.List? then [']'] else [')']))
  {
    var all := (if t.List? then ['['] else ['(']) + (x + if t.List? then [']'] else [')']);
    assert all[1..|x| + 1] == x;
  }

  lemma ItemsJoined(t: ATerm, more: seq<ATerm>, x: Text, y: Text)
    requires more != [] && Writes(t, x) && WritesItems(more, y)
    ensures WritesItems([t] + more, x + ([','] + y))
  {
    var all := x + ([','] + y);
    assert ([t] + more)[1..] == more && all[..|x|] == x && all[|x|] == ',' && all[|x| + 1..] == y;
  }

  /** What `ParseTerm` goes on with. */
  lemma {:induction false} TermCases(s: Text, t: ATerm, rest: Text)
    requires ParseTerm(s) == Ok((t, rest))
    ensures s != [] && match t
            case Str(v) => s[0] == '"' && ParseChars(s[1..]) == Ok((v, rest))
            case List(items) => s[0] == '[' && ParseSeq(s[1..], ']') == Ok((items, rest))
            case Tuple(items) => s[0] == '(' && ParseSeq(s[1..], ')') == Ok((items, rest))
  {
  }

  /** How `ParseItems` goes on after its first term. */
  lemma {:induction false} ItemsCases(s: Text, close: char, items: seq<ATerm>, rest: Text) returns (after: Text)
    requires ParseItems(s, close) == Ok((items, rest)) && close != ','
    ensures items != [] && after != [] && ParseTerm(s) == Ok((items[0], after)) && |after| < |s|
    ensures after[0] == ',' ==> ParseItems(after[1..], close) == Ok((items[1..], rest))
    ensures after[0] != ',' ==> items == [items[0]] && after == [close] + rest
  {
    var t;
    t, after := ParseTerm(s).value.0, ParseTerm(s).value.1;
    if after[0] == ',' {
      AddOne(t, ParseItems(after[1..], close), items, rest);
    }
  }

  /** Whatever is parsed was a way of writing the term. */
  lemma {:induction false} ParsedWritten(s: Text, t: ATerm, rest: Text) returns (x: Text)
    requires ParseTerm(s) == Ok((t, rest))
    ensures Writes(t, x) && s == x + rest
    decreases |s|, 0
  {
    TermCases(s, t, rest);
    match t
    case Str(v) =>
      var y := CharsRead(s[1..], v, rest);
      x := ['"'] + (y + ['"']);
      StringWritten(v, y);
    case List(items) =>
      var y := SeqRead(s[1..], ']', items, rest);
      x := ['['] + (y + [']']);
      BracketsWritten(t, y);
    case Tuple(items) =>
      var y := SeqRead(s[1..], ')', items, rest);
      x := ['('] + (y + [')']);
      BracketsWritten(t, y);
  }

  lemma {:induction false} SeqRead(s: Text, close: char, items: seq<ATerm>, rest: Text) returns (x: Text)
    requires ParseSeq(s, close) == Ok((items, rest)) && close != ','
    ensures WritesItems(items, x) && s == x + ([close] + rest)
    decreases |s|, 2
  {
    if s != [] && s[0] == close {
      x := [];
    } else {
      x := ItemsRead(s, close, items, rest);
    }
  }

  lemma {:induction false} ItemsRead(s: Text, close: char, items: seq<ATerm>, rest: Text) returns (x: Text)
    requires ParseItems(s, close) == Ok((items, rest)) && close != ','
    ensures items != [] && WritesItems(items, x) && s == x + ([close] + rest)
    decreases |s|, 1
  {
    var after := ItemsCases(s, close, items, rest);
    var first := ParsedWritten(s, items[0], after);
    if after[0] == ',' {
      var y := ItemsRead(after[1..], close, items[1..], rest);
      x := first + ([','] + y);
      ItemsJoined(items[0], items[1..], first, y);
      assert items == [items[0]] + items[1..];
    } else {
      x := first;
    }
  }

  /** The parser accepts exactly the grammar: a term is parsed, leaving `rest`, when the text is some way of
      writing it followed by `rest`. */
  lemma ParsesExactly(s: Text, t: ATerm, rest: Text)
    ensures ParseTerm(s) == Ok((t, rest)) <==> exists x :: Writes(t, x) && s == x + rest
  {
    if ParseTerm(s) == Ok((t, rest)) {
      var x := ParsedWritten(s, t, rest);
    }
    if x :| Writes(t, x) && s == x + rest {
      WrittenParses(t, x, rest);
    }
  }
}
