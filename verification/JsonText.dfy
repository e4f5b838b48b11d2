/** The text of canonical JSON: `serde_json`'s compact form of the sorted value.

    A reader by the grammar of RFC 8259 recovers the value from the text, so hashing the text identifies
    a value up to member order. */
module JsonText {
  import opened Texts
  import Sorting
  import opened CanonicalJson

  function HexLower(n: nat): char
    requires n < 16
  {
    "0123456789abcdef"[n]
  }

  function EscapeChar(c: char): Text {
    if c == '\"' then "\\\""
    else if c == '\\' then "\\\\"
    else if c == '\n' then "\\n"
    else if c == '\r' then "\\r"
    else if c == '\t' then "\\t"
    else if c == 8 as char then "\\b"
    else if c == 12 as char then "\\f"
    else if c < ' ' then ['\\', 'u', '0', '0', HexLower(c as int / 16), HexLower(c as int % 16)]
    else [c]
  }

  /** The escaped text with its closing quote. */
  function PrintChars(s: Text): Text {
    if s == [] then ['\"'] else EscapeChar(s[0]) + PrintChars(s[1..])
  }

  function PrintString(s: Text): Text {
    ['\"'] + PrintChars(s)
  }

  predicate NumberChar(c: char) {
    '0' <= c <= '9' || c == '-' || c == '+' || c == '.' || c == 'e' || c == 'E'
  }

  /** What `serde_json` prints for a number starts with a digit or a minus sign. */
  predicate NumberText(t: Text) {
    t != [] && ('0' <= t[0] <= '9' || t[0] == '-') && forall i :: 0 <= i < |t| ==> NumberChar(t[i])
  }

  predicate Printable(v: Json) {
    match v
    case Number(t) => NumberText(t)
    case Array(items) => forall i :: 0 <= i < |items| ==> Printable(items[i])
    case Object(ms) => forall i :: 0 <= i < |ms| ==> Printable(ms[i].value)
    case _ => true
  }

  function Print(v: Json): Text
    decreases v, 1
  {
    match v
    case Null => "null"
    case Bool(b) => if b then "true" else "false"
    case Number(t) => t
    case Str(s) => PrintString(s)
    case Array(items) => ['['] + PrintItems(items, true)
    case Object(ms) => ['{'] + PrintMembers(ms, true)
  }

  function Comma(first: bool): Text {
    if first then [] else [',']
  }

  /** The remaining elements, a comma before each but the first, and the closing bracket. */
  function PrintItems(items: seq<Json>, first: bool): Text
    decreases items, 0
  {
    if items == [] then [']']
    else Comma(first) + (Print(items[0]) + PrintItems(items[1..], false))
  }

  function PrintMember(m: Member): Text
    decreases m, 2
  {
    PrintString(m.key) + ([':'] + Print(m.value))
  }

  function PrintMembers(ms: seq<Member>, first: bool): Text
    decreases ms, 0
  {
    if ms == [] then ['}']
    else Comma(first) + (PrintMember(ms[0]) + PrintMembers(ms[1..], false))
  }

  /** `canonical_json` */
  function CanonicalText(v: Json): Text {
    Print(SortValue(v))
  }

  // ----- reading a text by the grammar of RFC 8259, without blanks ---------------------------------------

  /** What may follow a value: nothing that would extend a number. */
  predicate Stop(x: Text) {
    x == [] || !NumberChar(x[0])
  }

  function HexRead(c: char): Option<nat> {
    if '0' <= c <= '9' then Some(c as int - '0' as int)
    else if 'a' <= c <= 'f' then Some(c as int - 'a' as int + 10)
    else None
  }

  /** The escapes of one letter (RFC 8259, section 7). */
  function LetterRead(c: char): Option<char> {
    if c == '\"' || c == '\\' || c == '/' then Some(c)
    else if c == 'b' then Some(8 as char)
    else if c == 'f' then Some(12 as char)
    else if c == 'n' then Some(10 as char)
    else if c == 'r' then Some(13 as char)
    else if c == 't' then Some(9 as char)
    else None
  }

  /** One character of a string and how much of the text it takes; nothing at the closing quote or at a
      control character. */
  function CharRead(s: Text): (r: Option<(char, nat)>)
    ensures r.Some? ==> 0 < r.value.1 <= |s|
  {
    if s == [] || s[0] == '\"' || s[0] as int < 32 then None
    else if s[0] != '\\' then Some((s[0], 1))
    else if |s| > 1 && s[1] != 'u' then
      match LetterRead(s[1])
      case Some(c) => Some((c, 2))
      case None => None
    else if |s| >= 6 && s[2] == '0' && s[3] == '0' && HexRead(s[4]).Some? && HexRead(s[5]).Some? then
      Some(((HexRead(s[4]).value * 16 + HexRead(s[5]).value) as char, 6))
    else None
  }

  /** The characters up to the closing quote, and what follows it. */
  function CharsRead(s: Text): (r: Option<(Text, Text)>)
    ensures r.Some? ==> |r.value.1| < |s|
    decreases |s|
  {
    if s != [] && s[0] == '\"' then Some(([], s[1..]))
    else
      match CharRead(s)
      case None => None
      case Some((c, n)) =>
        match CharsRead(s[n..])
        case None => None
        case Some((rest, tail)) => Some(([c] + rest, tail))
  }

  function StringRead(s: Text): (r: Option<(Text, Text)>)
    ensures r.Some? ==> |r.value.1| < |s|
  {
    if s != [] && s[0] == '\"' then CharsRead(s[1..]) else None
  }

  /** The length of the longest text of number characters. */
  function NumberLength(s: Text): (n: nat)
    ensures n <= |s|
  {
    if s == [] || !NumberChar(s[0]) then 0 else 1 + NumberLength(s[1..])
  }

  function NumberRead(s: Text): (r: Option<(Json, Text)>)
    ensures r.Some? ==> |r.value.1| < |s|
  {
    var n := NumberLength(s);
    if n > 0 && NumberText(s[..n]) then Some((Number(s[..n]), s[n..])) else None
  }

  /** A value and what follows it. */
  function ValueRead(s: Text): (r: Option<(Json, Text)>)
    ensures r.Some? ==> |r.value.1| < |s|
    decreases |s|, 0
  {
    if s == [] then None
    else if s[0] == '\"' then
      match StringRead(s)
      case None => None
      case Some((t, rest)) => Some((Str(t), rest))
    else if s[0] == '[' then
      match ItemsRead(s[1..], true)
      case None => None
      case Some((items, rest)) => Some((Array(items), rest))
    else if s[0] == '{' then
      match MembersRead(s[1..], true)
      case None => None
      case Some((ms, rest)) => Some((Object(ms), rest))
    else if "null" <= s then Some((Null, s[4..]))
    else if "true" <= s then Some((Bool(true), s[4..]))
    else if "false" <= s then Some((Bool(false), s[5..]))
    else NumberRead(s)
  }

  /** The text after the comma that stands before every element but the first. */
  function AfterComma(s: Text, first: bool): (r: Option<Text>)
    ensures r.Some? ==> |r.value| <= |s|
  {
    if first then Some(s) else if s != [] && s[0] == ',' then Some(s[1..]) else None
  }

  function ItemsRead(s: Text, first: bool): (r: Option<(seq<Json>, Text)>)
    ensures r.Some? ==> |r.value.1| < |s|
    decreases |s|, 1
  {
    if s != [] && s[0] == ']' then Some(([], s[1..]))
    else
      match AfterComma(s, first)
      case None => None
      case Some(t) =>
        match ValueRead(t)
        case None => None
        case Some((v, rest)) =>
          match ItemsRead(rest, false)
          case None => None
          case Some((more, tail)) => Some(([v] + more, tail))
  }

  function MemberRead(s: Text): (r: Option<(Member, Text)>)
    ensures r.Some? ==> |r.value.1| < |s|
    decreases |s|, 0
  {
    match StringRead(s)
    case None => None
    case Some((k, rest)) =>
      if rest == [] || rest[0] != ':' then None
      else
        match ValueRead(rest[1..])
        case None => None
        case Some((v, tail)) => Some((Member(k, v), tail))
  }

  function MembersRead(s: Text, first: bool): (r: Option<(seq<Member>, Text)>)
    ensures r.Some? ==> |r.value.1| < |s|
    decreases |s|, 1
  {
    if s != [] && s[0] == '}' then Some(([], s[1..]))
    else
      match AfterComma(s, first)
      case None => None
      case Some(t) =>
        match MemberRead(t)
        case None => None
        case Some((m, rest)) =>
          match MembersRead(rest, false)
          case None => None
          case Some((more, tail)) => Some(([m] + more, tail))
  }

  // ----- reading what was printed -----------------------------------------------------------------------

  lemma HexDigitRead(n: nat)
    requires n < 16
    ensures HexRead(HexLower(n)) == Some(n)
  {
    assert HexLower(n) == if n < 10 then ('0' as int + n) as char else ('a' as int + n - 10) as char;
  }

  lemma EscapedCharRead(c: char, tail: Text)
    ensures CharRead(EscapeChar(c) + tail) == Some((c, |EscapeChar(c)|))
    ensures EscapeChar(c)[0] != '\"'
  {
    var e := EscapeChar(c);
    var s := e + tail;
    assert forall i :: 0 <= i < |e| ==> s[i] == e[i];
    if |e| == 6 {
      HexDigitRead(c as int / 16);
      HexDigitRead(c as int % 16);
    }
  }

  lemma {:induction false} PrintedChars(s: Text, tail: Text)
    ensures CharsRead(PrintChars(s) + tail) == Some((s, tail))
  {
    var all := PrintChars(s) + tail;
    if s == [] {
      assert all[1..] == tail;
    } else {
      var e, rest := EscapeChar(s[0]), PrintChars(s[1..]) + tail;
      assert all == e + rest && all[|e|..] == rest;
      EscapedCharRead(s[0], rest);
      PrintedChars(s[1..], tail);
      assert all[0] == e[0];
      assert s == [s[0]] + s[1..];
    }
  }

  lemma {:induction false} PrintedString(s: Text, tail: Text)
    ensures var all := PrintString(s) + tail; all[0] == '\"' && StringRead(all) == Some((s, tail))
  {
    var all := PrintString(s) + tail;
    PrintedChars(s, tail);
    Associates([], ['\"'], PrintChars(s), tail);
    assert all == ['\"'] + (PrintChars(s) + tail);
    assert all[1..] == PrintChars(s) + tail;
  }

  lemma {:induction false} NumberLengthOf(t: Text, tail: Text)
    requires (forall i :: 0 <= i < |t| ==> NumberChar(t[i])) && Stop(tail)
    ensures NumberLength(t + tail) == |t|
  {
    if t == [] {
      assert t + tail == tail;
    } else {
      assert (t + tail)[1..] == t[1..] + tail;
      NumberLengthOf(t[1..], tail);
    }
  }

  lemma {:induction false} PrintedNumber(t: Text, tail: Text)
    requires NumberText(t) && Stop(tail)
    ensures ValueRead(t + tail) == Some((Number(t), tail))
  {
    var all := t + tail;
    NumberLengthOf(t, tail);
    assert all[..|t|] == t && all[|t|..] == tail;
    assert all[0] == t[0];
  }

  lemma {:induction false} PrintedWord(v: Json, tail: Text)
    requires v.Null? || v.Bool?
    ensures ValueRead(Print(v) + tail) == Some((v, tail))
  {
    var w := Print(v);
    var all := w + tail;
    assert w <= all && all[|w|..] == tail && all[0] == w[0];
  }

  lemma {:induction false} PrintedArray(items: seq<Json>, tail: Text)
    requires ItemsRead(PrintItems(items, true) + tail, true) == Some((items, tail))
    ensures ValueRead(['['] + PrintItems(items, true) + tail) == Some((Array(items), tail))
  {
    var all := ['['] + PrintItems(items, true) + tail;
    assert all[1..] == PrintItems(items, true) + tail;
  }

  lemma {:induction false} PrintedObject(ms: seq<Member>, tail: Text)
    requires MembersRead(PrintMembers(ms, true) + tail, true) == Some((ms, tail))
    ensures ValueRead(['{'] + PrintMembers(ms, true) + tail) == Some((Object(ms), tail))
  {
    var all := ['{'] + PrintMembers(ms, true) + tail;
    assert all[1..] == PrintMembers(ms, true) + tail;
  }

  /** A printed value, read by the grammar, is the value; the reader stops where it ends. */
  lemma {:induction false} PrintRead(v: Json, tail: Text)
    requires Printable(v) && Stop(tail)
    ensures ValueRead(Print(v) + tail) == Some((v, tail))
    decreases v, 1
  {
    match v
    case Null => PrintedWord(v, tail);
    case Bool(_) => PrintedWord(v, tail);
    case Number(t) => PrintedNumber(t, tail);
    case Str(s) => PrintedString(s, tail);
    case Array(items) =>
      ItemsPrinted(items, true, tail);
      PrintedArray(items, tail);
    case Object(ms) =>
      MembersPrinted(ms, true, tail);
      PrintedObject(ms, tail);
  }

  lemma Associates(c: Text, a: Text, p: Text, x: Text)
    ensures (c + (a + p)) + x == c + (a + (p + x))
  {
  }

  lemma ItemsStop(items: seq<Json>, tail: Text)
    ensures Stop(PrintItems(items, false) + tail)
  {
    assert (PrintItems(items, false) + tail)[0] == PrintItems(items, false)[0];
  }

  lemma MembersStop(ms: seq<Member>, tail: Text)
    ensures Stop(PrintMembers(ms, false) + tail)
  {
    assert (PrintMembers(ms, false) + tail)[0] == PrintMembers(ms, false)[0];
  }

  lemma HeadChar(v: Json)
    requires Printable(v)
    ensures Print(v) != [] && Print(v)[0] != ']'
  {
  }

  /** The next element starts after the comma, and is not the closing bracket. */
  lemma CommaSkipped(first: bool, t: Text, close: char)
    requires t != [] && t[0] != close && close != ','
    ensures var s := Comma(first) + t; s != [] && s[0] != close && AfterComma(s, first) == Some(t)
  {
    assert first ==> Comma(first) + t == t;
    assert !first ==> (Comma(first) + t)[1..] == t;
  }

  lemma {:induction false} ItemsStep(s: Text, first: bool, t: Text, v: Json, rest: Text, more: seq<Json>, tail: Text)
    requires s != [] && s[0] != ']' && AfterComma(s, first) == Some(t)
    requires ValueRead(t) == Some((v, rest)) && ItemsRead(rest, false) == Some((more, tail))
    ensures ItemsRead(s, first) == Some(([v] + more, tail))
  {
  }

  lemma {:induction false} ItemsPrinted(items: seq<Json>, first: bool, tail: Text)
    requires forall i :: 0 <= i < |items| ==> Printable(items[i])
    ensures ItemsRead(PrintItems(items, first) + tail, first) == Some((items, tail))
    decreases items, 0
  {
    var all := PrintItems(items, first) + tail;
    if items == [] {
      assert all[0] == ']' && all[1..] == tail;
    } else {
      var head, rest := Print(items[0]), PrintItems(items[1..], false) + tail;
      ItemsPrinted(items[1..], false, tail);
      ItemsStop(items[1..], tail);
      PrintRead(items[0], rest);
      HeadChar(items[0]);
      CommaSkipped(first, head + rest, ']');
      Associates(Comma(first), head, PrintItems(items[1..], false), tail);
      ItemsStep(all, first, head + rest, items[0], rest, items[1..], tail);
      assert items == [items[0]] + items[1..];
    }
  }

  lemma MemberText(m: Member, tail: Text)
    ensures PrintMember(m) + tail == PrintString(m.key) + ([':'] + (Print(m.value) + tail))
  {
  }

  lemma {:induction false} MemberPrinted(m: Member, tail: Text)
    requires Printable(m.value) && Stop(tail)
    ensures var t := PrintMember(m) + tail; t != [] && t[0] == '\"' && MemberRead(t) == Some((m, tail))
    decreases m, 2
  {
    var rest := [':'] + (Print(m.value) + tail);
    PrintRead(m.value, tail);
    PrintedString(m.key, rest);
    MemberText(m, tail);
    assert rest[1..] == Print(m.value) + tail;
  }

  lemma {:induction false} MembersStep(s: Text, first: bool, t: Text, m: Member, rest: Text, more: seq<Member>,
                                       tail: Text)
    requires s != [] && s[0] != '}' && AfterComma(s, first) == Some(t)
    requires MemberRead(t) == Some((m, rest)) && MembersRead(rest, false) == Some((more, tail))
    ensures MembersRead(s, first) == Some(([m] + more, tail))
  {
  }

  lemma {:induction false} MembersPrinted(ms: seq<Member>, first: bool, tail: Text)
    requires forall i :: 0 <= i < |ms| ==> Printable(ms[i].value)
    ensures MembersRead(PrintMembers(ms, first) + tail, first) == Some((ms, tail))
    decreases ms, 0
  {
    var all := PrintMembers(ms, first) + tail;
    if ms == [] {
      assert all[0] == '}' && all[1..] == tail;
    } else {
      var head, rest := PrintMember(ms[0]), PrintMembers(ms[1..], false) + tail;
      MembersPrinted(ms[1..], false, tail);
      MembersStop(ms[1..], tail);
      MemberPrinted(ms[0], rest);
      CommaSkipped(first, head + rest, '}');
      Associates(Comma(first), head, PrintMembers(ms[1..], false), tail);
      MembersStep(all, first, head + rest, ms[0], rest, ms[1..], tail);
      assert ms == [ms[0]] + ms[1..];
    }
  }

  /** So no printed value is a proper beginning of another: after the first value, the rest is determined. */
  lemma PrintInjective(a: Json, x: Text, b: Json, y: Text)
    requires Printable(a) && Printable(b) && Stop(x) && Stop(y)
    requires Print(a) + x == Print(b) + y
    ensures a == b && x == y
  {
    PrintRead(a, x);
    PrintRead(b, y);
  }

  lemma {:induction false} SortedPrintable(v: Json)
    requires Printable(v)
    ensures Printable(SortValue(v))
  {
    match v
    case Array(items) =>
      forall i | 0 <= i < |items|
        ensures Printable(SortValue(items[i]))
      {
        SortedPrintable(items[i]);
      }
    case Object(ms) =>
      var s := SortMembers(ms);
      var r := Sorting.Sort(KeyLe, s);
      forall i | 0 <= i < |r|
        ensures Printable(r[i].value)
      {
        var k := PermutedMember(s, r, i);
        SortedPrintable(ms[k].value);
      }
    case _ =>
  }

  /** Two values have the same canonical text, and so the same content hash when the hash does not
      collide on the two texts, exactly when they differ only in the order of object members. */
  lemma CanonicalTextIdentifies(a: Json, b: Json)
    requires Proper(a) && Proper(b) && Printable(a) && Printable(b)
    ensures CanonicalText(a) == CanonicalText(b) <==> Equivalent(a, b)
  {
    SortDecides(a, b);
    SortedPrintable(a);
    SortedPrintable(b);
    if CanonicalText(a) == CanonicalText(b) {
      assert CanonicalText(a) + [] == CanonicalText(b) + [];
      PrintInjective(SortValue(a), [], SortValue(b), []);
    }
  }
}
