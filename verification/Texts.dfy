/** Option and Result datatypes, and Rust strings as byte sequences.

    A `Text` is the UTF-8 encoding of a Rust string, one `char` (0 to 255) per byte.  All
    delimiters the repository splits at are ASCII, so splitting bytes and splitting characters
    agree, and Rust's string order is exactly the bytewise lexicographic order below. */
module Texts {

  datatype Option<+T> = None | Some(value: T)

  datatype Result<+T, +E> = Ok(value: T) | Err(error: E)

  type Text = seq<char>

  predicate IsBytes(s: Text) {
    forall i :: 0 <= i < |s| ==> s[i] as int < 256
  }

  /** An upper-case hexadecimal digit. */
  function HexDigit(n: nat): char
    requires n < 16
  {
    if n < 10 then (48 + n) as char else (55 + n) as char
  }

  lemma HexDigitExactly(n: nat)
    requires n < 16
    ensures HexDigit(n) == "0123456789ABCDEF"[n]
  {
  }

  // ----- order -----------------------------------------------------------------

  predicate Less(a: Text, b: Text) {
    if b == [] then false
    else if a == [] then true
    else a[0] < b[0] || (a[0] == b[0] && Less(a[1..], b[1..]))
  }

  /** The texts first differ at place `i`, where `a` has the smaller byte. */
  predicate SmallerAt(a: Text, b: Text, i: nat) {
    i < |a| && i < |b| && a[..i] == b[..i] && a[i] < b[i]
  }

  lemma {:induction false} PrefixLess(a: Text, b: Text)
    requires a < b
    ensures Less(a, b)
  {
    if a != [] {
      assert a[1..] < b[1..];
      PrefixLess(a[1..], b[1..]);
    }
  }

  lemma {:induction false} SmallerLess(a: Text, b: Text, i: nat)
    requires SmallerAt(a, b, i)
    ensures Less(a, b)
  {
    if i > 0 {
      assert a[0] == a[..i][0] && b[0] == b[..i][0];
      assert a[1..][..i - 1] == a[..i][1..] && b[1..][..i - 1] == b[..i][1..];
      SmallerLess(a[1..], b[1..], i - 1);
    }
  }

  lemma {:induction false} LessDiffers(a: Text, b: Text) returns (i: nat)
    requires Less(a, b)
    ensures SmallerAt(a, b, i) || (i == |a| && a < b)
  {
    if a == [] || a[0] != b[0] {
      i := 0;
    } else {
      var j := LessDiffers(a[1..], b[1..]);
      i := j + 1;
      assert a == [a[0]] + a[1..] && b == [b[0]] + b[1..];
      assert j < |a[1..]| ==> a[..i] == [a[0]] + a[1..][..j] && b[..i] == [b[0]] + b[1..][..j];
    }
  }

  /** Bytewise lexicographic order: a proper prefix, or smaller at the first difference. */
  lemma LessExactly(a: Text, b: Text)
    ensures Less(a, b) <==> a < b || exists i :: SmallerAt(a, b, i)
  {
    if Less(a, b) {
      var i := LessDiffers(a, b);
    } else if a < b {
      PrefixLess(a, b);
    } else if i :| SmallerAt(a, b, i) {
      SmallerLess(a, b, i);
    }
  }

  predicate LessEq(a: Text, b: Text) {
    a == b || Less(a, b)
  }

  lemma {:induction false} LessTotal(a: Text, b: Text)
    ensures a == b || Less(a, b) || Less(b, a)
  {
    if a != [] && b != [] && a[0] == b[0] {
      LessTotal(a[1..], b[1..]);
      assert a == [a[0]] + a[1..] && b == [b[0]] + b[1..];
    }
  }

  lemma {:induction false} LessAsymmetric(a: Text, b: Text)
    requires Less(a, b)
    ensures a != b && !Less(b, a)
  {
    if a != [] && a[0] == b[0] {
      LessAsymmetric(a[1..], b[1..]);
    }
  }

  lemma {:induction false} LessTransitive(a: Text, b: Text, c: Text)
    requires Less(a, b) && Less(b, c)
    ensures Less(a, c)
  {
    if a != [] && a[0] == b[0] == c[0] {
      LessTransitive(a[1..], b[1..], c[1..]);
    }
  }

  // ----- searching and splitting -------------------------------------------------

  /** Index of the first `c` in `s`, or `|s|`. */
  function IndexOf(s: Text, c: char): (i: nat)
    ensures i <= |s|
    ensures c !in s[..i]
    ensures i < |s| ==> s[i] == c
  {
    if s == [] || s[0] == c then 0
    else
      var i := 1 + IndexOf(s[1..], c);
      assert s[..i] == [s[0]] + s[1..][..i - 1];
      i
  }

  /** Index just after the last `c` in `s`, or 0. */
  function AfterLast(s: Text, c: char): (i: nat)
    ensures i <= |s|
    ensures c !in s[i..]
    ensures i > 0 ==> s[i - 1] == c
  {
    if s == [] || s[|s| - 1] == c then |s|
    else
      var i := AfterLast(s[..|s| - 1], c);
      assert s[i..] == s[..|s| - 1][i..] + [s[|s| - 1]];
      i
  }

  /** `str::split_once` */
  function SplitOnce(s: Text, c: char): (r: Option<(Text, Text)>)
    ensures r.None? <==> c !in s
    ensures r.Some? ==> s == r.value.0 + [c] + r.value.1 && c !in r.value.0
  {
    var i := IndexOf(s, c);
    if i == |s| then
      assert s == s[..i];
      None
    else Some((s[..i], s[i + 1..]))
  }

  /** `str::rsplit_once` */
  function RSplitOnce(s: Text, c: char): (r: Option<(Text, Text)>)
    ensures r.None? <==> c !in s
    ensures r.Some? ==> s == r.value.0 + [c] + r.value.1 && c !in r.value.1
  {
    var i := AfterLast(s, c);
    if i == 0 then
      assert s == s[i..];
      None
    else Some((s[..i - 1], s[i..]))
  }

  lemma {:induction false} IndexOfJoin(a: Text, c: char, b: Text)
    requires c !in a
    ensures IndexOf(a + [c] + b, c) == |a|
  {
    if a == [] {
      assert (a + [c] + b)[0] == c;
    } else {
      assert (a + [c] + b)[0] == a[0];
      assert (a + [c] + b)[1..] == a[1..] + [c] + b;
      IndexOfJoin(a[1..], c, b);
    }
  }

  lemma {:induction false} AfterLastJoin(a: Text, c: char, b: Text)
    requires c !in b
    ensures AfterLast(a + [c] + b, c) == |a| + 1
  {
    var s := a + [c] + b;
    if b == [] {
      assert s[|s| - 1] == c;
    } else {
      assert s[|s| - 1] == b[|b| - 1];
      assert s[..|s| - 1] == a + [c] + b[..|b| - 1];
      AfterLastJoin(a, c, b[..|b| - 1]);
    }
  }

  lemma SplitOnceJoin(a: Text, c: char, b: Text)
    requires c !in a
    ensures SplitOnce(a + [c] + b, c) == Some((a, b))
  {
    IndexOfJoin(a, c, b);
    var s := a + [c] + b;
    assert s[..|a|] == a && s[|a| + 1..] == b;
  }

  lemma RSplitOnceJoin(a: Text, c: char, b: Text)
    requires c !in b
    ensures RSplitOnce(a + [c] + b, c) == Some((a, b))
  {
    AfterLastJoin(a, c, b);
    var s := a + [c] + b;
    assert s[..|a|] == a && s[|a| + 1..] == b;
  }

  predicate StartsWith(s: Text, prefix: Text) {
    prefix <= s
  }

  // ----- lines -------------------------------------------------------------------

  /** One line as `str::lines` yields it: a trailing carriage return is dropped. */
  function StripCr(line: Text): Text {
    if line != [] && line[|line| - 1] == '\r' then line[..|line| - 1] else line
  }

  /** `str::lines`: split after every newline; a final piece without newline counts if non-empty. */
  function Lines(s: Text): seq<Text>
    decreases |s|
  {
    if s == [] then []
    else
      var i := IndexOf(s, '\n');
      if i == |s| then [s]
      else [StripCr(s[..i])] + Lines(s[i + 1..])
  }

  /** A text made by ending every line with a newline. */
  function Unlines(lines: seq<Text>): Text {
    if lines == [] then [] else lines[0] + ['\n'] + Unlines(lines[1..])
  }

  predicate PlainLine(line: Text) {
    '\n' !in line && (line == [] || line[|line| - 1] != '\r')
  }

  lemma {:induction false} LinesUnlines(lines: seq<Text>)
    requires forall i :: 0 <= i < |lines| ==> PlainLine(lines[i])
    ensures Lines(Unlines(lines)) == lines
  {
    if lines != [] {
      var s := Unlines(lines);
      var rest := Unlines(lines[1..]);
      assert PlainLine(lines[0]);
      IndexOfJoin(lines[0], '\n', rest);
      assert s[..|lines[0]|] == lines[0] && s[|lines[0]| + 1..] == rest;
      LinesUnlines(lines[1..]);
    }
  }

  /** A line ends at its newline, and loses a carriage return before it; the last one needs no newline. */
  lemma {:induction false} LinesExactly(a: Text, rest: Text)
    requires '\n' !in a
    ensures Lines(a + "\n" + rest)
         == [if a != [] && a[|a| - 1] == '\r' then a[..|a| - 1] else a] + Lines(rest)
    ensures Lines(a) == if a == [] then [] else [a]
  {
    var s := a + "\n" + rest;
    IndexOfJoin(a, '\n', rest);
    assert s == a + ['\n'] + rest;
    assert s[..|a|] == a && s[|a| + 1..] == rest;
  }

  lemma {:induction false} UnlinesExactly(line: Text, rest: seq<Text>)
    ensures |Unlines([])| == 0 && Unlines([line] + rest) == line + "\n" + Unlines(rest)
  {
    assert ([line] + rest)[1..] == rest;
  }
}
