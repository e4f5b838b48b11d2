/** Base64 as `nar_hash_segment` and `decode_nar` use it: the standard alphabet with canonical
    padding, and the URL-safe alphabet without padding (RFC 4648, sections 4 and 5).  Both engines
    reject non-zero trailing bits, so decoding accepts exactly what encoding produces. */
module Base64 {
  import opened Texts

  type Byte = b: nat | b < 256

  datatype Engine = Standard | UrlSafe

  function Digit(e: Engine, n: nat): char
    requires n < 64
  {
    if n < 26 then (65 + n) as char
    else if n < 52 then (71 + n) as char
    else if n < 62 then (n - 4) as char
    else if n == 62 then (if e.Standard? then '+' else '-')
    else (if e.Standard? then '/' else '_')
  }

  function Value(e: Engine, c: char): (r: Option<nat>)
    ensures r.Some? ==> r.value < 64 && Digit(e, r.value) == c
  {
    if 'A' <= c <= 'Z' then Some(c as int - 65)
    else if 'a' <= c <= 'z' then Some(c as int - 71)
    else if '0' <= c <= '9' then Some(c as int + 4)
    else if c == (if e.Standard? then '+' else '-') then Some(62)
    else if c == (if e.Standard? then '/' else '_') then Some(63)
    else None
  }

  lemma ValueDigit(e: Engine, n: nat)
    requires n < 64
    ensures Value(e, Digit(e, n)) == Some(n)
    ensures Digit(e, n) != '='
    ensures Digit(e, n) == '/' <==> e.Standard? && n == 63
  {
  }

  function Padding(e: Engine, n: nat): Text {
    if e.UrlSafe? then [] else if n == 1 then "=" else "=="
  }

  function Group(e: Engine, b0: Byte, b1: Byte, b2: Byte): (r: Text)
    ensures |r| == 4
  {
    [Digit(e, b0 / 4), Digit(e, b0 % 4 * 16 + b1 / 16), Digit(e, b1 % 16 * 4 + b2 / 64), Digit(e, b2 % 64)]
  }

  function Encode(e: Engine, bs: seq<Byte>): Text {
    if bs == [] then []
    else if |bs| == 1 then
      [Digit(e, bs[0] / 4), Digit(e, bs[0] % 4 * 16)] + Padding(e, 2)
    else if |bs| == 2 then
      [Digit(e, bs[0] / 4), Digit(e, bs[0] % 4 * 16 + bs[1] / 16), Digit(e, bs[1] % 16 * 4)] + Padding(e, 1)
    else
      Group(e, bs[0], bs[1], bs[2]) + Encode(e, bs[3..])
  }

  /** The last group without its padding: two or three digits, unused bits zero. */
  function DecodeTail(e: Engine, s: Text): (r: Option<seq<Byte>>)
  {
    if |s| == 2 then
      var a, b := Value(e, s[0]), Value(e, s[1]);
      if a.Some? && b.Some? && b.value % 16 == 0 then Some([a.value * 4 + b.value / 16]) else None
    else if |s| == 3 then
      var a, b, c := Value(e, s[0]), Value(e, s[1]), Value(e, s[2]);
      if a.Some? && b.Some? && c.Some? && c.value % 4 == 0
      then Some([a.value * 4 + b.value / 16, b.value % 16 * 16 + c.value / 4]) else None
    else None
  }

  function DecodeGroup(e: Engine, s: Text): (r: Option<seq<Byte>>)
    requires |s| == 4
  {
    var a, b, c, d := Value(e, s[0]), Value(e, s[1]), Value(e, s[2]), Value(e, s[3]);
    if a.Some? && b.Some? && c.Some? && d.Some?
    then Some([a.value * 4 + b.value / 16, b.value % 16 * 16 + c.value / 4, c.value % 4 * 64 + d.value])
    else None
  }

  function Decode(e: Engine, s: Text): Option<seq<Byte>>
    decreases |s|
  {
    if s == [] then Some([])
    else if |s| < 4 then (if e.UrlSafe? then DecodeTail(e, s) else None)
    else if e.Standard? && |s| == 4 && s[2] == '=' && s[3] == '=' then DecodeTail(e, s[..2])
    else if e.Standard? && |s| == 4 && s[3] == '=' then DecodeTail(e, s[..3])
    else
      var g, rest := DecodeGroup(e, s[..4]), Decode(e, s[4..]);
      if g.Some? && rest.Some? then Some(g.value + rest.value) else None
  }

  // ----- decoding inverts encoding ------------------------------------------------------

  lemma OneEncoded(e: Engine, b0: Byte)
    ensures DecodeTail(e, [Digit(e, b0 / 4), Digit(e, b0 % 4 * 16)]) == Some([b0])
  {
    ValueDigit(e, b0 / 4);
    ValueDigit(e, b0 % 4 * 16);
    assert b0 / 4 * 4 + b0 % 4 * 16 / 16 == b0;
  }

  lemma TwoEncoded(e: Engine, b0: Byte, b1: Byte)
    ensures DecodeTail(e, [Digit(e, b0 / 4), Digit(e, b0 % 4 * 16 + b1 / 16), Digit(e, b1 % 16 * 4)])
         == Some([b0, b1])
  {
    var x := b0 % 4 * 16 + b1 / 16;
    ValueDigit(e, b0 / 4);
    ValueDigit(e, x);
    ValueDigit(e, b1 % 16 * 4);
    assert x / 16 == b0 % 4 && x % 16 == b1 / 16;
  }

  lemma TailEncoded(e: Engine, bs: seq<Byte>)
    requires 1 <= |bs| <= 2
    ensures var t := Encode(e, bs)[..|bs| + 1]; DecodeTail(e, t) == Some(bs)
    ensures Encode(e, bs) == Encode(e, bs)[..|bs| + 1] + Padding(e, 3 - |bs|)
    ensures Encode(e, bs)[|bs|] != '='
  {
    var b0 := bs[0];
    if |bs| == 1 {
      OneEncoded(e, b0);
      ValueDigit(e, b0 % 4 * 16);
      assert Encode(e, bs)[..2] == [Digit(e, b0 / 4), Digit(e, b0 % 4 * 16)];
      assert bs == [b0];
    } else {
      var b1 := bs[1];
      TwoEncoded(e, b0, b1);
      ValueDigit(e, b1 % 16 * 4);
      assert Encode(e, bs)[..3] == [Digit(e, b0 / 4), Digit(e, b0 % 4 * 16 + b1 / 16), Digit(e, b1 % 16 * 4)];
      assert bs == [b0, b1];
    }
  }

  lemma SextetArithmetic(b0: Byte, b1: Byte, b2: Byte)
    ensures var x, y := b0 % 4 * 16 + b1 / 16, b1 % 16 * 4 + b2 / 64;
            && x < 64 && y < 64
            && b0 / 4 * 4 + x / 16 == b0
            && x % 16 * 16 + y / 4 == b1
            && y % 4 * 64 + b2 % 64 == b2
  {
    var x, y := b0 % 4 * 16 + b1 / 16, b1 % 16 * 4 + b2 / 64;
    assert x / 16 == b0 % 4 && x % 16 == b1 / 16;
    assert y / 4 == b1 % 16 && y % 4 == b2 / 64;
  }

  lemma GroupEncoded(e: Engine, b0: Byte, b1: Byte, b2: Byte)
    ensures DecodeGroup(e, Group(e, b0, b1, b2)) == Some([b0, b1, b2])
    ensures Group(e, b0, b1, b2)[3] != '='
  {
    SextetArithmetic(b0, b1, b2);
    ValueDigit(e, b0 / 4);
    ValueDigit(e, b0 % 4 * 16 + b1 / 16);
    ValueDigit(e, b1 % 16 * 4 + b2 / 64);
    ValueDigit(e, b2 % 64);
  }

  lemma DecodeShort(e: Engine, bs: seq<Byte>)
    requires 1 <= |bs| <= 2
    ensures Decode(e, Encode(e, bs)) == Some(bs)
  {
    var s := Encode(e, bs);
    TailEncoded(e, bs);
    if e.Standard? {
      assert s == s[..|bs| + 1] + Padding(e, 3 - |bs|);
    } else {
      assert s == s[..|bs| + 1];
    }
  }

  lemma DecodeLong(e: Engine, g: Text, rest: Text, x: seq<Byte>, y: seq<Byte>)
    requires |g| == 4 && g[3] != '=' && DecodeGroup(e, g) == Some(x) && Decode(e, rest) == Some(y)
    ensures Decode(e, g + rest) == Some(x + y)
  {
    var s := g + rest;
    assert s[..4] == g && s[4..] == rest && s[3] == g[3];
  }

  lemma {:induction false} DecodeEncode(e: Engine, bs: seq<Byte>)
    ensures Decode(e, Encode(e, bs)) == Some(bs)
  {
    var s := Encode(e, bs);
    if bs == [] {
    } else if |bs| < 3 {
      DecodeShort(e, bs);
    } else {
      var g := Group(e, bs[0], bs[1], bs[2]);
      GroupEncoded(e, bs[0], bs[1], bs[2]);
      DecodeEncode(e, bs[3..]);
      DecodeLong(e, g, Encode(e, bs[3..]), [bs[0], bs[1], bs[2]], bs[3..]);
      assert bs == [bs[0], bs[1], bs[2]] + bs[3..];
    }
  }

  // ----- encoding inverts decoding --------------------------------------------------------

  lemma TailDecoded(e: Engine, s: Text)
    requires DecodeTail(e, s).Some?
    ensures var bs := DecodeTail(e, s).value;
            1 <= |bs| <= 2 && |s| == |bs| + 1 && Encode(e, bs) == s + Padding(e, 3 - |bs|)
  {
    var bs := DecodeTail(e, s).value;
    var a, b := Value(e, s[0]).value, Value(e, s[1]).value;
    assert bs[0] / 4 == a && bs[0] % 4 == b / 16;
    if |s| == 2 {
      assert b / 16 * 16 == b;
      assert s == [s[0], s[1]];
    } else {
      var c := Value(e, s[2]).value;
      assert bs[1] / 16 == b % 16 && bs[1] % 16 == c / 4;
      assert b / 16 * 16 + b % 16 == b && c / 4 * 4 == c;
      assert s == [s[0], s[1], s[2]];
    }
  }

  lemma GroupDecoded(e: Engine, s: Text, rest: seq<Byte>)
    requires |s| == 4 && DecodeGroup(e, s).Some?
    ensures Encode(e, DecodeGroup(e, s).value + rest) == s + Encode(e, rest)
  {
    var g := DecodeGroup(e, s).value;
    var a, b, c, d := Value(e, s[0]).value, Value(e, s[1]).value, Value(e, s[2]).value, Value(e, s[3]).value;
    assert g[0] / 4 == a && g[0] % 4 == b / 16 && b / 16 * 16 + b % 16 == b;
    assert g[1] / 16 == b % 16 && g[1] % 16 == c / 4 && c / 4 * 4 + c % 4 == c;
    assert g[2] / 64 == c % 4 && g[2] % 64 == d;
    assert (g + rest)[3..] == rest;
    assert s == [s[0], s[1], s[2], s[3]];
  }

  /** Only canonical text decodes: re-encoding the bytes gives the text back. */
  lemma {:induction false} EncodeDecode(e: Engine, s: Text)
    requires Decode(e, s).Some?
    ensures Encode(e, Decode(e, s).value) == s
    decreases |s|
  {
    if s == [] {
    } else if |s| < 4 {
      TailDecoded(e, s);
    } else if e.Standard? && |s| == 4 && s[2] == '=' && s[3] == '=' {
      TailDecoded(e, s[..2]);
      assert s == s[..2] + "==";
    } else if e.Standard? && |s| == 4 && s[3] == '=' {
      TailDecoded(e, s[..3]);
      assert s == s[..3] + "=";
    } else {
      EncodeDecode(e, s[4..]);
      GroupDecoded(e, s[..4], Decode(e, s[4..]).value);
      assert s == s[..4] + s[4..];
    }
  }

  lemma {:induction false} UrlSafeNoSlash(bs: seq<Byte>)
    ensures '/' !in Encode(UrlSafe, bs)
  {
    if bs != [] {
      forall n: nat | n < 64
        ensures Digit(UrlSafe, n) != '/'
      {
        ValueDigit(UrlSafe, n);
      }
      if |bs| >= 3 { UrlSafeNoSlash(bs[3..]); }
    }
  }

  // ----- encoding by the tables and numbers of RFC 4648 ------------------------------------

  const UPPER: Text := "ABCDEFGHIJKLMNOPQRSTUVWXYZ"
  const LOWER: Text := "abcdefghijklmnopqrstuvwxyz"
  const DIGITS: Text := "0123456789"

  /** The alphabets of RFC 4648, tables 1 and 2. */
  function Table(e: Engine, n: nat): char
    requires n < 64
  {
    if n < 26 then UPPER[n]
    else if n < 52 then LOWER[n - 26]
    else if n < 62 then DIGITS[n - 52]
    else if e.Standard? then "+/"[n - 62]
    else "-_"[n - 62]
  }

  lemma UpperExactly(n: nat)
    requires n < 26
    ensures UPPER[n] as int == 65 + n
  {
  }

  lemma LowerExactly(n: nat)
    requires n < 26
    ensures LOWER[n] as int == 97 + n
  {
  }

  lemma DigitExactly(e: Engine, n: nat)
    requires n < 64
    ensures Digit(e, n) == Table(e, n)
  {
    if n < 26 {
      UpperExactly(n);
    } else if n < 52 {
      LowerExactly(n - 26);
    }
  }

  /** `s` is the number `n` in base 64, most significant digit first. */
  predicate Spells(e: Engine, s: Text, n: nat) {
    if s == [] then n == 0
    else s[|s| - 1] == Digit(e, n % 64) && Spells(e, s[..|s| - 1], n / 64)
  }

  lemma {:induction false} SpellsMore(e: Engine, s: Text, n: nat, d: nat)
    requires Spells(e, s, n) && d < 64
    ensures Spells(e, s + [Digit(e, d)], n * 64 + d)
  {
    var t := s + [Digit(e, d)];
    assert t[..|t| - 1] == s;
    assert (n * 64 + d) / 64 == n && (n * 64 + d) % 64 == d;
  }

  /** The number of a byte string, most significant byte first. */
  function Joined(bs: seq<Byte>): nat {
    if bs == [] then 0 else Joined(bs[..|bs| - 1]) * 256 + bs[|bs| - 1] as int
  }

  lemma {:induction false} JoinedShort(b0: Byte, b1: Byte, b2: Byte)
    ensures Joined([b0]) == b0 as int
    ensures Joined([b0, b1]) == b0 as int * 256 + b1 as int
    ensures Joined([b0, b1, b2]) == b0 as int * 65536 + b1 as int * 256 + b2 as int
  {
    assert [b0][..0] == [] && [b0, b1][..1] == [b0] && [b0, b1, b2][..2] == [b0, b1];
  }

  lemma {:induction false} SpellsTwo(e: Engine, a: nat, b: nat)
    requires a < 64 && b < 64
    ensures Spells(e, [Digit(e, a), Digit(e, b)], a * 64 + b)
  {
    SpellsMore(e, [], 0, a);
    SpellsMore(e, [Digit(e, a)], a, b);
    assert [] + [Digit(e, a)] == [Digit(e, a)];
    assert [Digit(e, a)] + [Digit(e, b)] == [Digit(e, a), Digit(e, b)];
  }

  lemma {:induction false} SpellsThree(e: Engine, a: nat, b: nat, c: nat)
    requires a < 64 && b < 64 && c < 64
    ensures Spells(e, [Digit(e, a), Digit(e, b), Digit(e, c)], (a * 64 + b) * 64 + c)
  {
    var s := [Digit(e, a), Digit(e, b)];
    SpellsTwo(e, a, b);
    SpellsMore(e, s, a * 64 + b, c);
    assert s + [Digit(e, c)] == [Digit(e, a), Digit(e, b), Digit(e, c)];
  }

  lemma {:induction false} SpellsFour(e: Engine, a: nat, b: nat, c: nat, d: nat)
    requires a < 64 && b < 64 && c < 64 && d < 64
    ensures Spells(e, [Digit(e, a), Digit(e, b), Digit(e, c), Digit(e, d)], ((a * 64 + b) * 64 + c) * 64 + d)
  {
    var s := [Digit(e, a), Digit(e, b), Digit(e, c)];
    SpellsThree(e, a, b, c);
    SpellsMore(e, s, (a * 64 + b) * 64 + c, d);
    assert s + [Digit(e, d)] == [Digit(e, a), Digit(e, b), Digit(e, c), Digit(e, d)];
  }

  lemma {:induction false} GroupSpells(e: Engine, b0: Byte, b1: Byte, b2: Byte)
    ensures Spells(e, Group(e, b0, b1, b2), Joined([b0, b1, b2]))
  {
    var x, y := b0 % 4 * 16 + b1 / 16, b1 % 16 * 4 + b2 / 64;
    SpellsFour(e, b0 / 4, x, y, b2 % 64);
    JoinedShort(b0, b1, b2);
    assert ((b0 / 4 * 64 + x) * 64 + y) * 64 + b2 % 64 == b0 as int * 65536 + b1 as int * 256 + b2 as int;
  }

  /** Every three bytes are the four digits of their number. */
  lemma {:induction false} EncodedGroup(e: Engine, bs: seq<Byte>, k: nat)
    requires 3 * k + 3 <= |bs|
    ensures |Encode(e, bs)| >= 4 * k + 4
    ensures Spells(e, Encode(e, bs)[4 * k..4 * k + 4], Joined(bs[3 * k..3 * k + 3]))
  {
    var g, rest := Group(e, bs[0], bs[1], bs[2]), Encode(e, bs[3..]);
    assert Encode(e, bs) == g + rest;
    if k == 0 {
      GroupSpells(e, bs[0], bs[1], bs[2]);
      assert (g + rest)[0..4] == g && bs[0..3] == [bs[0], bs[1], bs[2]];
    } else {
      EncodedGroup(e, bs[3..], k - 1);
      assert (g + rest)[4 * k..4 * k + 4] == rest[4 * (k - 1)..4 * (k - 1) + 4];
      assert bs[3..][3 * (k - 1)..3 * (k - 1) + 3] == bs[3 * k..3 * k + 3];
    }
  }

  /** One or two last bytes are two or three digits of their number, filled up with zero bits, and, in the
      standard alphabet, equals signs up to four characters. */
  predicate TailSpelled(e: Engine, s: Text, last: seq<Byte>)
    requires |last| < 3
  {
    if |last| == 0 then s == []
    else if |last| == 1 then
      |s| >= 2 && Spells(e, s[..2], Joined(last) * 16) && s[2..] == if e.Standard? then "==" else ""
    else
      |s| >= 3 && Spells(e, s[..3], Joined(last) * 4) && s[3..] == if e.Standard? then "=" else ""
  }

  lemma {:induction false} OneSpelled(e: Engine, b0: Byte)
    ensures TailSpelled(e, Encode(e, [b0]), [b0])
  {
    var t := [Digit(e, b0 / 4), Digit(e, b0 % 4 * 16)];
    SpellsTwo(e, b0 / 4, b0 % 4 * 16);
    JoinedShort(b0, 0, 0);
    assert b0 / 4 * 64 + b0 % 4 * 16 == b0 as int * 16;
    assert Encode(e, [b0])[..2] == t;
  }

  lemma {:induction false} TwoSpelled(e: Engine, b0: Byte, b1: Byte)
    ensures TailSpelled(e, Encode(e, [b0, b1]), [b0, b1])
  {
    var x, y := b0 % 4 * 16 + b1 / 16, b1 % 16 * 4;
    var t := [Digit(e, b0 / 4), Digit(e, x), Digit(e, y)];
    SpellsThree(e, b0 / 4, x, y);
    JoinedShort(b0, b1, 0);
    assert (b0 / 4 * 64 + x) * 64 + y == (b0 as int * 256 + b1 as int) * 4;
    assert Encode(e, [b0, b1])[..3] == t;
  }

  /** Behind the first group stands the encoding of the bytes behind the first three. */
  lemma {:induction false} AfterGroup(e: Engine, bs: seq<Byte>)
    requires |bs| >= 3 && |Encode(e, bs[3..])| >= 4 * (|bs[3..]| / 3)
    ensures var k, rest := |bs| / 3, Encode(e, bs[3..]);
      && |bs[3..]| / 3 == k - 1 && |Encode(e, bs)| >= 4 * k
      && Encode(e, bs)[4 * k..] == rest[4 * (k - 1)..] && bs[3 * k..] == bs[3..][3 * (k - 1)..]
  {
    var g, rest, k := Group(e, bs[0], bs[1], bs[2]), Encode(e, bs[3..]), |bs| / 3;
    assert Encode(e, bs) == g + rest;
    assert |bs| == |bs[3..]| + 3;
  }

  lemma {:induction false} EncodedTail(e: Engine, bs: seq<Byte>)
    ensures var k := |bs| / 3; |Encode(e, bs)| >= 4 * k && TailSpelled(e, Encode(e, bs)[4 * k..], bs[3 * k..])
  {
    var s := Encode(e, bs);
    if |bs| < 3 {
      assert s[0..] == s && bs[0..] == bs;
      if |bs| == 1 {
        assert bs == [bs[0]];
        OneSpelled(e, bs[0]);
      } else if |bs| == 2 {
        assert bs == [bs[0], bs[1]];
        TwoSpelled(e, bs[0], bs[1]);
      }
    } else {
      EncodedTail(e, bs[3..]);
      AfterGroup(e, bs);
    }
  }
}
