/** Canonical JSON (hash.rs): member sorting at every depth, and the text that is hashed.

    `serde_json` is built with `preserve_order`, so an object is the list of its members in insertion
    order, with distinct keys.  A number is represented by the text `serde_json` prints for it. */
module CanonicalJson {
  import opened Texts
  import opened Sorting

  datatype Json =
    | Null
    | Bool(b: bool)
    | Number(text: Text)
    | Str(s: Text)
    | Array(items: seq<Json>)
    | Object(members: seq<Member>)

  datatype Member = Member(key: Text, value: Json)

  function Keys(ms: seq<Member>): set<Text> {
    set m | m in ms :: m.key
  }

  predicate DistinctKeys(ms: seq<Member>) {
    forall i, j :: 0 <= i < j < |ms| ==> ms[i].key != ms[j].key
  }

  predicate IncreasingKeys(ms: seq<Member>) {
    forall i, j :: 0 <= i < j < |ms| ==> Less(ms[i].key, ms[j].key)
  }

  /** Object keys are distinct, as in every `serde_json` value. */
  predicate Proper(v: Json) {
    match v
    case Array(items) => forall i :: 0 <= i < |items| ==> Proper(items[i])
    case Object(ms) => DistinctKeys(ms) && forall i :: 0 <= i < |ms| ==> Proper(ms[i].value)
    case _ => true
  }

  /** Members are in key order at every depth. */
  predicate Canonical(v: Json) {
    match v
    case Array(items) => forall i :: 0 <= i < |items| ==> Canonical(items[i])
    case Object(ms) => IncreasingKeys(ms) && forall i :: 0 <= i < |ms| ==> Canonical(ms[i].value)
    case _ => true
  }

  /** The same value up to the order of object members, at any depth. */
  predicate Equivalent(a: Json, b: Json) {
    match a
    case Array(xs) =>
      b.Array? && |xs| == |b.items| && forall i :: 0 <= i < |xs| ==> Equivalent(xs[i], b.items[i])
    case Object(xs) =>
      && b.Object? && Keys(xs) == Keys(b.members)
      && forall i, j :: 0 <= i < |xs| && 0 <= j < |b.members| && xs[i].key == b.members[j].key
           ==> Equivalent(xs[i].value, b.members[j].value)
    case _ => a == b
  }

  // ----- sorting ------------------------------------------------------------------------

  predicate KeyLe(a: Member, b: Member) {
    LessEq(a.key, b.key)
  }

  function SortValue(v: Json): Json {
    match v
    case Array(items) => Array(SortItems(items))
    case Object(ms) => Object(Sort(KeyLe, SortMembers(ms)))
    case _ => v
  }

  function SortItems(items: seq<Json>): (r: seq<Json>)
    ensures |r| == |items|
    ensures forall i :: 0 <= i < |items| ==> r[i] == SortValue(items[i])
  {
    if items == [] then [] else [SortValue(items[0])] + SortItems(items[1..])
  }

  function SortMembers(ms: seq<Member>): (r: seq<Member>)
    ensures |r| == |ms|
    ensures forall i :: 0 <= i < |ms| ==> r[i] == Member(ms[i].key, SortValue(ms[i].value))
  {
    if ms == [] then [] else [Member(ms[0].key, SortValue(ms[0].value))] + SortMembers(ms[1..])
  }

  lemma SortMembersAppend(ms: seq<Member>, m: Member)
    ensures SortMembers(ms + [m]) == SortMembers(ms) + [Member(m.key, SortValue(m.value))]
  {
  }

  lemma SortItemsAppend(items: seq<Json>, v: Json)
    ensures SortItems(items + [v]) == SortItems(items) + [SortValue(v)]
  {
  }

  lemma {:induction false} InsertCommutes(m: Member, ms: seq<Member>)
    ensures Insert(KeyLe, Member(m.key, SortValue(m.value)), SortMembers(ms)) == SortMembers(Insert(KeyLe, m, ms))
  {
    if ms != [] && !KeyLe(m, ms[0]) {
      InsertCommutes(m, ms[1..]);
      assert SortMembers(ms)[1..] == SortMembers(ms[1..]);
      assert SortMembers(ms)[0].key == ms[0].key;
      var rest := Insert(KeyLe, m, ms[1..]);
      assert ([ms[0]] + rest)[1..] == rest;
    } else if ms != [] {
      assert ([m] + ms)[1..] == ms;
    }
  }

  /** Sorting the members first and their values afterwards, as the source does, is the same. */
  lemma {:induction false} SortCommutes(ms: seq<Member>)
    ensures Sort(KeyLe, SortMembers(ms)) == SortMembers(Sort(KeyLe, ms))
  {
    if ms != [] {
      SortCommutes(ms[1..]);
      assert SortMembers(ms)[1..] == SortMembers(ms[1..]);
      InsertCommutes(ms[0], Sort(KeyLe, ms[1..]));
    }
  }

  lemma PermutedMember(ms: seq<Member>, entries: seq<Member>, i: nat) returns (k: nat)
    requires multiset(ms) == multiset(entries) && i < |entries|
    ensures k < |ms| && ms[k] == entries[i]
  {
    assert entries[i] in multiset(ms);
    k :| k < |ms| && ms[k] == entries[i];
  }

  method SortJson(v: Json) returns (r: Json)
    ensures r == SortValue(v)
    decreases v, 1
  {
    match v {
      case Object(_) => r := SortObject(v);
      case Array(_) => r := SortArray(v);
      case _ => r := v;
    }
  }

  method SortObject(v: Json) returns (r: Json)
    requires v.Object?
    ensures r == SortValue(v)
    decreases v, 0, 1
  {
    var entries := Sort(KeyLe, v.members);
    var out := SortEntries(v, entries);
    SortCommutes(v.members);
    r := Object(out);
  }

  method SortEntries(v: Json, entries: seq<Member>) returns (out: seq<Member>)
    requires v.Object? && multiset(entries) == multiset(v.members)
    ensures out == SortMembers(entries)
    decreases v, 0, 0
  {
    out := [];
    for i := 0 to |entries|
      invariant out == SortMembers(entries[..i])
    {
      EntrySmaller(v, entries, i);
      var x := SortJson(entries[i].value);
      SortMembersAppend(entries[..i], entries[i]);
      assert entries[..i + 1] == entries[..i] + [entries[i]];
      out := out + [Member(entries[i].key, x)];
    }
    assert entries[..|entries|] == entries;
  }

  lemma EntrySmaller(v: Json, entries: seq<Member>, i: nat)
    requires v.Object? && multiset(entries) == multiset(v.members) && i < |entries|
    ensures entries[i].value < v
  {
    var k := PermutedMember(v.members, entries, i);
    assert v.members[k].value < v;
  }

  lemma SortItemsStep(items: seq<Json>, i: nat)
    requires i < |items|
    ensures SortItems(items[..i + 1]) == SortItems(items[..i]) + [SortValue(items[i])]
  {
    SortItemsAppend(items[..i], items[i]);
    assert items[..i + 1] == items[..i] + [items[i]];
  }

  method SortArray(v: Json) returns (r: Json)
    requires v.Array?
    ensures r == SortValue(v)
    decreases v, 0, 1
  {
    var out: seq<Json> := [];
    for i := 0 to |v.items|
      invariant out == SortItems(v.items[..i])
    {
      var x := SortJson(v.items[i]);
      SortItemsStep(v.items, i);
      out := out + [x];
    }
    assert v.items[..|v.items|] == v.items;
    r := Array(out);
  }

  // ----- sorted member lists --------------------------------------------------------------

  lemma BagMembers<T>(a: seq<T>, b: seq<T>, x: T)
    requires multiset(a) == multiset(b)
    ensures x in a <==> x in b
  {
    assert x in multiset(a) <==> x in multiset(b);
  }

  lemma {:induction false} InsertIncreasing(m: Member, ms: seq<Member>)
    requires IncreasingKeys(ms) && forall i :: 0 <= i < |ms| ==> ms[i].key != m.key
    ensures IncreasingKeys(Insert(KeyLe, m, ms))
  {
    TextOrder();
    if ms != [] && !KeyLe(m, ms[0]) {
      InsertIncreasing(m, ms[1..]);
      var r := Insert(KeyLe, m, ms[1..]);
      LessTotal(m.key, ms[0].key);
      forall j | 0 <= j < |r|
        ensures Less(ms[0].key, r[j].key)
      {
        assert r[j] in multiset(r);
        assert r[j] == m || r[j] in ms[1..];
      }
    } else if ms != [] {
      forall j | 0 <= j < |ms|
        ensures Less(m.key, ms[j].key)
      {
        if j > 0 { LessTransitive(m.key, ms[0].key, ms[j].key); }
      }
    }
  }

  lemma {:induction false} SortIncreasing(ms: seq<Member>)
    requires DistinctKeys(ms)
    ensures IncreasingKeys(Sort(KeyLe, ms))
  {
    if ms != [] {
      SortIncreasing(ms[1..]);
      var s := Sort(KeyLe, ms[1..]);
      forall i | 0 <= i < |s|
        ensures s[i].key != ms[0].key
      {
        BagMembers(s, ms[1..], s[i]);
      }
      InsertIncreasing(ms[0], s);
    }
  }

  lemma IncreasingDistinct(ms: seq<Member>)
    requires IncreasingKeys(ms)
    ensures DistinctKeys(ms)
  {
    forall i, j | 0 <= i < j < |ms|
      ensures ms[i].key != ms[j].key
    {
      LessAsymmetric(ms[i].key, ms[j].key);
    }
  }

  lemma SameMembers(a: seq<Member>, b: seq<Member>)
    requires IncreasingKeys(a) && IncreasingKeys(b)
    requires forall m :: m in a <==> m in b
    ensures a == b
  {
    var lt := (x: Member, y: Member) => Less(x.key, y.key);
    forall x, y | lt(x, y)
      ensures !lt(y, x)
    {
      LessAsymmetric(x.key, y.key);
    }
    IncreasingUnique(lt, a, b);
  }

  // ----- the sorted value -------------------------------------------------------------------

  lemma {:induction false} SortedCanonical(v: Json)
    requires Proper(v)
    ensures Canonical(SortValue(v)) && Proper(SortValue(v))
  {
    match v
    case Array(items) =>
      forall i | 0 <= i < |items|
        ensures Canonical(SortValue(items[i])) && Proper(SortValue(items[i]))
      {
        SortedCanonical(items[i]);
      }
    case Object(ms) =>
      var s := SortMembers(ms);
      var r := Sort(KeyLe, s);
      SortIncreasing(s);
      IncreasingDistinct(r);
      forall i | 0 <= i < |r|
        ensures Canonical(r[i].value) && Proper(r[i].value)
      {
        var k := PermutedMember(s, r, i);
        SortedCanonical(ms[k].value);
      }
    case _ =>
  }

  lemma {:induction false} SortedEquivalent(v: Json)
    requires Proper(v)
    ensures Equivalent(SortValue(v), v)
  {
    match v
    case Array(items) =>
      forall i | 0 <= i < |items|
        ensures Equivalent(SortValue(items[i]), items[i])
      {
        SortedEquivalent(items[i]);
      }
    case Object(ms) =>
      var s := SortMembers(ms);
      var r := Sort(KeyLe, s);
      SameKeys(ms, s, r);
      forall i, j | 0 <= i < |r| && 0 <= j < |ms| && r[i].key == ms[j].key
        ensures Equivalent(r[i].value, ms[j].value)
      {
        var k := PermutedMember(s, r, i);
        assert k == j;
        SortedEquivalent(ms[j].value);
      }
    case _ =>
  }

  lemma SameKeys(ms: seq<Member>, s: seq<Member>, r: seq<Member>)
    requires |s| == |ms| && forall i :: 0 <= i < |ms| ==> s[i].key == ms[i].key
    requires multiset(s) == multiset(r)
    ensures Keys(r) == Keys(ms)
  {
    forall t
      ensures t in Keys(r) <==> t in Keys(ms)
    {
      if t in Keys(r) {
        var m :| m in r && m.key == t;
        BagMembers(s, r, m);
        var i :| 0 <= i < |s| && s[i] == m;
        assert ms[i] in ms;
      }
      if t in Keys(ms) {
        var m :| m in ms && m.key == t;
        var i :| 0 <= i < |ms| && ms[i] == m;
        BagMembers(s, r, s[i]);
        assert s[i] in s;
      }
    }
  }

  lemma KeyAt(ms: seq<Member>, t: Text) returns (i: nat)
    requires t in Keys(ms)
    ensures i < |ms| && ms[i].key == t
  {
    var m :| m in ms && m.key == t;
    i :| i < |ms| && ms[i] == m;
  }

  lemma ObjectsSort(xs: seq<Member>, ys: seq<Member>)
    requires DistinctKeys(xs) && DistinctKeys(ys) && Keys(xs) == Keys(ys)
    requires forall i, j :: 0 <= i < |xs| && 0 <= j < |ys| && xs[i].key == ys[j].key
               ==> SortValue(xs[i].value) == SortValue(ys[j].value)
    ensures Sort(KeyLe, SortMembers(xs)) == Sort(KeyLe, SortMembers(ys))
  {
    var s, t := SortMembers(xs), SortMembers(ys);
    SortIncreasing(s);
    SortIncreasing(t);
    forall m
      ensures m in Sort(KeyLe, s) <==> m in Sort(KeyLe, t)
    {
      BagMembers(s, Sort(KeyLe, s), m);
      BagMembers(t, Sort(KeyLe, t), m);
      if m in s {
        var i :| 0 <= i < |s| && s[i] == m;
        assert xs[i] in xs;
        var j := KeyAt(ys, xs[i].key);
        assert t[j] == m;
      }
      if m in t {
        var j :| 0 <= j < |t| && t[j] == m;
        assert ys[j] in ys;
        var i := KeyAt(xs, ys[j].key);
        assert s[i] == m;
      }
    }
    SameMembers(Sort(KeyLe, s), Sort(KeyLe, t));
  }

  lemma SortedKeys(ms: seq<Member>)
    ensures Keys(Sort(KeyLe, SortMembers(ms))) == Keys(ms)
  {
    SameKeys(ms, SortMembers(ms), Sort(KeyLe, SortMembers(ms)));
  }

  lemma ObjectsUnsort(xs: seq<Member>, ys: seq<Member>, i: nat, j: nat)
    requires DistinctKeys(ys) && multiset(SortMembers(xs)) == multiset(SortMembers(ys))
    requires i < |xs| && j < |ys| && xs[i].key == ys[j].key
    ensures SortValue(xs[i].value) == SortValue(ys[j].value)
  {
    SameKeySameMember(SortMembers(xs), SortMembers(ys), i, j);
  }

  lemma SameKeySameMember(s: seq<Member>, t: seq<Member>, i: nat, j: nat)
    requires multiset(s) == multiset(t) && DistinctKeys(t)
    requires i < |s| && j < |t| && s[i].key == t[j].key
    ensures s[i] == t[j]
  {
    var k := PermutedMember(t, s, i);
    assert k == j;
  }

  /** Members with equal keys pass `p`; `Equivalent` and "sort alike" are both of this form. */
  ghost predicate Matched(xs: seq<Member>, ys: seq<Member>, p: (Json, Json) -> bool) {
    && Keys(xs) == Keys(ys)
    && forall i, j :: 0 <= i < |xs| && 0 <= j < |ys| && xs[i].key == ys[j].key ==> p(xs[i].value, ys[j].value)
  }

  function SortAlike(): (Json, Json) -> bool {
    (x: Json, y: Json) => SortValue(x) == SortValue(y)
  }

  lemma MatchedSort(xs: seq<Member>, ys: seq<Member>)
    requires DistinctKeys(xs) && DistinctKeys(ys) && Matched(xs, ys, SortAlike())
    ensures Sort(KeyLe, SortMembers(xs)) == Sort(KeyLe, SortMembers(ys))
  {
    forall i, j | 0 <= i < |xs| && 0 <= j < |ys| && xs[i].key == ys[j].key
      ensures SortValue(xs[i].value) == SortValue(ys[j].value)
    {
      assert SortAlike()(xs[i].value, ys[j].value);
    }
    ObjectsSort(xs, ys);
  }

  lemma SortMatched(xs: seq<Member>, ys: seq<Member>)
    requires DistinctKeys(xs) && DistinctKeys(ys)
    requires Sort(KeyLe, SortMembers(xs)) == Sort(KeyLe, SortMembers(ys))
    ensures Matched(xs, ys, SortAlike())
  {
    SortedKeys(xs);
    SortedKeys(ys);
    assert multiset(SortMembers(xs)) == multiset(SortMembers(ys));
    forall i, j | 0 <= i < |xs| && 0 <= j < |ys| && xs[i].key == ys[j].key
      ensures SortAlike()(xs[i].value, ys[j].value)
    {
      ObjectsUnsort(xs, ys, i, j);
    }
  }

  lemma ObjectsMatched(xs: seq<Member>, ys: seq<Member>)
    requires DistinctKeys(xs) && DistinctKeys(ys)
    ensures SortValue(Object(xs)) == SortValue(Object(ys)) <==> Matched(xs, ys, SortAlike())
  {
    if Matched(xs, ys, SortAlike()) {
      MatchedSort(xs, ys);
    }
    if Sort(KeyLe, SortMembers(xs)) == Sort(KeyLe, SortMembers(ys)) {
      SortMatched(xs, ys);
    }
  }

  /** Two values get the same canonical form exactly when they differ only in member order. */
  lemma {:induction false} SortDecides(a: Json, b: Json)
    requires Proper(a) && Proper(b)
    ensures SortValue(a) == SortValue(b) <==> Equivalent(a, b)
    decreases a
  {
    match a
    case Array(xs) =>
      if b.Array? && |xs| == |b.items| {
        forall i | 0 <= i < |xs|
          ensures SortValue(xs[i]) == SortValue(b.items[i]) <==> Equivalent(xs[i], b.items[i])
        {
          SortDecides(xs[i], b.items[i]);
        }
        if Equivalent(a, b) {
          assert SortItems(xs) == SortItems(b.items);
        }
      } else if b.Array? {
        assert |SortItems(xs)| != |SortItems(b.items)|;
      }
    case Object(xs) =>
      if b.Object? {
        var ys := b.members;
        forall i, j | 0 <= i < |xs| && 0 <= j < |ys|
          ensures SortValue(xs[i].value) == SortValue(ys[j].value) <==> Equivalent(xs[i].value, ys[j].value)
        {
          SortDecides(xs[i].value, ys[j].value);
        }
        ObjectsMatched(xs, ys);
      }
    case _ =>
  }

  lemma SortIdempotent(v: Json)
    requires Proper(v)
    ensures SortValue(SortValue(v)) == SortValue(v)
  {
    SortedCanonical(v);
    SortedEquivalent(v);
    SortDecides(SortValue(v), v);
  }

  /** The canonical form is the only value that is in order and differs from `v` in order alone. */
  lemma CanonicalUnique(v: Json, c: Json)
    requires Proper(v) && Proper(c)
    ensures c == SortValue(v) <==> Canonical(c) && Equivalent(c, v)
  {
    SortedCanonical(v);
    SortedEquivalent(v);
    if Canonical(c) && Equivalent(c, v) {
      SortDecides(c, v);
      CanonicalFixed(c);
    }
  }

  lemma {:induction false} CanonicalFixed(c: Json)
    requires Canonical(c)
    ensures SortValue(c) == c
  {
    match c
    case Array(items) =>
      forall i | 0 <= i < |items|
        ensures SortValue(items[i]) == items[i]
      {
        CanonicalFixed(items[i]);
      }
      assert SortItems(items) == items;
    case Object(ms) =>
      forall i | 0 <= i < |ms|
        ensures SortValue(ms[i].value) == ms[i].value
      {
        CanonicalFixed(ms[i].value);
      }
      assert SortMembers(ms) == ms;
      IncreasingDistinct(ms);
      SortIncreasing(ms);
      forall m
        ensures m in Sort(KeyLe, ms) <==> m in ms
      {
        BagMembers(Sort(KeyLe, ms), ms, m);
      }
      SameMembers(Sort(KeyLe, ms), ms);
    case _ =>
  }
}
