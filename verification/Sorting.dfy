/** Sorting as the standard library performs it, and the uniqueness of sorted lists.

    Every ordered collection of the repository (`BTreeMap`, `BTreeSet`, `Vec::sort`) is determined
    by its elements; the lemmas at the end say so once and for all. */
module Sorting {
  import opened Texts

  ghost predicate TotalOrder<T(!new)>(le: (T, T) -> bool) {
    && (forall a, b {:trigger le(a, b)} :: le(a, b) || le(b, a))
    && (forall a, b {:trigger le(a, b), le(b, a)} :: le(a, b) && le(b, a) ==> a == b)
    && (forall a, b, c {:trigger le(a, b), le(b, c)} :: le(a, b) && le(b, c) ==> le(a, c))
  }

  ghost predicate Sorted<T>(le: (T, T) -> bool, s: seq<T>) {
    forall i, j :: 0 <= i < j < |s| ==> le(s[i], s[j])
  }

  predicate Distinct<T(==)>(s: seq<T>) {
    forall i, j :: 0 <= i < j < |s| ==> s[i] != s[j]
  }

  function Elements<T>(s: seq<T>): set<T> {
    set x | x in s
  }

  function Insert<T>(le: (T, T) -> bool, x: T, s: seq<T>): (r: seq<T>)
    ensures multiset(r) == multiset(s) + multiset{x}
  {
    if s == [] then [x]
    else if le(x, s[0]) then [x] + s
    else
      assert s == [s[0]] + s[1..];
      [s[0]] + Insert(le, x, s[1..])
  }

  /** `slice::sort_by` */
  function Sort<T>(le: (T, T) -> bool, s: seq<T>): (r: seq<T>)
    ensures multiset(r) == multiset(s)
  {
    if s == [] then []
    else
      assert s == [s[0]] + s[1..];
      Insert(le, s[0], Sort(le, s[1..]))
  }

  /** `Vec::dedup`: drop every element equal to its predecessor. */
  function Dedup<T(==)>(s: seq<T>): (r: seq<T>)
    ensures s != [] ==> r != [] && r[0] == s[0]
    ensures |r| <= |s|
  {
    if |s| <= 1 then s
    else if s[0] == s[1] then Dedup(s[1..])
    else [s[0]] + Dedup(s[1..])
  }

  lemma {:induction false} InsertSorted<T(!new)>(le: (T, T) -> bool, x: T, s: seq<T>)
    requires TotalOrder(le) && Sorted(le, s)
    ensures Sorted(le, Insert(le, x, s))
  {
    if s != [] && !le(x, s[0]) {
      InsertSorted(le, x, s[1..]);
      var r := Insert(le, x, s[1..]);
      forall j | 0 <= j < |r|
        ensures le(s[0], r[j])
      {
        assert r[j] in multiset(r);
        assert r[j] == x || r[j] in s[1..];
      }
    }
  }

  lemma {:induction false} SortSorted<T(!new)>(le: (T, T) -> bool, s: seq<T>)
    requires TotalOrder(le)
    ensures Sorted(le, Sort(le, s))
  {
    if s != [] {
      SortSorted(le, s[1..]);
      InsertSorted(le, s[0], Sort(le, s[1..]));
    }
  }

  lemma SortElements<T(!new)>(le: (T, T) -> bool, s: seq<T>)
    ensures Elements(Sort(le, s)) == Elements(s)
  {
    forall x
      ensures x in Sort(le, s) <==> x in s
    {
      assert x in multiset(Sort(le, s)) <==> x in multiset(s);
    }
  }

  lemma {:induction false} DedupElements<T>(s: seq<T>)
    ensures Elements(Dedup(s)) == Elements(s)
  {
    if |s| <= 1 {
      assert Dedup(s) == s;
    } else {
      DedupElements(s[1..]);
      assert s == [s[0]] + s[1..];
      assert Elements(s) == {s[0]} + Elements(s[1..]);
      if s[0] == s[1] {
        assert s[0] == s[1..][0];
        assert Elements(s) == Elements(s[1..]);
      } else {
        var r := Dedup(s[1..]);
        assert Elements([s[0]] + r) == {s[0]} + Elements(r);
      }
    }
  }

  /** In a sorted list equal elements are adjacent, so `dedup` leaves no duplicate. */
  lemma {:induction false} DedupSorted<T(!new)>(le: (T, T) -> bool, s: seq<T>)
    requires TotalOrder(le) && Sorted(le, s)
    ensures Sorted(le, Dedup(s)) && Distinct(Dedup(s))
  {
    if |s| > 1 {
      var r := Dedup(s[1..]);
      DedupSorted(le, s[1..]);
      DedupElements(s[1..]);
      if s[0] != s[1] {
        forall j | 0 <= j < |r|
          ensures le(s[0], r[j]) && s[0] != r[j]
        {
          assert r[j] in Elements(r);
          assert r[j] in s[1..];
          var k :| 1 <= k < |s| && s[k] == r[j];
          assert le(s[1], s[k]) || k == 1;
        }
      }
    }
  }

  ghost predicate Increasing<T>(lt: (T, T) -> bool, a: seq<T>) {
    forall i, j :: 0 <= i < j < |a| ==> lt(a[i], a[j])
  }

  lemma IncreasingTail<T(!new)>(lt: (T, T) -> bool, a: seq<T>, x: T)
    requires (forall u, v :: lt(u, v) ==> !lt(v, u)) && Increasing(lt, a) && a != []
    ensures x in a[1..] <==> x in a && x != a[0]
    ensures x in a[1..] ==> lt(a[0], x)
  {
    if x in a[1..] {
      var j :| 1 <= j < |a| && a[j] == x;
      assert lt(a[0], a[j]);
    }
  }

  /** Two strictly increasing lists with the same elements are the same list. */
  lemma {:induction false} IncreasingUnique<T(!new)>(lt: (T, T) -> bool, a: seq<T>, b: seq<T>)
    requires forall u, v :: lt(u, v) ==> !lt(v, u)
    requires Increasing(lt, a) && Increasing(lt, b) && forall x :: x in a <==> x in b
    ensures a == b
  {
    assert a != [] ==> a[0] in b;
    assert b != [] ==> b[0] in a;
    if a != [] {
      IncreasingTail(lt, a, b[0]);
      IncreasingTail(lt, b, a[0]);
      forall x
        ensures x in a[1..] <==> x in b[1..]
      {
        IncreasingTail(lt, a, x);
        IncreasingTail(lt, b, x);
      }
      IncreasingUnique(lt, a[1..], b[1..]);
      assert a == [a[0]] + a[1..] && b == [b[0]] + b[1..];
    }
  }

  lemma SortedSetUnique<T(!new)>(le: (T, T) -> bool, a: seq<T>, b: seq<T>)
    requires TotalOrder(le)
    requires Sorted(le, a) && Distinct(a) && Sorted(le, b) && Distinct(b)
    requires Elements(a) == Elements(b)
    ensures a == b
  {
    forall x
      ensures x in a <==> x in b
    {
      assert x in Elements(a) <==> x in Elements(b);
    }
    IncreasingUnique((x, y) => le(x, y) && x != y, a, b);
  }

  lemma SameLeast<T(!new)>(le: (T, T) -> bool, a: seq<T>, b: seq<T>)
    requires TotalOrder(le) && Sorted(le, a) && Sorted(le, b)
    requires a != [] && b != [] && a[0] in b && b[0] in a
    ensures a[0] == b[0]
  {
    var i :| 0 <= i < |b| && b[i] == a[0];
    var j :| 0 <= j < |a| && a[j] == b[0];
    assert le(a[0], a[j]) || j == 0;
    assert le(b[0], b[i]) || i == 0;
  }

  lemma SameTail<T>(a: seq<T>, b: seq<T>)
    requires a != [] && b != [] && a[0] == b[0] && multiset(a) == multiset(b)
    ensures multiset(a[1..]) == multiset(b[1..])
  {
    assert a == [a[0]] + a[1..] && b == [b[0]] + b[1..];
    assert multiset(a[1..]) == multiset(a) - multiset{a[0]};
    assert multiset(b[1..]) == multiset(b) - multiset{a[0]};
  }

  /** Sorting forgets the input order: permutations sort to the same list, and only they do. */
  lemma {:induction false} SortedBagUnique<T(!new)>(le: (T, T) -> bool, a: seq<T>, b: seq<T>)
    requires TotalOrder(le) && Sorted(le, a) && Sorted(le, b)
    requires multiset(a) == multiset(b)
    ensures a == b
  {
    assert |multiset(a)| == |a| && |multiset(b)| == |b|;
    if a != [] && b != [] {
      assert a[0] in multiset(b) && b[0] in multiset(a);
      SameLeast(le, a, b);
      SameTail(a, b);
      SortedBagUnique(le, a[1..], b[1..]);
      assert a == [a[0]] + a[1..] && b == [b[0]] + b[1..];
    }
  }

  lemma SortPermutation<T(!new)>(le: (T, T) -> bool, a: seq<T>, b: seq<T>)
    requires TotalOrder(le)
    ensures Sort(le, a) == Sort(le, b) <==> multiset(a) == multiset(b)
  {
    SortSorted(le, a);
    SortSorted(le, b);
    if multiset(a) == multiset(b) {
      SortedBagUnique(le, Sort(le, a), Sort(le, b));
    }
  }

  // ----- bags --------------------------------------------------------------------

  function Map<A, B>(f: A -> B, s: seq<A>): (r: seq<B>)
    ensures |r| == |s|
    ensures forall i :: 0 <= i < |s| ==> r[i] == f(s[i])
  {
    if s == [] then [] else [f(s[0])] + Map(f, s[1..])
  }

  lemma {:induction false} MapAppend<A, B>(f: A -> B, s: seq<A>, t: seq<A>)
    ensures Map(f, s + t) == Map(f, s) + Map(f, t)
  {
    if s == [] {
      assert s + t == t;
    } else {
      assert (s + t)[1..] == s[1..] + t;
      MapAppend(f, s[1..], t);
    }
  }

  lemma MapRemove<A, B>(f: A -> B, s: seq<A>, k: nat) returns (rest: seq<A>)
    requires k < |s|
    ensures multiset(s) == multiset(rest) + multiset{s[k]}
    ensures multiset(Map(f, s)) == multiset(Map(f, rest)) + multiset{f(s[k])}
    ensures |rest| < |s|
  {
    var front, back := s[..k], s[k + 1..];
    rest := front + back;
    assert s == front + ([s[k]] + back);
    MapAppend(f, front, [s[k]] + back);
    MapAppend(f, [s[k]], back);
    MapAppend(f, front, back);
    assert Map(f, [s[k]]) == [f(s[k])];
  }

  lemma BagCancel<T>(r: multiset<T>, s: multiset<T>, x: T)
    requires r + multiset{x} == s + multiset{x}
    ensures r == s
  {
    assert r == r + multiset{x} - multiset{x};
    assert s == s + multiset{x} - multiset{x};
  }

  lemma IndexIn<T>(a: seq<T>, b: seq<T>) returns (k: nat)
    requires multiset(a) == multiset(b) && a != []
    ensures k < |b| && b[k] == a[0]
  {
    assert a[0] in multiset(b);
    k :| 0 <= k < |b| && b[k] == a[0];
  }

  lemma EmptyBag<T>(a: seq<T>)
    requires multiset(a) == multiset([])
    ensures a == []
  {
    assert |multiset(a)| == |a|;
  }

  /** Mapping respects bag equality. */
  lemma {:induction false} MapBag<A, B>(f: A -> B, a: seq<A>, b: seq<A>)
    requires multiset(a) == multiset(b)
    ensures multiset(Map(f, a)) == multiset(Map(f, b))
    decreases |a|
  {
    if a == [] {
      EmptyBag(b);
    } else {
      var k := IndexIn(a, b);
      var restA := MapRemove(f, a, 0);
      var restB := MapRemove(f, b, k);
      BagCancel(multiset(restA), multiset(restB), a[0]);
      MapBag(f, restA, restB);
    }
  }

  // ----- strings -----------------------------------------------------------------

  lemma TextOrder()
    ensures TotalOrder(LessEq)
  {
    forall a: Text, b: Text
      ensures LessEq(a, b) || LessEq(b, a)
      ensures LessEq(a, b) && LessEq(b, a) ==> a == b
    {
      LessTotal(a, b);
      if Less(a, b) { LessAsymmetric(a, b); }
    }
    forall a: Text, b: Text, c: Text | LessEq(a, b) && LessEq(b, c)
      ensures LessEq(a, c)
    {
      if a != b && b != c { LessTransitive(a, b, c); }
    }
  }

  lemma LessEqThrough(a: Text, b: Text, c: Text)
    requires !LessEq(b, a) && LessEq(b, c)
    ensures LessEq(a, c)
  {
    LessTotal(a, b);
    if b != c { LessTransitive(a, b, c); }
  }

  lemma {:induction false} LeastText(s: set<Text>) returns (m: Text)
    requires s != {}
    ensures m in s && forall y :: y in s ==> LessEq(m, y)
  {
    var x :| x in s;
    m := x;
    if s - {x} != {} {
      var least := LeastText(s - {x});
      if LessEq(least, x) {
        m := least;
      } else {
        forall y | y in s - {x}
          ensures LessEq(x, y)
        {
          LessEqThrough(x, least, y);
        }
      }
    }
    assert forall y :: y in s ==> y == x || y in s - {x};
  }

  lemma LeastExists(s: set<Text>)
    requires s != {}
    ensures exists m :: m in s && forall y :: y in s ==> LessEq(m, y)
  {
    var m := LeastText(s);
  }

  function Least(s: set<Text>): (m: Text)
    requires s != {}
    ensures m in s && forall y :: y in s ==> LessEq(m, y)
  {
    LeastExists(s);
    TextOrder();
    var m :| m in s && forall y :: y in s ==> LessEq(m, y);
    m
  }

  /** The iteration order of a `BTreeSet<String>`. */
  function InOrder(s: set<Text>): (r: seq<Text>)
    ensures Elements(r) == s
    ensures |r| == |s|
  {
    if s == {} then []
    else
      var m := Least(s);
      var rest := InOrder(s - {m});
      assert forall x :: x in [m] + rest <==> x == m || x in Elements(rest);
      [m] + rest
  }

  lemma {:induction false} InOrderSorted(s: set<Text>)
    ensures Sorted(LessEq, InOrder(s)) && Distinct(InOrder(s))
  {
    if s != {} {
      var m := Least(s);
      InOrderSorted(s - {m});
      var r := InOrder(s - {m});
      forall j | 0 <= j < |r|
        ensures LessEq(m, r[j]) && m != r[j]
      {
        assert r[j] in Elements(r);
      }
    }
  }
}
