/** Content hashing: length-prefixed framing of item lists, and the input hash of a rule run.

    SHA-256 itself is a parameter `sha` (bytes to lowercase hex).  No real hash is injective, so
    where a property needs collision freedom it asks for it on the finitely many texts the
    property is about. */
module Hashing {
  import opened Texts
  import opened Sorting

  type Digest = Text -> Text

  const U64_LIMIT := 0x1_0000_0000_0000_0000

  /** The `k` low bytes of `n`, least significant first (`to_le_bytes`). */
  function LeBytes(n: nat, k: nat): (r: Text)
    ensures |r| == k
  {
    if k == 0 then [] else [(n % 256) as char] + LeBytes(n / 256, k - 1)
  }

  function Pow256(k: nat): (r: nat)
    ensures r > 0
  {
    if k == 0 then 1 else 256 * Pow256(k - 1)
  }

  /** The number a little-endian byte string stands for. */
  function LeValue(s: Text): nat {
    if s == [] then 0 else s[0] as int + 256 * LeValue(s[1..])
  }

  /** The bytes of a number, read little-endian, give the number. */
  lemma {:induction false} LeBytesValue(n: nat, k: nat)
    requires n < Pow256(k)
    ensures LeValue(LeBytes(n, k)) == n && IsBytes(LeBytes(n, k))
  {
    if k > 0 {
      LeBytesValue(n / 256, k - 1);
      assert LeBytes(n, k)[1..] == LeBytes(n / 256, k - 1);
    }
  }

  lemma EightBytes()
    ensures Pow256(8) == U64_LIMIT
  {
    assert Pow256(4) == 0x1_0000_0000;
  }

  /** What `sha256_hex_items` feeds to the hasher for one item. */
  function Frame(item: Text): Text {
    LeBytes(|item|, 8) + item
  }

  function Frames(items: seq<Text>): Text {
    if items == [] then [] else Frame(items[0]) + Frames(items[1..])
  }

  lemma {:induction false} FramesAppend(items: seq<Text>, item: Text)
    ensures Frames(items + [item]) == Frames(items) + Frame(item)
  {
    if items == [] {
      assert items + [item] == [item];
    } else {
      assert (items + [item])[1..] == items[1..] + [item];
      FramesAppend(items[1..], item);
    }
  }

  method Sha256HexItems(items: seq<Text>, sha: Digest) returns (h: Text)
    ensures h == sha(Frames(items))
  {
    var fed: Text := [];
    for i := 0 to |items|
      invariant fed == Frames(items[..i])
    {
      FramesAppend(items[..i], items[i]);
      assert items[..i + 1] == items[..i] + [items[i]];
      fed := fed + LeBytes(|items[i]|, 8);
      fed := fed + items[i];
    }
    assert items[..|items|] == items;
    h := sha(fed);
  }

  predicate FitU64(items: seq<Text>) {
    forall i :: 0 <= i < |items| ==> |items[i]| < U64_LIMIT
  }

  /** Reading a framed list back: eight bytes of length, the item, and so on. */
  function ReadFrames(s: Text): Option<seq<Text>>
    decreases |s|
  {
    if s == [] then Some([])
    else if |s| < 8 || |s| < 8 + LeValue(s[..8]) then None
    else
      var n := LeValue(s[..8]);
      match ReadFrames(s[8 + n..])
      case None => None
      case Some(rest) => Some([s[8..8 + n]] + rest)
  }

  lemma ReadFrame(item: Text, tail: Text)
    requires |item| < U64_LIMIT
    ensures var s := Frame(item) + tail;
            && |s| >= 8 + |item| && LeValue(s[..8]) == |item| && s[8..8 + |item|] == item && s[8 + |item|..] == tail
  {
    var s := Frame(item) + tail;
    EightBytes();
    LeBytesValue(|item|, 8);
    assert s[..8] == LeBytes(|item|, 8);
  }

  /** The framed list, read back, is the list. */
  lemma {:induction false} FramesRead(items: seq<Text>)
    requires FitU64(items)
    ensures ReadFrames(Frames(items)) == Some(items)
  {
    if items != [] {
      ReadFrame(items[0], Frames(items[1..]));
      FramesRead(items[1..]);
      assert items == [items[0]] + items[1..];
    }
  }

  /** So the byte stream determines the item list: `["a","b"]` and `["ab"]` cannot be confused. */
  lemma FramesInjective(xs: seq<Text>, ys: seq<Text>)
    requires FitU64(xs) && FitU64(ys)
    requires Frames(xs) == Frames(ys)
    ensures xs == ys
  {
    FramesRead(xs);
    FramesRead(ys);
  }

  /** The first sixteen hex digits. */
  function Short(h: Text): Text {
    if |h| < 16 then h else h[..16]
  }

  lemma ShortIsPrefix(h: Text)
    ensures Short(h) <= h && |Short(h)| == if |h| < 16 then |h| else 16
  {
  }

  // ----- input hash ----------------------------------------------------------------

  datatype InputGraph = InputGraph(graph: Text, path: Text, nquads: Text)

  type Item = (Text, Text)

  predicate ItemLe(a: Item, b: Item) {
    Less(a.0, b.0) || (a.0 == b.0 && LessEq(a.1, b.1))
  }

  lemma ItemOrder()
    ensures TotalOrder(ItemLe)
  {
    TextOrder();
    forall a: Item, b: Item
      ensures ItemLe(a, b) || ItemLe(b, a)
      ensures ItemLe(a, b) && ItemLe(b, a) ==> a == b
    {
      assert LessEq(a.0, b.0) || LessEq(b.0, a.0);
      assert LessEq(a.1, b.1) || LessEq(b.1, a.1);
      if Less(a.0, b.0) { LessAsymmetric(a.0, b.0); }
      if Less(b.0, a.0) { LessAsymmetric(b.0, a.0); }
      assert LessEq(a.1, b.1) && LessEq(b.1, a.1) ==> a.1 == b.1;
    }
    forall a: Item, b: Item, c: Item | ItemLe(a, b) && ItemLe(b, c)
      ensures ItemLe(a, c)
    {
      if Less(a.0, b.0) && Less(b.0, c.0) { LessTransitive(a.0, b.0, c.0); }
      assert LessEq(a.1, b.1) && LessEq(b.1, c.1) ==> LessEq(a.1, c.1);
    }
  }

  /** What is hashed of one input: its graph and the hash of its text. */
  function ItemOf(sha: Digest): InputGraph -> Item {
    (i: InputGraph) => (i.graph, sha(i.nquads))
  }

  function Items(inputs: seq<InputGraph>, sha: Digest): seq<Item> {
    Map(ItemOf(sha), inputs)
  }

  function Flatten(items: seq<Item>): seq<Text> {
    if items == [] then [] else [items[0].0, items[0].1] + Flatten(items[1..])
  }

  function InputStream(inputs: seq<InputGraph>, sha: Digest): Text {
    Frames(Flatten(Sort(ItemLe, Items(inputs, sha))))
  }

  function InputHash(inputs: seq<InputGraph>, sha: Digest): Text {
    sha(InputStream(inputs, sha))
  }

  lemma {:induction false} FlattenInjective(a: seq<Item>, b: seq<Item>)
    requires Flatten(a) == Flatten(b)
    ensures a == b
  {
    if a != [] && b != [] {
      var x, y := Flatten(a), Flatten(b);
      assert x[0] == a[0].0 && x[1] == a[0].1 && y[0] == b[0].0 && y[1] == b[0].1;
      assert x[2..] == Flatten(a[1..]) && y[2..] == Flatten(b[1..]);
      FlattenInjective(a[1..], b[1..]);
      assert a == [a[0]] + a[1..] && b == [b[0]] + b[1..];
    }
  }

  lemma {:induction false} FlattenFits(items: seq<Item>)
    requires forall i :: 0 <= i < |items| ==> |items[i].0| < U64_LIMIT && |items[i].1| < U64_LIMIT
    ensures FitU64(Flatten(items))
  {
    if items != [] {
      FlattenFits(items[1..]);
    }
  }

  predicate FitItems(items: seq<Item>) {
    forall p :: p in items ==> |p.0| < U64_LIMIT && |p.1| < U64_LIMIT
  }

  lemma SortedItemsFit(items: seq<Item>)
    requires FitItems(items)
    ensures FitU64(Flatten(Sort(ItemLe, items)))
  {
    var s := Sort(ItemLe, items);
    forall i | 0 <= i < |s|
      ensures |s[i].0| < U64_LIMIT && |s[i].1| < U64_LIMIT
    {
      assert s[i] in multiset(items);
      assert s[i] in items;
    }
    FlattenFits(s);
  }

  /** Two selections hash alike exactly when their bags of (graph, content hash) are equal, in any
      order, provided the hash does not collide on the two byte streams it is given. */
  lemma InputHashIdentifiesBag(a: seq<InputGraph>, b: seq<InputGraph>, sha: Digest)
    requires FitItems(Items(a, sha)) && FitItems(Items(b, sha))
    requires sha(InputStream(a, sha)) == sha(InputStream(b, sha)) ==> InputStream(a, sha) == InputStream(b, sha)
    ensures InputHash(a, sha) == InputHash(b, sha) <==> multiset(Items(a, sha)) == multiset(Items(b, sha))
  {
    var x, y := Items(a, sha), Items(b, sha);
    ItemOrder();
    SortPermutation(ItemLe, x, y);
    if InputHash(a, sha) == InputHash(b, sha) {
      SortedItemsFit(x);
      SortedItemsFit(y);
      FramesInjective(Flatten(Sort(ItemLe, x)), Flatten(Sort(ItemLe, y)));
      FlattenInjective(Sort(ItemLe, x), Sort(ItemLe, y));
    }
  }

  /** Listing the same inputs in another order never changes the hash, for any hash function. */
  lemma InputHashOrderFree(a: seq<InputGraph>, b: seq<InputGraph>, sha: Digest)
    requires multiset(a) == multiset(b)
    ensures InputHash(a, sha) == InputHash(b, sha)
  {
    ItemOrder();
    MapBag(ItemOf(sha), a, b);
    SortPermutation(ItemLe, Items(a, sha), Items(b, sha));
  }

  /** Items two by two. */
  function PairUp(items: seq<Text>): seq<Item> {
    if |items| < 2 then [] else [(items[0], items[1])] + PairUp(items[2..])
  }

  lemma {:induction false} FlattenPairs(x: seq<Item>)
    ensures PairUp(Flatten(x)) == x && |Flatten(x)| == 2 * |x|
  {
    if x != [] {
      FlattenPairs(x[1..]);
      assert Flatten(x)[2..] == Flatten(x[1..]);
      assert x == [x[0]] + x[1..];
    }
  }

  ghost predicate Ascending(ps: seq<Item>) {
    forall i, j :: 0 <= i < j < |ps| ==> Less(ps[i].0, ps[j].0) || (ps[i].0 == ps[j].0 && LessEq(ps[i].1, ps[j].1))
  }

  ghost function Inputs(inputs: seq<InputGraph>, sha: Digest): multiset<Item> {
    multiset(seq(|inputs|, i requires 0 <= i < |inputs| => (inputs[i].graph, sha(inputs[i].nquads))))
  }

  lemma SortedInputs(inputs: seq<InputGraph>, sha: Digest)
    ensures var s := Sort(ItemLe, Items(inputs, sha));
            |s| == |inputs| && Ascending(s) && multiset(s) == Inputs(inputs, sha)
  {
    var x := Items(inputs, sha);
    ItemOrder();
    SortSorted(ItemLe, x);
    assert x == seq(|inputs|, i requires 0 <= i < |inputs| => (inputs[i].graph, sha(inputs[i].nquads)));
    assert |Sort(ItemLe, x)| == |multiset(x)| == |x|;
  }

  /** What is hashed, read back: graph and content hash of every input, alternating, in the order of graphs. */
  lemma InputStreamRead(inputs: seq<InputGraph>, sha: Digest) returns (items: seq<Text>)
    requires FitItems(Items(inputs, sha))
    ensures ReadFrames(InputStream(inputs, sha)) == Some(items) && |items| == 2 * |inputs|
    ensures Ascending(PairUp(items)) && multiset(PairUp(items)) == Inputs(inputs, sha)
  {
    var s := Sort(ItemLe, Items(inputs, sha));
    items := Flatten(s);
    SortedItemsFit(Items(inputs, sha));
    FramesRead(items);
    FlattenPairs(s);
    SortedInputs(inputs, sha);
  }
}
