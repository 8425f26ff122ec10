/**
 Trie nodes as RLP items, and the references that an item tree holds. A child
 whose encoding has 32 bytes or more is replaced by its hash and stored apart;
 a shorter one is part of its parent's item.
 */
module TrieItem {
  import opened Bytes
  import opened Rlp
  import opened TrieNode
  import HexPrefix
  import Multisets

  /** The hash of an encoded node, on the item that is encoded. */
  type Hasher = Item -> bytes

  /** No two items have the same hash, and a hash is not the empty string. */
  ghost predicate CollisionFree(h: Hasher) {
    (forall a, b :: h(a) == h(b) ==> a == b) && forall a :: h(a) != []
  }

  const NULL_ITEM: Item := Data([])

  predicate IsEmpty(it: Item) {
    it == Data([]) || it == List([])
  }

  /** A node of at least this many bytes is stored by its hash. */
  const HASHED: nat := 32

  function ItemOf(n: Node, h: Hasher): (it: Item)
    decreases n, 0
  {
    match n
    case Empty => NULL_ITEM
    case Leaf(k, v) => List([Data(HexPrefix.Encode(k, true)), Data(v)])
    case Extension(k, c) => List([Data(HexPrefix.Encode(k, false)), Ref(c, h)])
    case Branch(slots, v) => List(Refs(slots, h) + [Data(v)])
  }

  /** How a parent mentions a node. */
  function Ref(n: Node, h: Hasher): (it: Item)
    decreases n, 1
  {
    RefTo(ItemOf(n, h), h)
  }

  function RefTo(it: Item, h: Hasher): Item {
    if Size(it) < HASHED then it else Data(h(it))
  }

  function Refs(ns: seq<Node>, h: Hasher): (its: seq<Item>)
    ensures |its| == |ns|
    ensures forall i :: 0 <= i < |ns| ==> its[i] == Ref(ns[i], h)
    decreases ns, 0
  {
    if ns == [] then [] else [Ref(ns[0], h)] + Refs(ns[1..], h)
  }

  /** A slot is empty in the item exactly when it is empty in the node. */
  lemma {:induction false} RefNull(n: Node, h: Hasher)
    requires CollisionFree(h)
    ensures IsEmpty(Ref(n, h)) <==> n == Empty
    ensures Ref(n, h) == NULL_ITEM <==> n == Empty
    ensures n != Empty ==> ItemOf(n, h).List?
    ensures ItemOf(n, h) == NULL_ITEM <==> n == Empty
  {
  }

  // --------------------------------------------------- values taken for hashes

  function Zeros(n: nat): bytes {
    if n == 0 then [] else [0] + Zeros(n - 1)
  }

  /** A string of at most 32 bytes as a hash: aligned to the right. */
  function AsHash(v: bytes): bytes
    requires |v| <= HASHED
  {
    Zeros(HASHED - |v|) + v
  }

  predicate IsPair(it: Item) {
    it.List? && |it.items| == 2
  }

  /** Asking whether a value is a reference to a pair throws, or may answer yes. */
  ghost predicate Mistaken(v: bytes, h: Hasher) {
    |v| > HASHED || exists it :: IsPair(it) && h(it) == AsHash(v)
  }

  ghost function TakenForPair(h: Hasher): Hazard {
    iset v | Mistaken(v, h)
  }

  // -------------------------------------------------------------- references

  /** The stored nodes strictly below `n`, one entry for every occurrence. */
  ghost function RefsBelow(n: Node, h: Hasher): multiset<bytes>
    decreases n, 0
  {
    match n
    case Empty => multiset{}
    case Leaf(_, _) => multiset{}
    case Extension(_, c) => RefsOf(c, h)
    case Branch(slots, _) => RefsAll(slots, h)
  }

  /** The entry for `n` itself, when it is stored apart from its parent. */
  ghost function Own(n: Node, h: Hasher): multiset<bytes>
    decreases n, 1
  {
    if Size(ItemOf(n, h)) < HASHED then multiset{} else multiset{h(ItemOf(n, h))}
  }

  ghost function RefsOf(n: Node, h: Hasher): multiset<bytes>
    decreases n, 2
  {
    RefsBelow(n, h) + Own(n, h)
  }

  // --------------------------------------------------------- by their encodings

  /** A node of up to 31 bytes is part of its parent, one of 32 bytes or more is mentioned by its hash and stored. */
  lemma {:induction false} RefByBytes(n: Node, h: Hasher)
    requires Fits(ItemOf(n, h))
    ensures |Rlp.Encode(ItemOf(n, h))| <= 31 ==> Ref(n, h) == ItemOf(n, h) && RefsOf(n, h) == RefsBelow(n, h)
    ensures |Rlp.Encode(ItemOf(n, h))| >= 32 ==>
      Ref(n, h) == Data(h(ItemOf(n, h))) && RefsOf(n, h) == RefsBelow(n, h) + multiset{h(ItemOf(n, h))}
  {
    assert RefsBelow(n, h) + multiset{} == RefsBelow(n, h);
  }

  /** A leaf of exactly 32 bytes: three nibbles of a key and a value of 27 bytes. */
  lemma {:induction false} LeafOf32(k: Nibbles, v: bytes, h: Hasher)
    requires |k| == 3 && |v| == 27
    ensures Size(ItemOf(Leaf(k, v), h)) == 32
    ensures Ref(Leaf(k, v), h) == Data(h(ItemOf(Leaf(k, v), h)))
    ensures RefsOf(Leaf(k, v), h) == multiset{h(ItemOf(Leaf(k, v), h))}
  {
    PairSize(k, true, Data(v));
  }

  /** One byte less of value, and it is part of its parent. */
  lemma {:induction false} LeafOf31(k: Nibbles, v: bytes, h: Hasher)
    requires |k| == 3 && |v| == 26
    ensures Size(ItemOf(Leaf(k, v), h)) == 31
    ensures Ref(Leaf(k, v), h) == ItemOf(Leaf(k, v), h) && RefsOf(Leaf(k, v), h) == multiset{}
  {
    PairSize(k, true, Data(v));
  }

  lemma {:induction false} PairSize(k: Nibbles, leaf: bool, second: Item)
    requires |k| == 3
    ensures SizeAll([Data(HexPrefix.Encode(k, leaf)), second]) == 3 + Size(second)
  {
    HexPrefix.EncodeLength(k, leaf);
    var first := Data(HexPrefix.Encode(k, leaf));
    var both := [first, second];
    assert both[1..] == [second] && [second][1..] == [];
    assert SizeAll([second]) == Size(second) && SizeAll(both) == Size(first) + SizeAll([second]);
  }

  /** Which values are taken for a reference: more than 32 bytes, or the end of a pair's hash of 32 behind zeros. */
  lemma {:induction false} TakenByBytes(v: bytes, h: Hasher)
    ensures v in TakenForPair(h) <==> |v| > 32 || exists it :: IsPair(it) && EndsIn(h(it), v)
  {
    if |v| <= 32 {
      forall it ensures h(it) == AsHash(v) <==> EndsIn(h(it), v) { EndsInExactly(h(it), v); }
      if Mistaken(v, h) {
        var it :| IsPair(it) && h(it) == AsHash(v);
        assert EndsIn(h(it), v);
      }
      if it :| IsPair(it) && EndsIn(h(it), v) {
        assert h(it) == AsHash(v);
      }
    }
  }

  /** A hash of 32 bytes that is `v` behind zeros. */
  predicate EndsIn(hash: bytes, v: bytes) {
    |hash| == 32 && |v| <= 32 && hash[32 - |v|..] == v && forall i :: 0 <= i < 32 - |v| ==> hash[i] == 0
  }

  lemma {:induction false} EndsInExactly(hash: bytes, v: bytes)
    requires |v| <= 32
    ensures hash == AsHash(v) <==> EndsIn(hash, v)
  {
    ZerosAre(32 - |v|);
    if EndsIn(hash, v) {
      assert hash == hash[..32 - |v|] + hash[32 - |v|..];
      assert hash[..32 - |v|] == Zeros(32 - |v|);
    }
  }

  lemma {:induction false} ZerosAre(n: nat)
    ensures |Zeros(n)| == n && forall i :: 0 <= i < n ==> Zeros(n)[i] == 0
  {
    if n > 0 { ZerosAre(n - 1); }
  }

  ghost function RefsAll(ns: seq<Node>, h: Hasher): multiset<bytes>
    decreases ns, 0
  {
    if ns == [] then multiset{} else RefsOf(ns[0], h) + RefsAll(ns[1..], h)
  }

  /** The references of a whole trie: its root is always stored by its hash. */
  ghost function RefsRoot(n: Node, h: Hasher): multiset<bytes> {
    RefsBelow(n, h) + multiset{h(ItemOf(n, h))}
  }

  lemma {:induction false} RefsAllUpdate(ns: seq<Node>, i: nat, c: Node, h: Hasher)
    requires i < |ns|
    ensures RefsAll(ns[i := c], h) + RefsOf(ns[i], h) == RefsAll(ns, h) + RefsOf(c, h)
    ensures RefsOf(ns[i], h) <= RefsAll(ns, h)
    decreases ns
  {
    var rest := RefsAll(ns[1..], h);
    if i == 0 {
      assert ns[0 := c][1..] == ns[1..];
      var x, y := RefsOf(ns[0], h), RefsOf(c, h);
      assert y + rest + x == x + rest + y;
    } else {
      assert ns[i := c][1..] == ns[1..][i - 1 := c];
      RefsAllUpdate(ns[1..], i - 1, c, h);
      Multisets.AddFront(RefsOf(ns[0], h), RefsAll(ns[1..][i - 1 := c], h), RefsOf(ns[i], h), rest, RefsOf(c, h));
    }
  }

  lemma {:induction false} RefsAllEmpty(ns: seq<Node>, h: Hasher)
    requires forall i :: 0 <= i < |ns| ==> ns[i] == Empty
    ensures RefsAll(ns, h) == multiset{}
  {
    if ns != [] {
      forall i | 0 <= i < |ns[1..]| ensures ns[1..][i] == Empty { assert ns[1..][i] == ns[i + 1]; }
      RefsAllEmpty(ns[1..], h);
    }
  }

  /** A branch with one used slot refers to what that slot refers to. */
  lemma {:induction false} RefsAllSingle(ns: seq<Node>, u: nat, h: Hasher)
    requires u < |ns| && forall i :: 0 <= i < |ns| && i != u ==> ns[i] == Empty
    ensures RefsAll(ns, h) == RefsOf(ns[u], h)
  {
    RefsAllEmpty(ns[u := Empty], h);
    RefsAllUpdate(ns, u, Empty, h);
    var a, b, none := RefsAll(ns, h), RefsOf(ns[u], h), multiset{};
    assert RefsOf(Empty, h) == none by { assert Size(NULL_ITEM) == 1; }
    assert a == a + none && b == none + b;
  }

  // ------------------------------------------------------------------- stubs

  ghost predicate StubItem(it: Item) {
    it.List? && |it.items| == 17 &&
    !exists i, j :: 0 <= i < j < 17 && it.items[i] != NULL_ITEM && it.items[j] != NULL_ITEM
  }

  /** No branch with fewer than two used slots is among the references. */
  ghost predicate NoStubs(refs: multiset<bytes>, h: Hasher) {
    forall it :: StubItem(it) ==> refs[h(it)] == 0
  }

  lemma {:induction false} BranchItem(n: Node, h: Hasher, i: nat)
    requires CollisionFree(h) && n.Branch? && |n.slots| == 16 && i < 17
    ensures ItemOf(n, h).List? && |ItemOf(n, h).items| == 17
    ensures ItemOf(n, h).items[i] != NULL_ITEM <==> Used(n.slots, n.value, i)
  {
    if i < 16 { RefNull(n.slots[i], h); }
  }

  lemma {:induction false} CanonicalIsNoStub(n: Node, h: Hasher)
    requires CollisionFree(h) && Canonical(n)
    ensures !StubItem(ItemOf(n, h))
  {
    if n.Branch? {
      var i, j :| 0 <= i < j && Used(n.slots, n.value, i) && Used(n.slots, n.value, j);
      BranchItem(n, h, i);
      BranchItem(n, h, j);
    }
  }

  /** Storing a canonical node stores no stub. */
  lemma {:induction false} NoStubsAdd(refs: multiset<bytes>, n: Node, h: Hasher)
    requires CollisionFree(h) && Canonical(n) && NoStubs(refs, h)
    ensures NoStubs(refs + multiset{h(ItemOf(n, h))}, h)
  {
    CanonicalIsNoStub(n, h);
    forall it | StubItem(it) ensures (refs + multiset{h(ItemOf(n, h))})[h(it)] == 0 {
      assert h(it) != h(ItemOf(n, h));
    }
  }

  // ------------------------------------------------ a root determines its trie

  lemma {:induction false} RefInjective(a: Node, b: Node, h: Hasher)
    requires CollisionFree(h)
    requires Ref(a, h) == Ref(b, h)
    ensures ItemOf(a, h) == ItemOf(b, h)
  {
    RefNull(a, h);
    RefNull(b, h);
  }

  lemma {:induction false} ItemInjective(a: Node, b: Node, h: Hasher)
    requires CollisionFree(h) && Canonical(a) && Canonical(b)
    requires ItemOf(a, h) == ItemOf(b, h)
    ensures a == b
    decreases a
  {
    RefNull(a, h);
    RefNull(b, h);
    if a != Empty {
      assert a.Branch? <==> |ItemOf(a, h).items| == 17;
      assert b.Branch? <==> |ItemOf(b, h).items| == 17;
      if a.Branch? {
        BranchItemInjective(a, b, h);
      } else {
        PairItemInjective(a, b, h);
      }
    }
  }

  lemma {:induction false} PairItemInjective(a: Node, b: Node, h: Hasher)
    requires CollisionFree(h) && Canonical(a) && Canonical(b)
    requires ItemOf(a, h) == ItemOf(b, h) && (a.Leaf? || a.Extension?) && (b.Leaf? || b.Extension?)
    ensures a == b
    decreases a, 0
  {
    var x, y := ItemOf(a, h).items, ItemOf(b, h).items;
    assert x[0] == Data(HexPrefix.Encode(a.key, a.Leaf?)) && y[0] == Data(HexPrefix.Encode(b.key, b.Leaf?));
    HexPrefix.EncodeInjective(a.key, a.Leaf?, b.key, b.Leaf?);
    if a.Leaf? {
      assert x[1] == Data(a.value) && y[1] == Data(b.value);
    } else {
      assert x[1] == Ref(a.child, h) && y[1] == Ref(b.child, h);
      RefInjective(a.child, b.child, h);
      ItemInjective(a.child, b.child, h);
    }
  }

  lemma {:induction false} BranchItemInjective(a: Node, b: Node, h: Hasher)
    requires CollisionFree(h) && Canonical(a) && Canonical(b)
    requires ItemOf(a, h) == ItemOf(b, h) && a.Branch? && b.Branch?
    ensures a == b
    decreases a, 0
  {
    var x, y := ItemOf(a, h).items, ItemOf(b, h).items;
    assert x[16] == Data(a.value) && y[16] == Data(b.value);
    forall i | 0 <= i < 16 ensures a.slots[i] == b.slots[i] {
      assert x[i] == Ref(a.slots[i], h) && y[i] == Ref(b.slots[i], h);
      RefInjective(a.slots[i], b.slots[i], h);
      ItemInjective(a.slots[i], b.slots[i], h);
    }
    assert a.slots == b.slots;
  }

  /** Two canonical tries with the same root hash are the same trie. */
  lemma RootDeterminesTrie(a: Node, b: Node, h: Hasher)
    requires CollisionFree(h) && Canonical(a) && Canonical(b)
    requires h(ItemOf(a, h)) == h(ItemOf(b, h))
    ensures a == b
  {
    ItemInjective(a, b, h);
  }
}
