/**
 The trie over the node store: lookup, insertion and removal on stored items.
 Every method carries the node that its item stands for as a ghost and is proved
 against the operation on that node; the store's reference counts move by exactly
 the references that the node gains and loses.
 */
module TrieDb {
  import opened Bytes
  import opened Rlp
  import opened TrieNode
  import opened TrieInsert
  import opened TrieDelete
  import opened TrieItem
  import opened NodeDb
  import opened TrieContents
  import HexPrefix
  import Multisets

  /** The references change by losing `gone` and gaining `come`. */
  ghost predicate Change(before: multiset<bytes>, after: multiset<bytes>, gone: multiset<bytes>,
                         come: multiset<bytes>) {
    after + gone == before + come
  }

  /** All nodes below `n` are canonical; `n` itself may be half way through a change. */
  ghost predicate Semi(n: Node) {
    match n
    case Empty => true
    case Leaf(_, v) => v != []
    case Extension(k, c) => k != [] && c != Empty && Canonical(c)
    case Branch(slots, _) => |slots| == 16 && forall i :: 0 <= i < 16 ==> Canonical(slots[i])
  }

  /** What the item of a pair shows of it. */
  lemma {:induction false} PairShape(n: Node, h: Hasher)
    requires n.Leaf? || n.Extension?
    ensures
      var it := ItemOf(n, h);
      it.List? && |it.items| == 2 && it.items[0] == Data(HexPrefix.Encode(n.key, n.Leaf?)) &&
      it.items[1] == (if n.Leaf? then Data(n.value) else Ref(n.child, h)) &&
      it.items[0].payload != [] &&
      HexPrefix.KeyOf(it.items[0].payload) == n.key && (HexPrefix.IsLeaf(it.items[0].payload) <==> n.Leaf?)
  {
    HexPrefix.EncodeInverts(n.key, n.Leaf?);
  }

  /** The number of items tells pairs from branches. */
  lemma {:induction false} ItemCount(n: Node, h: Hasher)
    requires CollisionFree(h) && (Semi(n) || Canonical(n))
    ensures IsEmpty(ItemOf(n, h)) <==> n == Empty
    ensures n != Empty ==> ItemOf(n, h).List?
    ensures n.Leaf? || n.Extension? <==> ItemOf(n, h).List? && |ItemOf(n, h).items| == 2
    ensures n.Branch? <==> ItemOf(n, h).List? && |ItemOf(n, h).items| == 17
  {
    RefNull(n, h);
    if n.Leaf? || n.Extension? { PairShape(n, h); }
  }

  /** A pair with another key. */
  function Rekey(n: Node, k: Nibbles): Node
    requires n.Leaf? || n.Extension?
  {
    if n.Leaf? then Leaf(k, n.value) else Extension(k, n.child)
  }

  /** A pair that shares its first nibbles with `k` splits into two nodes that stay in shape. */
  lemma {:induction false} SplitShape(n: Node, k: Nibbles, s: nat)
    requires Canonical(n) && (n.Leaf? || n.Extension?) && !Admits(n, k)
    requires s == Shared(k, n.key) > 0
    ensures TrieNode.Cleve(n, s) == Extension(n.key[..s], Rekey(n, n.key[s..]))
    ensures Canonical(Rekey(n, n.key[s..]))
  {
    assert n.key == n.key[..s] + n.key[s..];
    assert s == |n.key| ==> n.key <= k;
  }

  lemma {:induction false} StubRefs(b: nibble, c: Node, ref: Item, items: seq<Item>, h: Hasher)
    requires ref == Ref(c, h) && |items| == 16
    requires forall j :: 0 <= j < 16 ==> items[j] == if j == b then ref else NULL_ITEM
    ensures items == Refs(NO_SLOTS[b := c], h)
  {
    var slots := NO_SLOTS[b := c];
    forall j | 0 <= j < 16 ensures items[j] == Refs(slots, h)[j] {
      assert slots[j] == if j == b then c else Empty;
      assert Ref(Empty, h) == NULL_ITEM by { assert Size(NULL_ITEM) == 1; }
    }
  }

  /** A branch made from a pair refers to what its one slot refers to. */
  lemma {:induction false} BranchOfRefs(n: Node, h: Hasher)
    requires n.Leaf? || (n.Extension? && n.key != [])
    ensures n.key == [] ==> RefsBelow(BranchOf(n), h) == multiset{}
    ensures n.key != [] ==> RefsBelow(BranchOf(n), h) == RefsOf(Below(n), h)
  {
    if n.key == [] {
      RefsAllEmpty(NO_SLOTS, h);
    } else {
      var slots, u := NO_SLOTS[n.key[0] := Below(n)], n.key[0];
      assert BranchOf(n) == Branch(slots, []) && slots[u] == Below(n);
      forall i | 0 <= i < 16 && i != u ensures slots[i] == Empty { NoSlotsAt(i); }
      RefsAllSingle(slots, u, h);
    }
  }

  lemma {:induction false} BranchOfUses(n: Node, i: nat)
    requires n.Leaf? || (n.Extension? && n.key != [])
    requires i < 17 && i != if n.key == [] then 16 else n.key[0]
    ensures !Used(BranchOf(n).slots, BranchOf(n).value, i)
  {
    if i < 16 { NoSlotsAt(i); }
  }

  lemma {:induction false} AtMostOneUsed(b: Node, u: nat, h: Hasher)
    requires CollisionFree(h) && b.Branch? && |b.slots| == 16
    requires forall i: nat :: i < 17 && i != u ==> !Used(b.slots, b.value, i)
    ensures StubItem(ItemOf(b, h))
  {
    BranchItem(b, h, 0);
    var items := ItemOf(b, h).items;
    forall i | 0 <= i < 17 && i != u ensures items[i] == NULL_ITEM {
      BranchItem(b, h, i);
    }
  }

  /** The item of a branch made from a pair has at most one item in use. */
  lemma {:induction false} BranchOfIsStub(n: Node, h: Hasher)
    requires CollisionFree(h) && (n.Leaf? || (n.Extension? && n.key != []))
    ensures StubItem(ItemOf(BranchOf(n), h))
  {
    var u := if n.key == [] then 16 else n.key[0];
    forall i: nat | i < 17 && i != u ensures !Used(BranchOf(n).slots, BranchOf(n).value, i) {
      BranchOfUses(n, i);
    }
    AtMostOneUsed(BranchOf(n), u, h);
  }

  /** Replacing a slot of a branch replaces one item. */
  lemma {:induction false} SlotItems(n: Node, b: nibble, c: Node, h: Hasher)
    requires n.Branch? && |n.slots| == 16
    ensures |ItemOf(n, h).items| == 17 && ItemOf(n, h).items[b] == Ref(n.slots[b], h)
    ensures ItemOf(Branch(n.slots[b := c], n.value), h) == List(ItemOf(n, h).items[b := Ref(c, h)])
    ensures RefsOf(n.slots[b], h) <= RefsBelow(n, h)
  {
    RefsAllUpdate(n.slots, b, c, h);
    RefsUpdate(n.slots, b, c, h);
    UpdateBehind(Refs(n.slots, h), [Data(n.value)], b, Ref(c, h));
  }

  /** After a deletion in a slot the slots are still canonical. */
  lemma {:induction false} BranchDelete(n: Node, k: Nibbles, hz: Hazard)
    requires WellFormed(n) && n.Branch? && k != []
    ensures
      var d := Delete(n.slots[k[0]], k[1..], hz);
      Delete(n, k, hz) == if d.Changed? then Rejig(n.slots[k[0] := d.node], n.value, hz) else d
  {
  }

  lemma {:induction false} AbsentInSlot(n: Node, k: Nibbles, hz: Hazard)
    requires WellFormed(n) && n.Branch? && k != []
    ensures Delete(n, k, hz).Absent? <==> Delete(n.slots[k[0]], k[1..], hz).Absent?
  {
    BranchDelete(n, k, hz);
  }

  lemma {:induction false} SlotDeleted(n: Node, k: Nibbles, h: Hasher, hz: Hazard)
    requires Canonical(n) && WellFormed(n) && n.Branch? && k != [] && Delete(n.slots[k[0]], k[1..], hz).Changed?
    ensures
      var slots := n.slots[k[0] := Delete(n.slots[k[0]], k[1..], hz).node];
      (forall i :: 0 <= i < 16 ==> Canonical(slots[i])) &&
      ItemOf(Branch(slots, n.value), h) == List(Refs(slots, h) + [Data(n.value)])
  {
    DeleteCanonical(n.slots[k[0]], k[1..], hz);
  }

  lemma {:induction false} RefsUpdate(ns: seq<Node>, b: nat, c: Node, h: Hasher)
    requires b < |ns|
    ensures Refs(ns[b := c], h) == Refs(ns, h)[b := Ref(c, h)]
  {
    var x, y := Refs(ns[b := c], h), Refs(ns, h)[b := Ref(c, h)];
    assert forall i :: 0 <= i < |ns| ==> x[i] == y[i];
  }

  lemma {:induction false} UpdateBehind<T>(xs: seq<T>, ys: seq<T>, b: nat, x: T)
    requires b < |xs|
    ensures (xs + ys)[b := x] == xs[b := x] + ys
  {
  }

  /** A change in one slot is a change of all slots together. */
  lemma {:induction false} SlotSwap(n: Node, b: nibble, c: Node, h: Hasher, x0: multiset<bytes>, x1: multiset<bytes>)
    requires n.Branch? && |n.slots| == 16 && Change(x0, x1, RefsOf(n.slots[b], h), RefsOf(c, h))
    ensures Change(x0, x1, RefsAll(n.slots, h), RefsAll(n.slots[b := c], h))
  {
    var all := RefsAll(n.slots, h);
    assert Change(x0, x0, all, RefsBelow(n, h));
    SlotChange(n, b, c, h, x0, x0, x1, all);
  }

  /** A change in one slot, after a change that brought the branch. */
  lemma {:induction false} SlotChange(n: Node, b: nibble, c: Node, h: Hasher,
      x0: multiset<bytes>, x1: multiset<bytes>, x2: multiset<bytes>, gone: multiset<bytes>)
    requires n.Branch? && |n.slots| == 16
    requires Change(x0, x1, gone, RefsBelow(n, h)) && Change(x1, x2, RefsOf(n.slots[b], h), RefsOf(c, h))
    ensures Change(x0, x2, gone, RefsBelow(Branch(n.slots[b := c], n.value), h))
  {
    RefsAllUpdate(n.slots, b, c, h);
    Multisets.ChainPart(x0, x1, x2, gone, RefsBelow(n, h), RefsAll(n.slots[b := c], h), RefsOf(n.slots[b], h),
      RefsOf(c, h));
  }

  lemma {:induction false} CanonicalIsSemi(n: Node)
    requires Canonical(n)
    ensures Semi(n)
  {
  }

  lemma {:induction false} BranchOfIsSemi(n: Node)
    requires Canonical(n) && (n.Leaf? || n.Extension?)
    ensures Semi(BranchOf(n))
  {
  }

  /** The loop over the items of a branch, before and after the one that changes. */
  method CopyItems(done: seq<Item>, items: seq<Item>, from: nat, to: nat) returns (r: seq<Item>)
    requires from <= to <= |items|
    ensures r == done + items[from..to]
  {
    r := done;
    for i := from to to
      invariant r == done + items[from..i]
    {
      r := r + [items[i]];
    }
  }

  lemma {:induction false} SlotInUse(items: seq<Item>, except: nat, slots: seq<Node>, value: bytes, i: nat, h: Hasher)
    requires CollisionFree(h) && |slots| == 16 && items == Refs(slots, h) + [Data(value)]
    requires (except == 16 || except == 255) && i < 17
    ensures i != except && !IsEmpty(items[i]) <==> Used(slots, if except == 16 then [] else value, i)
  {
    if i < 16 { RefNull(slots[i], h); }
  }

  /** A branch with one slot in use refers to what that slot does. */
  lemma {:induction false} OneSlotRefs(slots: seq<Node>, v: bytes, u: nat, h: Hasher)
    requires |slots| == 16 && u == TrieNode.UniqueInUse(slots, v) && u < 16
    ensures slots[u] != Empty && RefsAll(slots, h) == RefsOf(slots[u], h)
  {
    forall i | 0 <= i < 16 && i != u ensures slots[i] == Empty { assert !Used(slots, v, i); }
    RefsAllSingle(slots, u, h);
  }

  lemma {:induction false} NoSlotRefs(slots: seq<Node>, v: bytes, h: Hasher)
    requires |slots| == 16 && TrieNode.UniqueInUse(slots, v) == 16
    ensures RefsAll(slots, h) == multiset{}
  {
    forall i | 0 <= i < 16 ensures slots[i] == Empty { assert !Used(slots, v, i); }
    RefsAllEmpty(slots, h);
  }

  /** A canonical trie refers to no stub. */
  lemma {:induction false} NoStubsBelow(n: Node, h: Hasher)
    requires CollisionFree(h) && Canonical(n)
    ensures NoStubs(RefsBelow(n, h), h)
    decreases n, 0
  {
    if n.Extension? { NoStubsOf(n.child, h); }
    if n.Branch? { NoStubsAll(n.slots, h); }
  }

  lemma {:induction false} NoStubsOf(n: Node, h: Hasher)
    requires CollisionFree(h) && Canonical(n)
    ensures NoStubs(RefsOf(n, h), h)
    decreases n, 1
  {
    NoStubsBelow(n, h);
    NoStubsAdd(RefsBelow(n, h), n, h);
  }

  lemma {:induction false} NoStubsAll(ns: seq<Node>, h: Hasher)
    requires CollisionFree(h) && forall i :: 0 <= i < |ns| ==> Canonical(ns[i])
    ensures NoStubs(RefsAll(ns, h), h)
    decreases ns, 0
  {
    if ns != [] {
      NoStubsOf(ns[0], h);
      forall i | 0 <= i < |ns[1..]| ensures Canonical(ns[1..][i]) { assert ns[1..][i] == ns[i + 1]; }
      NoStubsAll(ns[1..], h);
    }
  }

  lemma {:induction false} NoStubsRoot(n: Node, h: Hasher)
    requires CollisionFree(h) && Canonical(n)
    ensures NoStubs(RefsRoot(n, h), h)
  {
    NoStubsBelow(n, h);
    NoStubsAdd(RefsBelow(n, h), n, h);
  }

  ghost function Distinct(m: multiset<bytes>): set<bytes> {
    set x | x in m
  }

  lemma {:induction false} StruckOff(mask: set<bytes>, a: multiset<bytes>, b: multiset<bytes>)
    ensures mask - Distinct(a) - Distinct(b) == mask - Distinct(a + b)
  {
  }

  lemma {:induction false} RefsAllSnoc(ns: seq<Node>, i: nat, h: Hasher)
    requires i < |ns|
    ensures RefsAll(ns[..i + 1], h) == RefsAll(ns[..i], h) + RefsOf(ns[i], h)
    decreases i
  {
    if i == 0 {
      assert ns[..1] == [ns[0]] && ns[..0] == [] && ns[..1][1..] == [];
    } else {
      assert ns[..i + 1][1..] == ns[1..][..i] && ns[..i][1..] == ns[1..][..i - 1];
      RefsAllSnoc(ns[1..], i - 1, h);
      var x, y, z := RefsOf(ns[0], h), RefsAll(ns[1..][..i - 1], h), RefsOf(ns[i], h);
      assert x + (y + z) == x + y + z;
    }
  }

  class Trie {
    const db: Db
    var root: bytes
    ghost var node: Node

    ghost function H(): Hasher {
      db.hash
    }

    ghost function Hz(): Hazard {
      TakenForPair(H())
    }

    ghost predicate Ready()
      reads db
    {
      db.Valid() && NoStubs(db.refs, db.hash)
    }

    /** Every stored node of `n` below its root can be read. */
    ghost predicate Readable(refs: multiset<bytes>)
      reads db
    {
      forall x :: x in refs ==> db.Available(x)
    }

    ghost predicate Valid()
      reads this, db
    {
      && Ready() && Canonical(node) && WellFormed(node)
      && root == H()(ItemOf(node, H())) && RefsRoot(node, H()) <= db.refs
    }

    /** An empty trie in a store. */
    constructor Init(db: Db)
      requires db.Valid() && NoStubs(db.refs, db.hash)
      modifies db
      ensures Valid() && this.db == db && node == Empty
      ensures db.refs == old(db.refs) + RefsRoot(Empty, db.hash) && db.DiskGrew(old(db.disk))
    {
      this.db, root, node := db, db.hash(NULL_ITEM), Empty;
      NoStubsAdd(db.refs, Empty, db.hash);
      new;
      db.Insert(root, NULL_ITEM);
    }

    // ------------------------------------------------------------ node access

    /** The item behind a reference. */
    method Deref(ghost n: Node, ref: Item) returns (it: Item)
      requires db.Valid() && ref == Ref(n, H()) && n != Empty && Readable(Own(n, H()))
      ensures it == ItemOf(n, H())
    {
      RefNull(n, H());
      if ref.List? {
        it := ref;
      } else {
        var r := db.Lookup(ref.payload);
        assert ref.payload in Own(n, H());
        it := r.value;
      }
    }

    method KillNode(it: Item)
      requires Ready()
      modifies db`main, db`refs
      ensures Ready()
      ensures db.refs == old(db.refs) - if Size(it) < HASHED then multiset{} else multiset{H()(it)}
      ensures Fits(it) && |Rlp.Encode(it)| <= 31 ==> unchanged(db)
      ensures Fits(it) && |Rlp.Encode(it)| >= 32 ==> db.refs == old(db.refs) - multiset{H()(it)}
    {
      if Size(it) >= HASHED {
        var _ := db.Kill(db.hash(it));
      }
    }

    method StreamNode(ghost n: Node, it: Item) returns (ref: Item)
      requires Ready() && Canonical(n) && it == ItemOf(n, H())
      modifies db
      ensures Ready() && db.DiskGrew(old(db.disk))
      ensures ref == Ref(n, H()) && db.refs == old(db.refs) + Own(n, H())
      ensures Fits(it) && |Rlp.Encode(it)| <= 31 ==> ref == it && unchanged(db)
      ensures Fits(it) && |Rlp.Encode(it)| >= 32 ==>
        ref == Data(H()(it)) && db.refs == old(db.refs) + multiset{H()(it)}
    {
      if Size(it) < HASHED {
        ref := it;
      } else {
        NoStubsAdd(db.refs, n, H());
        db.Insert(db.hash(it), it);
        ref := Data(db.hash(it));
      }
    }

    // ------------------------------------------------------------------ lookup

    method AtAux(ghost n: Node, here: Item, k: Nibbles) returns (v: bytes)
      requires db.Valid() && Canonical(n) && WellFormed(n)
      requires here == ItemOf(n, H()) && Readable(RefsBelow(n, H()))
      ensures v == Lookup(n, k)
      decreases n, 1
    {
      ItemCount(n, H());
      if IsEmpty(here) {
        return [];
      }
      if |here.items| == 2 {
        v := AtPair(n, here, k);
      } else {
        v := AtBranch(n, here, k);
      }
    }

    method AtPair(ghost n: Node, here: Item, k: Nibbles) returns (v: bytes)
      requires db.Valid() && Canonical(n) && WellFormed(n) && (n.Leaf? || n.Extension?)
      requires here == ItemOf(n, H()) && Readable(RefsBelow(n, H()))
      ensures v == Lookup(n, k)
      decreases n, 0
    {
      PairShape(n, H());
      var k0 := HexPrefix.KeyOf(here.items[0].payload);
      var leaf := HexPrefix.IsLeaf(here.items[0].payload);
      if k == k0 && leaf {
        return here.items[1].payload;
      } else if k0 <= k && !leaf {
        ReadableParts(n.child);
        var c := Deref(n.child, here.items[1]);
        v := AtAux(n.child, c, k[|k0|..]);
      } else {
        return [];
      }
    }

    method AtBranch(ghost n: Node, here: Item, k: Nibbles) returns (v: bytes)
      requires db.Valid() && Canonical(n) && WellFormed(n) && n.Branch?
      requires here == ItemOf(n, H()) && Readable(RefsBelow(n, H()))
      ensures v == Lookup(n, k)
      decreases n, 0
    {
      if k == [] {
        return here.items[16].payload;
      }
      ghost var c := n.slots[k[0]];
      RefNull(c, H());
      var ref := here.items[k[0]];
      if IsEmpty(ref) {
        return [];
      }
      RefsAllUpdate(n.slots, k[0], c, H());
      ReadableParts(c);
      var it := Deref(c, ref);
      v := AtAux(c, it, k[1..]);
    }

    lemma ReadableParts(c: Node)
      requires Readable(RefsOf(c, H()))
      ensures Readable(RefsBelow(c, H())) && Readable(Own(c, H()))
    {
      forall x | x in RefsBelow(c, H()) || x in Own(c, H()) ensures db.Available(x) {
        assert x in RefsOf(c, H());
      }
    }

    // --------------------------------------------------------------- insertion

    /** What an insertion at `n` consumes: a node that is not in the store itself costs nothing. */
    ghost function Gone(n: Node, inLine: bool): multiset<bytes> {
      RefsBelow(n, H()) + if inLine then multiset{} else Own(n, H())
    }

    /** Nodes that were never stored on their own: short ones, and those reshaped for the key `k`. */
    ghost predicate NeverStored(n: Node, k: Nibbles) {
      || Size(ItemOf(n, H())) < HASHED
      || (n.Extension? && Admits(n, k))
      || StubItem(ItemOf(n, H()))
    }

    ghost predicate CanMerge(n: Node, it: Item, k: Nibbles, inLine: bool)
      reads db
    {
      && Ready() && WellFormed(n) && it == ItemOf(n, H()) && Gone(n, inLine) <= db.refs
      && (if inLine then Semi(n) && NeverStored(n, k) && (Canonical(n) || Admits(n, k)) else Canonical(n))
    }

    /** What a finished insertion promises. */
    twostate predicate Merged(n: Node, k: Nibbles, v: bytes, inLine: bool, new r: Item)
      requires WellFormed(n)
      reads db
    {
      && Ready() && db.DiskGrew(old(db.disk))
      && r == ItemOf(Inserted(n, k, v), H())
      && Change(old(db.refs), db.refs, Gone(n, inLine), RefsBelow(Inserted(n, k, v), H()))
    }

    /**
     Killing a node removes its own reference. One that was never stored has none to
     lose: it is short, or a stub, and the store holds no stub.
     */
    lemma KilledOwn(n: Node, k: Nibbles, inLine: bool, refs: multiset<bytes>)
      requires NoStubs(refs, H()) && Gone(n, inLine) <= refs
      requires inLine ==> NeverStored(n, k) && !(n.Extension? && Admits(n, k))
      ensures Change(refs, refs - Own(n, H()), Gone(n, inLine), RefsBelow(n, H()))
    {
      var own, below := Own(n, H()), RefsBelow(n, H());
      if inLine {
        assert refs - own == refs;
        assert Gone(n, inLine) == below;
      } else {
        assert own <= refs;
        Multisets.Remove(refs, own);
        assert refs - own + (below + own) == refs - own + own + below;
      }
    }

    method KillOrig(ghost n: Node, orig: Item, ghost k: Nibbles, ghost inLine: bool)
      requires Ready() && orig == ItemOf(n, H()) && Gone(n, inLine) <= db.refs
      requires inLine ==> NeverStored(n, k) && !(n.Extension? && Admits(n, k))
      modifies db`main, db`refs
      ensures Ready() && Change(old(db.refs), db.refs, Gone(n, inLine), RefsBelow(n, H()))
    {
      KilledOwn(n, k, inLine, db.refs);
      KillNode(orig);
    }

    /** Puts the value into an empty place, a leaf with this key, or a branch where the key ends. */
    method Place(ghost n: Node, orig: Item, k: Nibbles, v: bytes, ghost inLine: bool) returns (r: Item)
      requires CanMerge(n, orig, k, inLine) && Semi(n)
      requires n == Empty || (n.Leaf? && n.key == k) || (n.Branch? && k == [])
      modifies db
      ensures Merged(n, k, v, inLine, r)
    {
      KillOrig(n, orig, k, inLine);
      assert RefsBelow(Inserted(n, k, v), H()) == RefsBelow(n, H());
      r := PlacedItem(n, orig, k, v);
    }

    method PlacedItem(ghost n: Node, orig: Item, k: Nibbles, v: bytes) returns (r: Item)
      requires CollisionFree(H()) && Semi(n) && WellFormed(n) && orig == ItemOf(n, H())
      requires n == Empty || (n.Leaf? && n.key == k) || (n.Branch? && k == [])
      ensures r == ItemOf(Inserted(n, k, v), H())
    {
      ItemCount(n, H());
      if IsEmpty(orig) {
        r := List([Data(HexPrefix.Encode(k, true)), Data(v)]);
      } else if |orig.items| == 2 {
        PairShape(n, H());
        r := List([orig.items[0], Data(v)]);
      } else {
        r := List(orig.items[..16] + [Data(v)]);
        assert orig.items[..16] == Refs(n.slots, H());
      }
    }

    /** Stores the pair `orig` under another key. */
    method StreamRekeyed(ghost n: Node, orig: Item, k: Nibbles, ghost gone: multiset<bytes>,
                         ghost before: multiset<bytes>)
      returns (ref: Item)
      requires Ready() && (n.Leaf? || n.Extension?) && orig == ItemOf(n, H()) && Canonical(Rekey(n, k))
      requires Change(before, db.refs, gone, RefsBelow(n, H()))
      modifies db
      ensures Ready() && db.DiskGrew(old(db.disk))
      ensures ref == Ref(Rekey(n, k), H()) && Change(before, db.refs, gone, RefsOf(Rekey(n, k), H()))
    {
      ghost var m := Rekey(n, k);
      PairShape(n, H());
      PairShape(m, H());
      var it := List([Data(HexPrefix.Encode(k, HexPrefix.IsLeaf(orig.items[0].payload))), orig.items[1]]);
      assert it == ItemOf(m, H());
      Multisets.Gain(before, db.refs, gone, RefsBelow(n, H()), Own(m, H()));
      ref := StreamNode(m, it);
    }

    /** Splits a pair below the first `s` nibbles of its key. */
    method Cleve(ghost n: Node, orig: Item, k: Nibbles, s: nat, ghost inLine: bool) returns (r: Item)
      requires CanMerge(n, orig, k, inLine) && Canonical(n) && (n.Leaf? || n.Extension?) && !Admits(n, k)
      requires s == Shared(k, n.key) > 0
      modifies db
      ensures Ready() && db.DiskGrew(old(db.disk))
      ensures r == ItemOf(TrieNode.Cleve(n, s), H())
      ensures Change(old(db.refs), db.refs, Gone(n, inLine), RefsBelow(TrieNode.Cleve(n, s), H()))
    {
      PairShape(n, H());
      SplitShape(n, k, s);
      KillOrig(n, orig, k, inLine);
      var k0 := HexPrefix.KeyOf(orig.items[0].payload);
      var ref := StreamRekeyed(n, orig, k0[s..], Gone(n, inLine), old(db.refs));
      r := List([Data(HexPrefix.Encode(k0[..s], false)), ref]);
    }

    /** Turns a pair into a branch with one used slot. */
    method ToBranch(ghost n: Node, orig: Item, k: Nibbles, ghost inLine: bool) returns (r: Item)
      requires CanMerge(n, orig, k, inLine) && Canonical(n) && (n.Leaf? || n.Extension?) && !Admits(n, k)
      modifies db
      ensures Ready() && db.DiskGrew(old(db.disk))
      ensures r == ItemOf(BranchOf(n), H())
      ensures Change(old(db.refs), db.refs, Gone(n, inLine), RefsBelow(BranchOf(n), H()))
    {
      KillOrig(n, orig, k, inLine);
      r := BranchFrom(n, orig, Gone(n, inLine), old(db.refs));
    }

    method BranchFrom(ghost n: Node, orig: Item, ghost gone: multiset<bytes>, ghost before: multiset<bytes>)
      returns (r: Item)
      requires Ready() && Canonical(n) && (n.Leaf? || n.Extension?) && orig == ItemOf(n, H())
      requires Change(before, db.refs, gone, RefsBelow(n, H()))
      modifies db
      ensures Ready() && db.DiskGrew(old(db.disk))
      ensures r == ItemOf(BranchOf(n), H()) && Change(before, db.refs, gone, RefsBelow(BranchOf(n), H()))
    {
      PairShape(n, H());
      var k0 := HexPrefix.KeyOf(orig.items[0].payload);
      BranchOfRefs(n, H());
      if k0 == [] {
        r := StubItemOf(0, NULL_ITEM, orig.items[1], Empty, n.value);
      } else {
        var ref := StreamBelow(n, orig, gone, before);
        r := StubItemOf(k0[0], ref, NULL_ITEM, Below(n), []);
      }
    }

    /** What the slot of a pair's first nibble gets: the rest of the pair, or an extension's child itself. */
    method StreamBelow(ghost n: Node, orig: Item, ghost gone: multiset<bytes>, ghost before: multiset<bytes>)
      returns (ref: Item)
      requires Ready() && Canonical(n) && (n.Leaf? || n.Extension?) && n.key != [] && orig == ItemOf(n, H())
      requires Change(before, db.refs, gone, RefsBelow(n, H()))
      modifies db
      ensures Ready() && db.DiskGrew(old(db.disk))
      ensures ref == Ref(Below(n), H()) && Change(before, db.refs, gone, RefsOf(Below(n), H()))
    {
      PairShape(n, H());
      var k0 := HexPrefix.KeyOf(orig.items[0].payload);
      if HexPrefix.IsLeaf(orig.items[0].payload) || |k0| > 1 {
        assert Below(n) == Rekey(n, k0[1..]);
        ref := StreamRekeyed(n, orig, k0[1..], gone, before);
      } else {
        ref := orig.items[1];
      }
    }

    /** The item of a branch that uses slot `b` or its value only. */
    method StubItemOf(b: nibble, ref: Item, value: Item, ghost c: Node, ghost v: bytes) returns (r: Item)
      requires ref == Ref(c, H()) && value == Data(v)
      ensures r == ItemOf(Branch(NO_SLOTS[b := c], v), H())
    {
      var items := [];
      for i := 0 to 16
        invariant |items| == i && forall j :: 0 <= j < i ==> items[j] == if j == b then ref else NULL_ITEM
      {
        items := items + [if i == b then ref else NULL_ITEM];
      }
      StubRefs(b, c, ref, items, H());
      r := List(items + [value]);
    }

    /** Takes the reference of a node that is about to be replaced, if it has one. */
    method KillUnlessInline(ghost n: Node, orig: Item, inLine: bool)
      requires Ready() && orig == ItemOf(n, H()) && Gone(n, inLine) <= db.refs
      modifies db`main, db`refs
      ensures Ready() && Change(old(db.refs), db.refs, Gone(n, inLine), RefsBelow(n, H()))
      ensures RefsBelow(n, H()) <= db.refs
    {
      if !inLine {
        KillOrig(n, orig, [], false);
      }
      Multisets.KeepsAll(old(db.refs), db.refs, Gone(n, inLine), RefsBelow(n, H()));
    }

    /** Inserts below a reference, which may be an item in place, a hash, or empty. */
    method MergeAtAux(ghost n: Node, ref: Item, k: Nibbles, v: bytes) returns (r: Item)
      requires Ready() && Canonical(n) && WellFormed(n) && ref == Ref(n, H()) && RefsOf(n, H()) <= db.refs && v != []
      modifies db
      ensures Ready() && db.DiskGrew(old(db.disk))
      ensures r == Ref(Inserted(n, k, v), H())
      ensures Change(old(db.refs), db.refs, RefsOf(n, H()), RefsOf(Inserted(n, k, v), H()))
      decreases |k|, 2
    {
      RefNull(n, H());
      CanonicalIsSemi(n);
      InsertCanonical(n, k, v);
      var it := ref;
      var removable := false;
      if !ref.List? && !IsEmpty(ref) {
        assert ref.payload in db.refs by { assert ref.payload in Own(n, H()); }
        it := Deref(n, ref);
        removable := true;
      }
      assert Gone(n, !removable) == RefsOf(n, H());
      it := MergeAt(n, it, k, v, !removable);
      Multisets.Gain(old(db.refs), db.refs, RefsOf(n, H()), RefsBelow(Inserted(n, k, v), H()),
        Own(Inserted(n, k, v), H()));
      r := StreamNode(Inserted(n, k, v), it);
    }

    method MergeAt(ghost n: Node, orig: Item, k: Nibbles, v: bytes, inLine: bool) returns (r: Item)
      requires CanMerge(n, orig, k, inLine) && v != []
      modifies db
      ensures Merged(n, k, v, inLine, r)
      decreases |k|, if Admits(n, k) then 0 else 1
    {
      if !inLine { CanonicalIsSemi(n); }
      ItemCount(n, H());
      if IsEmpty(orig) {
        r := Place(n, orig, k, v, inLine);
      } else if |orig.items| == 2 {
        PairShape(n, H());
        var k0 := HexPrefix.KeyOf(orig.items[0].payload);
        var leaf := HexPrefix.IsLeaf(orig.items[0].payload);
        if k0 == k && leaf {
          r := Place(n, orig, k, v, inLine);
        } else if k0 <= k && !leaf {
          r := MergeExtension(n, orig, k, v, inLine);
        } else {
          r := MergeReshaped(n, orig, k, v, inLine);
        }
      } else if k == [] {
        r := Place(n, orig, k, v, inLine);
      } else {
        r := MergeBranch(n, orig, k, v, inLine);
      }
    }

    /** The key goes on below an extension. */
    method MergeExtension(ghost n: Node, orig: Item, k: Nibbles, v: bytes, inLine: bool) returns (r: Item)
      requires CanMerge(n, orig, k, inLine) && v != [] && n.Extension? && n.key <= k && n.key != []
        && Canonical(n.child)
      modifies db
      ensures Merged(n, k, v, inLine, r)
      decreases |k|, 0, 0
    {
      PairShape(n, H());
      KillUnlessInline(n, orig, inLine);
      ghost var refs1 := db.refs;
      var k1 := k[|HexPrefix.KeyOf(orig.items[0].payload)|..];
      var ref := MergeAtAux(n.child, orig.items[1], k1, v);
      ghost var c := Inserted(n.child, k1, v);
      assert Inserted(n, k, v) == Extension(n.key, c);
      Multisets.Chain(old(db.refs), refs1, db.refs, Gone(n, inLine), RefsOf(n.child, H()), RefsOf(c, H()));
      r := List([orig.items[0], ref]);
    }

    /** Copies the items of a branch, inserting below the one at `b`. */
    method MergeSlot(ghost c: Node, items: seq<Item>, b: nibble, k: Nibbles, v: bytes) returns (r: seq<Item>)
      requires Ready() && Canonical(c) && WellFormed(c) && RefsOf(c, H()) <= db.refs && v != []
      requires |items| == 17 && items[b] == Ref(c, H())
      modifies db
      ensures Ready() && db.DiskGrew(old(db.disk))
      ensures r == items[b := Ref(Inserted(c, k, v), H())]
      ensures Change(old(db.refs), db.refs, RefsOf(c, H()), RefsOf(Inserted(c, k, v), H()))
      decreases |k|, 3
    {
      r := CopyItems([], items, 0, b);
      var ref := MergeAtAux(c, items[b], k, v);
      r := CopyItems(r + [ref], items, b + 1, 17);
      SpliceUpdate(items, b, ref);
    }

    /** The key goes on in a slot of a branch. */
    method MergeBranch(ghost n: Node, orig: Item, k: Nibbles, v: bytes, inLine: bool) returns (r: Item)
      requires CanMerge(n, orig, k, inLine) && v != [] && n.Branch? && k != [] && Canonical(n.slots[k[0]])
      modifies db
      ensures Merged(n, k, v, inLine, r)
      decreases |k|, 0, 0
    {
      KillUnlessInline(n, orig, inLine);
      ghost var refs1 := db.refs;
      var b := k[0];
      ghost var c := Inserted(n.slots[b], k[1..], v);
      SlotItems(n, b, c, H());
      var items := MergeSlot(n.slots[b], orig.items, b, k[1..], v);
      SlotChange(n, b, c, H(), old(db.refs), refs1, db.refs, Gone(n, inLine));
      assert Inserted(n, k, v) == Branch(n.slots[b := c], n.value);
      r := List(items);
    }

    /** The key leaves a pair: the pair is reshaped, and the key goes on in the result. */
    method MergeReshaped(ghost n: Node, orig: Item, k: Nibbles, v: bytes, inLine: bool) returns (r: Item)
      requires CanMerge(n, orig, k, inLine) && v != [] && (n.Leaf? || n.Extension?) && !Admits(n, k)
      modifies db
      ensures Merged(n, k, v, inLine, r)
      decreases |k|, 1, 0
    {
      PairShape(n, H());
      var sh := Shared(k, HexPrefix.KeyOf(orig.items[0].payload));
      ghost var m := Reshape(n, k);
      ReshapedCanMerge(n, k);
      var it;
      if sh > 0 {
        it := Cleve(n, orig, k, sh, inLine);
      } else {
        it := ToBranch(n, orig, k, inLine);
      }
      ghost var refs1 := db.refs;
      assert Gone(m, true) == RefsBelow(m, H());
      Multisets.KeepsAll(old(db.refs), refs1, Gone(n, inLine), RefsBelow(m, H()));
      r := MergeAt(m, it, k, v, true);
      Multisets.Chain(old(db.refs), refs1, db.refs, Gone(n, inLine), RefsBelow(m, H()),
        RefsBelow(Inserted(n, k, v), H()));
    }

    /** A reshaped pair is not in the store yet, and the key fits it. */
    lemma ReshapedCanMerge(n: Node, k: Nibbles)
      requires CollisionFree(H()) && Canonical(n) && WellFormed(n) && (n.Leaf? || n.Extension?) && !Admits(n, k)
      ensures Semi(Reshape(n, k)) && WellFormed(Reshape(n, k)) && Admits(Reshape(n, k), k)
        && NeverStored(Reshape(n, k), k)
    {
      var s := Shared(k, n.key);
      if s > 0 {
        SplitShape(n, k, s);
      } else {
        BranchOfIsStub(n, H());
        BranchOfIsSemi(n);
      }
    }

    // ---------------------------------------------------------------- deletion

    /** What a finished deletion promises, unless the key set is one it cannot handle. */
    twostate predicate Deleted(n: Node, k: Nibbles, new r: Option<Item>)
      requires WellFormed(n)
      reads db
    {
      Outcome(n, Delete(n, k, Hz()), r)
    }

    twostate predicate Outcome(n: Node, d: Deletion, new r: Option<Item>)
      reads db
    {
      && Ready() && db.DiskGrew(old(db.disk))
      && (d.Absent? ==> r == None && unchanged(db))
      && (d.Changed? ==>
            && r == Some(ItemOf(d.node, H()))
            && Change(old(db.refs), db.refs, RefsOf(n, H()), RefsBelow(d.node, H())))
    }

    ghost predicate CanDelete(n: Node, k: Nibbles)
      reads db
    {
      Ready() && Canonical(n) && WellFormed(n) && RefsOf(n, H()) <= db.refs && !Delete(n, k, Hz()).Fault?
    }

    /** Whether a reference leads to a pair. */
    method IsTwoItemNode(ghost m: Node, ref: Item) returns (b: bool)
      requires db.Valid() && Canonical(m) && m != Empty && ref == Ref(m, H()) && Readable(Own(m, H()))
      ensures b <==> m.Leaf? || m.Extension?
    {
      ItemCount(m, H());
      var it := Deref(m, ref);
      b := |it.items| == 2;
    }

    /** The same question asked of a value. */
    method IsTwoItemValue(v: bytes) returns (b: bool)
      requires db.Valid() && !Mistaken(v, H())
      ensures !b
    {
      var r := db.Lookup(AsHash(v));
      b := r.Some? && IsPair(r.value);
    }

    /** Joins the pair of `key` and a pair below it into one pair. */
    method Graft(ghost key: Nibbles, ghost m: Node, orig: Item) returns (r: Item)
      requires Ready() && Canonical(m) && (m.Leaf? || m.Extension?) && Own(m, H()) <= db.refs
      requires orig == List([Data(HexPrefix.Encode(key, false)), Ref(m, H())])
      modifies db`main, db`refs
      ensures Ready() && db.refs == old(db.refs) - Own(m, H())
      ensures r == ItemOf(Join(key, m), H())
    {
      PairShape(m, H());
      HexPrefix.EncodeInverts(key, false);
      assert Readable(Own(m, H()));
      var it := Deref(m, orig.items[1]);
      if !orig.items[1].List? {
        var _ := db.Kill(orig.items[1].payload);
      }
      var k := HexPrefix.KeyOf(orig.items[0].payload) + HexPrefix.KeyOf(it.items[0].payload);
      r := List([Data(HexPrefix.Encode(k, HexPrefix.IsLeaf(it.items[0].payload))), it.items[1]]);
    }

    /** The pair of `key` and `m`, grafted when `m` is a pair itself. */
    method JoinTo(ghost key: Nibbles, ghost m: Node, pair: Item) returns (r: Item)
      requires Ready() && Canonical(m) && m != Empty && RefsOf(m, H()) <= db.refs
      requires pair == List([Data(HexPrefix.Encode(key, false)), Ref(m, H())])
      modifies db`main, db`refs
      ensures Ready() && r == ItemOf(Join(key, m), H())
      ensures Change(old(db.refs), db.refs, RefsOf(m, H()), RefsBelow(Join(key, m), H()))
    {
      assert Own(m, H()) <= db.refs;
      assert Readable(Own(m, H()));
      var two := IsTwoItemNode(m, pair.items[1]);
      if two {
        r := Graft(key, m, pair);
        Multisets.Remove(old(db.refs), Own(m, H()));
        ghost var own, below := Own(m, H()), RefsBelow(m, H());
        assert db.refs + (below + own) == db.refs + own + below;
      } else {
        r := pair;
      }
    }

    /** The only item in use, not counting `except`, or 255. */
    method UniqueInUse(items: seq<Item>, except: nat, ghost slots: seq<Node>, ghost value: bytes) returns (used: nat)
      requires CollisionFree(H()) && |slots| == 16 && items == Refs(slots, H()) + [Data(value)]
      requires except == 16 || except == 255
      ensures used == TrieNode.UniqueInUse(slots, if except == 16 then [] else value)
    {
      ghost var v := if except == 16 then [] else value;
      used := 255;
      for i := 0 to 17
        invariant UniqueFrom(slots, v, i, used) == UniqueFrom(slots, v, 0, 255)
      {
        var inUse := i != except && !IsEmpty(items[i]);
        SlotInUse(items, except, slots, value, i, H());
        if inUse {
          if used == 255 {
            used := i;
          } else {
            return 255;
          }
        }
      }
    }

    /** A branch with one item in use becomes a pair. */
    method MergeItem(items: seq<Item>, used: nat, ghost slots: seq<Node>, ghost v: bytes) returns (r: Item)
      requires Ready() && |slots| == 16 && (forall i :: 0 <= i < 16 ==> Canonical(slots[i]))
      requires |items| == 17 && (forall i :: 0 <= i < 16 ==> items[i] == Ref(slots[i], H()))
        && RefsAll(slots, H()) <= db.refs
      requires used == TrieNode.UniqueInUse(slots, v) && used <= 16
        && (used == 16 ==> items[16] == Data(v) && v !in Hz())
      modifies db`main, db`refs
      ensures Ready()
      ensures
        var m := Rejig(slots, v, Hz()).node;
        r == ItemOf(m, H()) && Change(old(db.refs), db.refs, RefsAll(slots, H()), RefsBelow(m, H()))
    {
      if used == 16 {
        NoSlotRefs(slots, v, H());
        var _ := IsTwoItemValue(items[16].payload);
        r := List([Data(HexPrefix.Encode([], true)), items[16]]);
      } else {
        OneSlotRefs(slots, v, used, H());
        r := JoinTo([used], slots[used], List([Data(HexPrefix.Encode([used], false)), items[used]]));
      }
    }

    /** What becomes of a branch that lost its value, or had a slot shrunk. */
    method RejigItem(items: seq<Item>, except: nat, ghost slots: seq<Node>, ghost value: bytes) returns (r: Item)
      requires Ready() && |slots| == 16 && (forall i :: 0 <= i < 16 ==> Canonical(slots[i]))
      requires items == Refs(slots, H()) + [Data(value)] && (except == 16 || except == 255)
      requires RefsAll(slots, H()) <= db.refs
      requires Rejig(slots, if except == 16 then [] else value, Hz()).Changed?
      modifies db`main, db`refs
      ensures Ready()
      ensures
        var m := Rejig(slots, if except == 16 then [] else value, Hz()).node;
        r == ItemOf(m, H()) && Change(old(db.refs), db.refs, RefsAll(slots, H()), RefsBelow(m, H()))
    {
      ghost var v := if except == 16 then [] else value;
      var used := UniqueInUse(items, except, slots, value);
      if used != 255 {
        r := MergeItem(items, used, slots, v);
      } else if except == 16 {
        r := List(items[..16] + [NULL_ITEM]);
        assert items[..16] == Refs(slots, H());
      } else {
        r := List(items);
      }
    }

    /** Deletes below a reference. */
    method DeleteAtAux(ghost n: Node, ref: Item, k: Nibbles) returns (r: Option<Item>)
      requires CanDelete(n, k) && ref == Ref(n, H())
      modifies db
      ensures Ready() && db.DiskGrew(old(db.disk))
      ensures Delete(n, k, Hz()).Absent? ==> r == None && unchanged(db)
      ensures Delete(n, k, Hz()).Changed? ==>
        r == Some(Ref(Delete(n, k, Hz()).node, H())) &&
        Change(old(db.refs), db.refs, RefsOf(n, H()), RefsOf(Delete(n, k, Hz()).node, H()))
      decreases n, 3
    {
      RefNull(n, H());
      if IsEmpty(ref) {
        return None;
      }
      assert Readable(Own(n, H()));
      var it := Deref(n, ref);
      var d := DeleteAt(n, it, k);
      if d == None {
        return None;
      }
      ghost var m := Delete(n, k, Hz()).node;
      DeleteCanonical(n, k, Hz());
      Multisets.Gain(old(db.refs), db.refs, RefsOf(n, H()), RefsBelow(m, H()), Own(m, H()));
      var s := StreamNode(m, d.value);
      r := Some(s);
    }

    method DeleteAt(ghost n: Node, orig: Item, k: Nibbles) returns (r: Option<Item>)
      requires CanDelete(n, k) && orig == ItemOf(n, H())
      modifies db
      ensures Deleted(n, k, r)
      decreases n, 2
    {
      ItemCount(n, H());
      if IsEmpty(orig) {
        return None;
      }
      if |orig.items| == 2 {
        r := DeletePair(n, orig, k);
      } else if k == [] {
        r := DeleteValue(n, orig);
      } else {
        r := DeleteSlot(n, orig, k);
      }
    }

    method DeletePair(ghost n: Node, orig: Item, k: Nibbles) returns (r: Option<Item>)
      requires CanDelete(n, k) && orig == ItemOf(n, H()) && (n.Leaf? || n.Extension?)
      modifies db
      ensures Deleted(n, k, r)
      decreases n, 1
    {
      PairShape(n, H());
      var k0 := HexPrefix.KeyOf(orig.items[0].payload);
      if k0 == k && HexPrefix.IsLeaf(orig.items[0].payload) {
        KillOrig(n, orig, [], false);
        return Some(NULL_ITEM);
      }
      if !(k0 <= k) {
        return None;
      }
      r := DeleteExtension(n, orig, k);
    }

    /** Kills a node whose part `p` has become `q`. */
    method KillOwner(ghost n: Node, orig: Item, ghost x0: multiset<bytes>, ghost p: multiset<bytes>,
                     ghost q: multiset<bytes>)
      requires Ready() && orig == ItemOf(n, H()) && Change(x0, db.refs, p, q) && p + Own(n, H()) <= x0
      modifies db`main, db`refs
      ensures Ready() && db.refs + Own(n, H()) == old(db.refs) && q <= db.refs
    {
      ghost var own := Own(n, H());
      Multisets.Keeps(x0, db.refs, p, q, own);
      KillNode(orig);
      assert own <= q + own <= old(db.refs);
      Multisets.Remove(old(db.refs), own);
      Multisets.KeepsPart(old(db.refs), own, q);
    }

    /** What is removed below an extension can be removed there, and takes the extension's references. */
    lemma BelowExtension(n: Node, k: Nibbles)
      requires CanDelete(n, k) && n.Extension? && n.key <= k
      ensures CanDelete(n.child, k[|n.key|..]) && RefsBelow(n, H()) == RefsOf(n.child, H())
      ensures RefsOf(n.child, H()) + Own(n, H()) <= db.refs
    {
      Multisets.Parts(RefsBelow(n, H()), Own(n, H()), db.refs);
    }

    lemma InSlot(n: Node, k: Nibbles)
      requires CanDelete(n, k) && n.Branch? && k != []
      ensures CanDelete(n.slots[k[0]], k[1..]) && RefsBelow(n, H()) == RefsAll(n.slots, H())
      ensures RefsAll(n.slots, H()) + Own(n, H()) <= db.refs
    {
      Multisets.Parts(RefsBelow(n, H()), Own(n, H()), db.refs);
      RefsAllUpdate(n.slots, k[0], Empty, H());
    }

    /** What deletion in a slot and afterwards asks for. */
    lemma SlotReady(n: Node, k: Nibbles)
      requires CanDelete(n, k) && n.Branch? && k != []
      ensures CanDelete(n.slots[k[0]], k[1..]) && RefsAll(n.slots, H()) + Own(n, H()) <= db.refs
      ensures |ItemOf(n, H()).items| == 17 && ItemOf(n, H()).items[k[0]] == Ref(n.slots[k[0]], H())
      ensures Delete(n, k, Hz()).Absent? <==> Delete(n.slots[k[0]], k[1..], Hz()).Absent?
    {
      BranchItem(n, H(), k[0]);
      InSlot(n, k);
      AbsentInSlot(n, k, Hz());
    }

    method DeleteExtension(ghost n: Node, orig: Item, k: Nibbles) returns (r: Option<Item>)
      requires CanDelete(n, k) && orig == ItemOf(n, H()) && n.Extension? && n.key <= k
      modifies db
      ensures Deleted(n, k, r)
      decreases n, 0
    {
      PairShape(n, H());
      var k0 := HexPrefix.KeyOf(orig.items[0].payload);
      var k1 := k[|k0|..];
      ghost var c := n.child;
      BelowExtension(n, k);
      var ref := DeleteAtAux(c, orig.items[1], k1);
      if ref == None {
        return None;
      }
      DeleteCanonical(c, k1, Hz());
      var it := RejoinExtension(n, orig, Delete(c, k1, Hz()).node, ref.value, old(db.refs));
      r := Some(it);
    }

    /** Joins an extension whose child has become `m` with it. */
    method RejoinExtension(ghost n: Node, orig: Item, ghost m: Node, ref: Item, ghost before: multiset<bytes>)
      returns (it: Item)
      requires Ready() && n.Extension? && orig == ItemOf(n, H()) && Canonical(m) && m != Empty && ref == Ref(m, H())
      requires RefsOf(n.child, H()) + Own(n, H()) <= before
        && Change(before, db.refs, RefsOf(n.child, H()), RefsOf(m, H()))
      modifies db`main, db`refs
      ensures Ready() && it == ItemOf(Join(n.key, m), H())
      ensures Change(before, db.refs, RefsOf(n, H()), RefsBelow(Join(n.key, m), H()))
    {
      PairShape(n, H());
      ghost var c, refs1 := n.child, db.refs;
      KillOwner(n, orig, before, RefsOf(c, H()), RefsOf(m, H()));
      ghost var refs2 := db.refs;
      it := JoinTo(n.key, m, List([orig.items[0], ref]));
      Multisets.ChainOwner(before, refs1, refs2, db.refs,
        RefsOf(c, H()), RefsOf(m, H()), RefsBelow(Join(n.key, m), H()), Own(n, H()));
    }

    /** The key ends at a branch that has a value. */
    method DeleteValue(ghost n: Node, orig: Item) returns (r: Option<Item>)
      requires CanDelete(n, []) && orig == ItemOf(n, H()) && n.Branch?
      modifies db
      ensures Deleted(n, [], r)
    {
      KillUnlessInline(n, orig, false);
      ghost var refs1 := db.refs;
      var it := RejigItem(orig.items, 16, n.slots, n.value);
      ghost var m := Rejig(n.slots, [], Hz()).node;
      Multisets.Chain(old(db.refs), refs1, db.refs, Gone(n, false), RefsBelow(n, H()), RefsBelow(m, H()));
      r := Some(it);
    }

    /** Copies the items of a branch, deleting below the one at `b`. */
    method DeleteInSlot(ghost c: Node, items: seq<Item>, b: nibble, k: Nibbles) returns (r: Option<seq<Item>>)
      requires CanDelete(c, k) && |items| == 17 && items[b] == Ref(c, H())
      modifies db
      ensures Ready() && db.DiskGrew(old(db.disk))
      ensures Delete(c, k, Hz()).Absent? ==> r == None && unchanged(db)
      ensures Delete(c, k, Hz()).Changed? ==>
        r == Some(items[b := Ref(Delete(c, k, Hz()).node, H())]) &&
        Change(old(db.refs), db.refs, RefsOf(c, H()), RefsOf(Delete(c, k, Hz()).node, H()))
      decreases c, 4
    {
      var out := CopyItems([], items, 0, b);
      var ref := DeleteAtAux(c, items[b], k);
      if ref == None {
        return None;
      }
      var next: nat := b as int + 1;
      out := CopyItems(out + [ref.value], items, next, 17);
      SpliceUpdate(items, b, ref.value);
      r := Some(out);
    }

    /** The key goes on in a slot of a branch. */
    method DeleteSlot(ghost n: Node, orig: Item, k: Nibbles) returns (r: Option<Item>)
      requires CanDelete(n, k) && orig == ItemOf(n, H()) && n.Branch? && k != []
      modifies db
      ensures Deleted(n, k, r)
      decreases n, 1
    {
      SlotReady(n, k);
      ghost var d := Delete(n.slots[k[0]], k[1..], Hz());
      var items := DeleteInSlot(n.slots[k[0]], orig.items, k[0], k[1..]);
      r := FinishSlot(n, orig, k, items, d, old(db.refs));
    }

    /** Nothing to do where the slot did not hold the key. */
    method FinishSlot(ghost n: Node, orig: Item, ghost k: Nibbles, items: Option<seq<Item>>, ghost d: Deletion,
                      ghost before: multiset<bytes>)
      returns (r: Option<Item>)
      requires Ready() && Canonical(n) && WellFormed(n) && n.Branch? && k != [] && orig == ItemOf(n, H())
      requires RefsAll(n.slots, H()) + Own(n, H()) <= before && |orig.items| == 17 && !Delete(n, k, Hz()).Fault?
      requires d == Delete(n.slots[k[0]], k[1..], Hz()) && (d.Absent? ==> items == None)
      requires d.Changed? ==>
        && items == Some(orig.items[k[0] := Ref(d.node, H())])
        && Change(before, db.refs, RefsOf(n.slots[k[0]], H()), RefsOf(d.node, H()))
      modifies db`main, db`refs
      ensures
        var whole := Delete(n, k, Hz());
        && Ready() && (whole.Absent? ==> r == None && unchanged(db))
        && (whole.Changed? ==>
              && r == Some(ItemOf(whole.node, H()))
              && Change(before, db.refs, RefsOf(n, H()), RefsBelow(whole.node, H())))
    {
      BranchDelete(n, k, Hz());
      if items == None {
        return None;
      }
      var it := RejoinSlot(n, orig, k, items.value, before);
      r := Some(it);
    }

    /** Puts the branch in shape whose slot for `k` has changed. */
    method RejoinSlot(ghost n: Node, orig: Item, ghost k: Nibbles, items: seq<Item>, ghost before: multiset<bytes>)
      returns (it: Item)
      requires Ready() && Canonical(n) && WellFormed(n) && n.Branch? && k != [] && orig == ItemOf(n, H())
      requires Delete(n, k, Hz()).Changed? && Delete(n.slots[k[0]], k[1..], Hz()).Changed?
      requires items == orig.items[k[0] := Ref(Delete(n.slots[k[0]], k[1..], Hz()).node, H())]
      requires RefsAll(n.slots, H()) + Own(n, H()) <= before
      requires Change(before, db.refs, RefsOf(n.slots[k[0]], H()),
        RefsOf(Delete(n.slots[k[0]], k[1..], Hz()).node, H()))
      modifies db`main, db`refs
      ensures Ready() && it == ItemOf(Delete(n, k, Hz()).node, H())
      ensures Change(before, db.refs, RefsOf(n, H()), RefsBelow(Delete(n, k, Hz()).node, H()))
    {
      ghost var m := Delete(n.slots[k[0]], k[1..], Hz()).node;
      BranchDelete(n, k, Hz());
      SlotDeleted(n, k, H(), Hz());
      SlotItems(n, k[0], m, H());
      SlotSwap(n, k[0], m, H(), before, db.refs);
      it := DeletedSlot(n, orig, items, n.slots[k[0] := m], before);
    }

    /** The end of a deletion in a slot: the branch goes, and what is left of it is put in shape. */
    method DeletedSlot(ghost n: Node, orig: Item, items: seq<Item>, ghost slots: seq<Node>,
                       ghost before: multiset<bytes>)
      returns (it: Item)
      requires Ready() && orig == ItemOf(n, H()) && n.Branch? && RefsAll(n.slots, H()) + Own(n, H()) <= before
      requires |slots| == 16 && (forall i :: 0 <= i < 16 ==> Canonical(slots[i]))
      requires items == Refs(slots, H()) + [Data(n.value)] && Rejig(slots, n.value, Hz()).Changed?
      requires Change(before, db.refs, RefsAll(n.slots, H()), RefsAll(slots, H()))
      modifies db`main, db`refs
      ensures Ready() && it == ItemOf(Rejig(slots, n.value, Hz()).node, H())
      ensures Change(before, db.refs, RefsAll(n.slots, H()) + Own(n, H()),
        RefsBelow(Rejig(slots, n.value, Hz()).node, H()))
    {
      ghost var refs1, was, now := db.refs, RefsAll(n.slots, H()), RefsAll(slots, H());
      KillOwner(n, orig, before, was, now);
      ghost var refs2 := db.refs;
      it := RejigItem(items, 255, slots, n.value);
      Multisets.ChainOwner(before, refs1, refs2, db.refs, was, now, RefsBelow(Rejig(slots, n.value, Hz()).node, H()),
        Own(n, H()));
    }

    // ------------------------------------------------------------ the interface

    /** The item of the root. */
    method RootItem() returns (it: Item)
      requires Valid()
      ensures it == ItemOf(node, H())
    {
      var r := db.Lookup(root);
      assert root in RefsRoot(node, H());
      it := r.value;
    }

    /** Opens a trie that is on disk as a whole. */
    constructor Open(db: Db, root: bytes, ghost n: Node)
      requires db.Valid() && NoStubs(db.refs, db.hash) && Canonical(n) && root == db.hash(ItemOf(n, db.hash))
      requires forall x :: x in RefsRoot(n, db.hash) ==> x in db.disk
      modifies db`refs
      ensures Valid() && this.db == db && node == n && db.refs == old(db.refs) + RefsRoot(n, db.hash)
    {
      this.db, this.root, node := db, root, n;
      CanonicalIsWellFormed(n);
      NoStubsRoot(n, db.hash);
      new;
      db.Adopt(RefsRoot(n, db.hash));
    }

    method At(key: bytes) returns (v: bytes)
      requires Valid()
      ensures v == Lookup(node, HexPrefix.AsNibbles(key))
    {
      var it := RootItem();
      assert Readable(RefsBelow(node, H())) by {
        Multisets.Parts(RefsBelow(node, H()), multiset{root}, db.refs);
      }
      v := AtAux(node, it, HexPrefix.AsNibbles(key));
    }

    method Insert(key: bytes, value: bytes)
      requires Valid() && value != []
      modifies this, db
      ensures Valid() && db.DiskGrew(old(db.disk))
      ensures node == Inserted(old(node), HexPrefix.AsNibbles(key), value)
      ensures Change(old(db.refs), db.refs, RefsRoot(old(node), H()), RefsRoot(node, H()))
    {
      var k := HexPrefix.AsNibbles(key);
      var rootItem := RootItem();
      RootParts();
      ghost var m := Inserted(node, k, value);
      InsertCanonical(node, k, value);
      var it := MergeAt(node, rootItem, k, value, false);
      ReplaceRoot(m, rootItem, it, old(db.refs));
    }

    /** The references of a valid trie's root node, as insertion and removal find them. */
    lemma RootParts()
      requires Valid()
      ensures Gone(node, false) == RefsOf(node, H()) <= db.refs
      ensures Size(ItemOf(node, H())) < HASHED ==> RefsOf(node, H()) + multiset{root} == RefsRoot(node, H())
      ensures Size(ItemOf(node, H())) >= HASHED ==> RefsOf(node, H()) == RefsRoot(node, H())
    {
      Multisets.Parts(RefsBelow(node, H()), multiset{root}, db.refs);
    }

    /** Kills a short root, which nothing else has killed, and stores the new one. */
    method ReplaceRoot(ghost m: Node, rootItem: Item, it: Item, ghost before: multiset<bytes>)
      requires Ready() && rootItem == ItemOf(node, H()) && root == H()(rootItem)
      requires RefsRoot(node, H()) <= before
      requires Canonical(m) && WellFormed(m) && it == ItemOf(m, H())
      requires Change(before, db.refs, RefsOf(node, H()), RefsBelow(m, H()))
      modifies this, db
      ensures Valid() && node == m && db.DiskGrew(old(db.disk))
      ensures Change(before, db.refs, RefsRoot(old(node), H()), RefsRoot(m, H()))
    {
      ghost var n := node;
      KillShortRoot(m, rootItem, before);
      StoreRoot(m, it, before, RefsRoot(n, H()));
      Multisets.KeepsAll(before, db.refs, RefsRoot(n, H()), RefsRoot(m, H()));
    }

    method KillShortRoot(ghost m: Node, rootItem: Item, ghost before: multiset<bytes>)
      requires Ready() && rootItem == ItemOf(node, H()) && root == H()(rootItem)
      requires RefsRoot(node, H()) <= before
      requires Change(before, db.refs, RefsOf(node, H()), RefsBelow(m, H()))
      modifies db`main, db`refs
      ensures Ready() && Change(before, db.refs, RefsRoot(node, H()), RefsBelow(m, H()))
      ensures Fits(rootItem) && |Rlp.Encode(rootItem)| <= 31 ==> db.refs == old(db.refs) - multiset{root}
      ensures Fits(rootItem) && |Rlp.Encode(rootItem)| >= 32 ==> unchanged(db)
    {
      ghost var below := RefsBelow(node, H());
      if Size(rootItem) < HASHED {
        assert RefsOf(node, H()) == below;
        Multisets.DropOwner(before, db.refs, below, RefsBelow(m, H()), multiset{root});
        var _ := db.Kill(root);
      } else {
        assert RefsOf(node, H()) == RefsRoot(node, H());
      }
    }

    method StoreRoot(ghost m: Node, it: Item, ghost before: multiset<bytes>, ghost gone: multiset<bytes>)
      requires Ready() && Canonical(m) && it == ItemOf(m, H()) && Change(before, db.refs, gone, RefsBelow(m, H()))
      modifies this, db
      ensures Ready() && db.DiskGrew(old(db.disk)) && node == m && root == H()(it)
      ensures Change(before, db.refs, gone, RefsRoot(m, H()))
    {
      Multisets.Gain(before, db.refs, gone, RefsBelow(m, H()), multiset{H()(it)});
      NoStubsAdd(db.refs, m, H());
      root := db.hash(it);
      node := m;
      db.Insert(root, it);
    }

    /** Removes a key, when the stored keys are such that the code can; an absent key changes nothing. */
    method Remove(key: bytes)
      requires Valid() && SafeToRemove(node, HexPrefix.AsNibbles(key), Hz())
      modifies this, db
      ensures Valid() && db.DiskGrew(old(db.disk))
      ensures
        var k := HexPrefix.AsNibbles(key);
        if Present(old(node), k) then
          && Delete(old(node), k, Hz()) == Changed(node)
          && Change(old(db.refs), db.refs, RefsRoot(old(node), H()), RefsRoot(node, H()))
        else unchanged(this) && unchanged(db)
    {
      var k := HexPrefix.AsNibbles(key);
      var rootItem := RootItem();
      RootParts();
      FaultExactlyWhenUnsafe(node, k, Hz());
      DeleteFindsPresent(node, k, Hz());
      DeleteLookup(node, k, k, Hz());
      var d := DeleteAt(node, rootItem, k);
      if d.Some? {
        DeleteCanonical(node, k, Hz());
        CanonicalIsWellFormed(Delete(node, k, Hz()).node);
        ReplaceRoot(Delete(node, k, Hz()).node, rootItem, d.value, old(db.refs));
      }
    }

    // -------------------------------------------------------- the debugging scan

    /** Strikes a node and everything below it off a set of hashes; `ok` is false on a malformed trie. */
    method DescendEntry(ghost n: Node, ref: Item, mask: set<bytes>, wasExt: bool) returns (ok: bool, left: set<bytes>)
      requires db.Valid() && Canonical(n) && n != Empty && ref == Ref(n, H()) && Readable(RefsOf(n, H()))
      requires wasExt ==> n.Branch?
      ensures ok && left == mask - Distinct(RefsOf(n, H()))
      decreases n, 1
    {
      RefNull(n, H());
      ReadableParts(n);
      if ref.List? {
        ok, left := DescendList(n, ref, mask, wasExt);
      } else {
        var it := Deref(n, ref);
        ok, left := DescendList(n, it, mask - {ref.payload}, wasExt);
      }
    }

    method DescendList(ghost n: Node, it: Item, mask: set<bytes>, wasExt: bool) returns (ok: bool, left: set<bytes>)
      requires db.Valid() && Canonical(n) && n != Empty && it == ItemOf(n, H()) && Readable(RefsBelow(n, H()))
      requires wasExt ==> n.Branch?
      ensures ok && left == mask - Distinct(RefsBelow(n, H()))
      decreases n, 0
    {
      ItemCount(n, H());
      if |it.items| == 2 && !wasExt {
        PairShape(n, H());
        if HexPrefix.IsLeaf(it.items[0].payload) {
          return true, mask;
        }
        ok, left := DescendEntry(n.child, it.items[1], mask, true);
      } else if |it.items| == 17 {
        ok, left := DescendSlots(n, it, mask);
      } else {
        return false, mask;
      }
    }

    method DescendSlots(ghost n: Node, it: Item, mask: set<bytes>) returns (ok: bool, left: set<bytes>)
      requires db.Valid() && Canonical(n) && n.Branch? && it == ItemOf(n, H()) && Readable(RefsAll(n.slots, H()))
      ensures ok && left == mask - Distinct(RefsAll(n.slots, H()))
      decreases n, 0, 0
    {
      ok, left := true, mask;
      assert n.slots[..0] == [];
      for i := 0 to 16
        invariant ok && left == mask - Distinct(RefsAll(n.slots[..i], H()))
      {
        ReadableSlot(n.slots, i);
        ok, left := DescendSlot(n.slots[i], it.items[i], left);
        RefsAllSnoc(n.slots, i, H());
        StruckOff(mask, RefsAll(n.slots[..i], H()), RefsOf(n.slots[i], H()));
      }
      assert n.slots[..16] == n.slots;
    }

    method DescendSlot(ghost c: Node, ref: Item, mask: set<bytes>) returns (ok: bool, left: set<bytes>)
      requires db.Valid() && Canonical(c) && ref == Ref(c, H()) && Readable(RefsOf(c, H()))
      ensures ok && left == mask - Distinct(RefsOf(c, H()))
      decreases c, 2
    {
      RefNull(c, H());
      if IsEmpty(ref) {
        return true, mask;
      }
      ok, left := DescendEntry(c, ref, mask, false);
    }

    lemma ReadableSlot(slots: seq<Node>, i: nat)
      requires i < |slots| && Readable(RefsAll(slots, H()))
      ensures Readable(RefsOf(slots[i], H()))
    {
      RefsAllUpdate(slots, i, Empty, H());
    }

    /** Hashes that the store counts but the trie does not refer to. */
    method LeftOvers() returns (ok: bool, left: set<bytes>)
      requires Valid()
      ensures ok && forall x :: x in left <==> db.Count(x) > 0 && x !in RefsRoot(node, H())
      ensures db.disk == map[] && db.refs == RefsRoot(node, H()) ==> left == {}
    {
      var ks := db.Keys();
      ok, left := true, ks - {root};
      RefNull(node, H());
      if root != db.hash(NULL_ITEM) {
        var it := RootItem();
        Multisets.Parts(RefsBelow(node, H()), multiset{root}, db.refs);
        ok, left := DescendList(node, it, left, false);
      }
    }
  }
}
