/** What insertion does to the contents and the shape of a trie. */
module TrieInsert {
  import opened Bytes
  import opened TrieNode

  lemma {:induction false} CleveLookup(n: Node, s: nat, q: Nibbles)
    requires WellFormed(n) && (n.Leaf? || n.Extension?)
    requires 0 < s <= |n.key| && (n.Extension? ==> s < |n.key|)
    ensures Lookup(Cleve(n, s), q) == Lookup(n, q)
  {
    if n.key[..s] <= q {
      SharedPrefixCut(n.key, q, s);
    } else {
      NoPrefixCut(n.key, q, s);
    }
  }

  /** Cutting the same nibbles off two keys. */
  lemma {:induction false} SharedPrefixCut(k: Nibbles, q: Nibbles, s: nat)
    requires s <= |k| && s <= |q| && k[..s] == q[..s]
    ensures k <= q <==> k[s..] <= q[s..]
    ensures k == q <==> k[s..] == q[s..]
    ensures k <= q ==> q[|k|..] == q[s..][|k| - s..]
  {
    assert k == k[..s] + k[s..] && q == q[..s] + q[s..];
  }

  lemma {:induction false} NoPrefixCut(k: Nibbles, q: Nibbles, s: nat)
    requires s <= |k| && !(k[..s] <= q)
    ensures !(k <= q)
  {
    assert k <= q ==> k[..s] <= q;
  }

  /** Replacing the node in the slot of `k` shows under keys that start like `k` only. */
  lemma {:induction false} SlotLookup(slots: seq<Node>, value: bytes, i: nibble, c: Node, q: Nibbles)
    requires WellFormed(Branch(slots, value)) && WellFormed(c)
    ensures WellFormed(Branch(slots[i := c], value))
    ensures Lookup(Branch(slots[i := c], value), q) ==
      if q != [] && q[0] == i then Lookup(c, q[1..]) else Lookup(Branch(slots, value), q)
  {
  }

  lemma {:induction false} NoSlotsLookup(value: bytes, q: Nibbles)
    ensures WellFormed(Branch(NO_SLOTS, value))
    ensures Lookup(Branch(NO_SLOTS, value), q) == if q == [] then value else []
  {
    if q != [] {
      assert NO_SLOTS[q[0]] == Empty;
    }
  }

  lemma {:induction false} BelowLookup(n: Node, q: Nibbles)
    requires WellFormed(n) && (n.Leaf? || n.Extension?) && n.key != []
    ensures WellFormed(Below(n))
    ensures Lookup(n, q) == if q != [] && q[0] == n.key[0] then Lookup(Below(n), q[1..]) else []
  {
    var k0 := n.key;
    if q != [] && q[0] == k0[0] {
      assert k0[..1] == q[..1];
      SharedPrefixCut(k0, q, 1);
    }
  }

  lemma {:induction false} BranchOfLookup(n: Node, q: Nibbles)
    requires WellFormed(n) && (n.Leaf? || n.Extension?)
    ensures WellFormed(BranchOf(n))
    ensures Lookup(BranchOf(n), q) == Lookup(n, q)
  {
    if n.key == [] {
      NoSlotsLookup(n.value, q);
    } else {
      NoSlotsLookup([], q);
      BelowLookup(n, q);
      SlotLookup(NO_SLOTS, [], n.key[0], Below(n), q);
    }
  }

  lemma {:induction false} ReshapeLookup(n: Node, k: Nibbles, q: Nibbles)
    requires WellFormed(n) && !Admits(n, k)
    ensures Lookup(Reshape(n, k), q) == Lookup(n, q)
  {
    var s := Shared(k, n.key);
    if s > 0 { CleveLookup(n, s, q); } else { BranchOfLookup(n, q); }
  }

  /** Insertion changes the value under `k` and under no other key. */
  lemma {:induction false} InsertLookup(n: Node, k: Nibbles, v: bytes, q: Nibbles)
    requires WellFormed(n)
    ensures Lookup(Inserted(n, k, v), q) == if q == k then v else Lookup(n, q)
    decreases |k|, if Admits(n, k) then 0 else 1
  {
    if !Admits(n, k) {
      InsertLookup(Reshape(n, k), k, v, q);
      ReshapeLookup(n, k, q);
    } else {
      match n
      case Empty =>
      case Leaf(k0, v0) =>
      case Extension(k0, c) =>
        if k0 <= q {
          InsertLookup(c, k[|k0|..], v, q[|k0|..]);
          SplitPrefix(k0, k);
          SplitPrefix(k0, q);
        }
      case Branch(slots, v0) =>
        if k != [] {
          if q != [] && q[0] == k[0] { InsertLookup(slots[k[0]], k[1..], v, q[1..]); }
          BranchInsertLookup(slots, v0, k, v, q);
        }
    }
  }

  lemma {:induction false} SplitPrefix(p: Nibbles, k: Nibbles)
    requires p <= k
    ensures k == p + k[|p|..]
  {
  }

  lemma {:induction false} BranchInsertLookup(slots: seq<Node>, v0: bytes, k: Nibbles, v: bytes, q: Nibbles)
    requires WellFormed(Branch(slots, v0)) && k != []
    requires q != [] && q[0] == k[0] ==>
      Lookup(Inserted(slots[k[0]], k[1..], v), q[1..]) == if q[1..] == k[1..] then v else Lookup(slots[k[0]], q[1..])
    ensures Lookup(Inserted(Branch(slots, v0), k, v), q) == if q == k then v else Lookup(Branch(slots, v0), q)
  {
    SlotLookup(slots, v0, k[0], Inserted(slots[k[0]], k[1..], v), q);
    HeadTail(k);
    if q != [] { HeadTail(q); }
  }

  /** A branch whose only used slot `i` is not the one `k` goes to gets its second one. */
  lemma {:induction false} StubInsertCanonical(b: Node, i: int, k: Nibbles, v: bytes)
    requires b.Branch? && WellFormed(b) && Used(b.slots, b.value, i) && v != []
    requires forall j :: 0 <= j < 16 ==> Canonical(b.slots[j])
    requires k == [] ==> i != 16
    requires k != [] ==> i != k[0] && b.slots[k[0]] == Empty
    ensures Inserted(b, k, v).Branch? && Canonical(Inserted(b, k, v))
  {
    var r := Inserted(b, k, v);
    var j := if k == [] then 16 else k[0];
    if k != [] { assert Inserted(Empty, k[1..], v) == Leaf(k[1..], v); }
    assert Used(r.slots, r.value, i);
    assert Used(r.slots, r.value, j);
    assert TwoUsed(r.slots, r.value) by {
      if i < j { assert 0 <= i < j; } else { assert 0 <= j < i; }
    }
  }

  /** A pair as a branch uses the place of its first nibble, or of the value, and no other. */
  lemma {:induction false} BranchOfShape(n: Node, j: nat)
    requires Canonical(n) && WellFormed(n) && (n.Leaf? || n.Extension?) && j < 16
    ensures
      var b := BranchOf(n);
      && WellFormed(b) && Canonical(b.slots[j]) && Used(b.slots, b.value, if n.key == [] then 16 else n.key[0])
      && (b.slots[j] != Empty ==> n.key != [] && n.key[0] == j)
  {
    NoSlotsAt(j);
    BranchOfLookup(n, []);
  }

  /** A pair that shares nothing with `k` becomes a branch with two used slots. */
  lemma {:induction false} DivergingInsertCanonical(n: Node, k: Nibbles, v: bytes)
    requires Canonical(n) && WellFormed(n) && (n.Leaf? || n.Extension?) && !Admits(n, k)
    requires Shared(k, n.key) == 0 && v != []
    ensures Inserted(n, k, v).Branch? && Canonical(Inserted(n, k, v))
  {
    var b := BranchOf(n);
    assert Inserted(n, k, v) == Inserted(b, k, v);
    forall j: nat | j < 16
      ensures Canonical(b.slots[j]) && (b.slots[j] != Empty ==> n.key != [] && n.key[0] == j)
    {
      BranchOfShape(n, j);
    }
    BranchOfShape(n, 0);
    StubInsertCanonical(b, if n.key == [] then 16 else n.key[0], k, v);
  }

  /** A pair that shares its first `s` nibbles with `k` is split there, above a branch. */
  lemma {:induction false} SplitInsertCanonical(n: Node, k: Nibbles, v: bytes, s: nat)
    requires Canonical(n) && WellFormed(n) && (n.Leaf? || n.Extension?) && !Admits(n, k)
    requires s == Shared(k, n.key) > 0 && v != []
    ensures Canonical(Inserted(n, k, v)) && Inserted(n, k, v) != Empty
  {
    var c := Cleve(n, s);
    var k1 := k[s..];
    assert k == k[..s] + k1 && n.key == n.key[..s] + n.key[s..];
    assert c.key <= k && k[|c.key|..] == k1;
    assert !Admits(c.child, k1);
    assert Shared(k1, c.child.key) == 0;
    DivergingInsertCanonical(c.child, k1, v);
    assert Inserted(c, k, v) == Extension(c.key, Inserted(c.child, k1, v));
  }

  /** Insertion keeps the canonical shape, for keys of any length. */
  lemma {:induction false} InsertCanonical(n: Node, k: Nibbles, v: bytes)
    requires Canonical(n) && WellFormed(n) && v != []
    ensures Canonical(Inserted(n, k, v)) && Inserted(n, k, v) != Empty
    ensures n.Branch? ==> Inserted(n, k, v).Branch?
    decreases |k|
  {
    if Admits(n, k) {
      match n
      case Empty =>
      case Leaf(k0, v0) =>
      case Extension(k0, c) =>
        InsertCanonical(c, k[|k0|..], v);
      case Branch(slots, v0) =>
        var i, j :| 0 <= i < j && Used(slots, v0, i) && Used(slots, v0, j);
        var r := Inserted(n, k, v);
        if k != [] { InsertCanonical(slots[k[0]], k[1..], v); }
        assert Used(r.slots, r.value, i) && Used(r.slots, r.value, j);
    } else {
      var s := Shared(k, n.key);
      if s == 0 {
        DivergingInsertCanonical(n, k, v);
      } else {
        SplitInsertCanonical(n, k, v, s);
      }
    }
  }
}
