/** What removal does to the contents and the shape of a trie. */
module TrieDelete {
  import opened Bytes
  import opened TrieNode
  import opened TrieInsert

  lemma {:induction false} JoinLookup(k: Nibbles, c: Node, q: Nibbles)
    requires WellFormed(c) && c != Empty && k != []
    ensures WellFormed(Join(k, c))
    ensures Lookup(Join(k, c), q) == if k <= q then Lookup(c, q[|k|..]) else []
  {
    if c.Leaf? || c.Extension? {
      if k <= q {
        assert q == k + q[|k|..];
        assert k + c.key <= q <==> c.key <= q[|k|..];
        if k + c.key <= q { assert q[|k + c.key|..] == q[|k|..][|c.key|..]; }
      } else {
        assert !(k + c.key <= q);
      }
    }
  }

  lemma {:induction false} RejigLookup(slots: seq<Node>, value: bytes, q: Nibbles, hz: Hazard)
    requires WellFormed(Branch(slots, value))
    requires Rejig(slots, value, hz).Changed?
    ensures WellFormed(Rejig(slots, value, hz).node)
    ensures Lookup(Rejig(slots, value, hz).node, q) == Lookup(Branch(slots, value), q)
  {
    var u := UniqueInUse(slots, value);
    if u == 16 {
      if q != [] { assert !Used(slots, value, q[0]); }
    } else if u != 255 {
      JoinLookup([u], slots[u], q);
      assert !Used(slots, value, 16);
      if q != [] && q[0] != u { assert !Used(slots, value, q[0]); }
    }
  }

  /** A deletion that changes the trie clears the value under `k` and no other. */
  lemma {:induction false} DeleteLookup(n: Node, k: Nibbles, q: Nibbles, hz: Hazard)
    requires WellFormed(n)
    ensures Delete(n, k, hz).Absent? ==> Lookup(n, k) == []
    ensures Delete(n, k, hz).Changed? ==>
      WellFormed(Delete(n, k, hz).node) &&
      Lookup(Delete(n, k, hz).node, q) == if q == k then [] else Lookup(n, q)
    decreases n, 1
  {
    match n
    case Empty =>
    case Leaf(k0, v0) =>
    case Extension(k0, c) =>
      if k0 <= k {
        var k1 := k[|k0|..];
        var q1 := if k0 <= q then q[|k0|..] else [];
        DeleteLookup(c, k1, q1, hz);
        if Delete(n, k, hz).Changed? { JoinLookup(k0, Delete(c, k1, hz).node, q); }
        if k0 <= q { assert k == k0 + k1 && q == k0 + q1; }
      }
    case Branch(slots, v0) =>
      if k == [] {
        if v0 != [] && Rejig(slots, [], hz).Changed? { RejigLookup(slots, [], q, hz); }
      } else {
        BranchDeleteLookup(slots, v0, k, q, hz);
      }
  }

  lemma {:induction false} BranchDeleteLookup(slots: seq<Node>, v0: bytes, k: Nibbles, q: Nibbles, hz: Hazard)
    requires WellFormed(Branch(slots, v0)) && k != []
    ensures
      var n := Branch(slots, v0);
      (Delete(n, k, hz).Absent? ==> Lookup(n, k) == []) &&
      (Delete(n, k, hz).Changed? ==>
        WellFormed(Delete(n, k, hz).node) &&
        Lookup(Delete(n, k, hz).node, q) == if q == k then [] else Lookup(n, q))
    decreases Branch(slots, v0), 0
  {
    var i, k1 := k[0], k[1..];
    var q1 := if q != [] then q[1..] else [];
    var c := slots[i];
    assert c < Branch(slots, v0);
    DeleteLookup(c, k1, q1, hz);
    var d := Delete(c, k1, hz);
    if d.Changed? && Rejig(slots[i := d.node], v0, hz).Changed? {
      SlotLookup(slots, v0, i, d.node, q);
      RejigLookup(slots[i := d.node], v0, q, hz);
      assert k == [i] + k1;
      if q != [] { assert q == [q[0]] + q1; }
    }
  }

  lemma {:induction false} JoinCanonical(k: Nibbles, c: Node)
    requires Canonical(c) && c != Empty && k != []
    ensures Canonical(Join(k, c)) && Join(k, c) != Empty
  {
  }

  /** Clearing or shrinking one slot of a canonical branch and rejigging it restores the shape. */
  lemma {:induction false} RejigCanonical(slots: seq<Node>, value: bytes, i: int, hz: Hazard)
    requires |slots| == 16 && (forall i :: 0 <= i < 16 ==> Canonical(slots[i]))
    requires Used(slots, value, i)
    requires Rejig(slots, value, hz).Changed?
    ensures Canonical(Rejig(slots, value, hz).node) && Rejig(slots, value, hz).node != Empty
  {
    var u := UniqueInUse(slots, value);
    if u == 255 {
      assert Canonical(Branch(slots, value));
    } else if u < 16 {
      JoinCanonical([u], slots[u]);
    }
  }

  /** Deletion keeps the canonical shape. */
  lemma {:induction false} DeleteCanonical(n: Node, k: Nibbles, hz: Hazard)
    requires Canonical(n) && WellFormed(n)
    requires Delete(n, k, hz).Changed?
    ensures Canonical(Delete(n, k, hz).node)
    ensures n.Branch? ==> Delete(n, k, hz).node != Empty
    decreases n
  {
    match n
    case Leaf(k0, v0) =>
    case Extension(k0, c) =>
      DeleteCanonical(c, k[|k0|..], hz);
      JoinCanonical(k0, Delete(c, k[|k0|..], hz).node);
    case Branch(slots, v0) =>
      var i, j :| 0 <= i < j && Used(slots, v0, i) && Used(slots, v0, j);
      if k == [] {
        RejigCanonical(slots, [], i, hz);
      } else {
        DeleteCanonical(slots[k[0]], k[1..], hz);
        var slots' := slots[k[0] := Delete(slots[k[0]], k[1..], hz).node];
        RejigCanonical(slots', v0, if i == k[0] then j else i, hz);
      }
  }

  /** What is present is what a changing deletion can find. */
  lemma {:induction false} DeleteFindsPresent(n: Node, k: Nibbles, hz: Hazard)
    requires Canonical(n) && WellFormed(n)
    ensures Delete(n, k, hz).Changed? ==> Present(n, k)
    decreases n
  {
    match n
    case Empty =>
    case Leaf(k0, v0) =>
    case Extension(k0, c) => if k0 <= k { DeleteFindsPresent(c, k[|k0|..], hz); }
    case Branch(slots, v0) => if k != [] { DeleteFindsPresent(slots[k[0]], k[1..], hz); }
  }
}
