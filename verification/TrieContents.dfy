/**
 A canonical trie is determined by its contents, and a deletion goes wrong
 exactly on key sets that a caller can recognise.
 */
module TrieContents {
  import opened Bytes
  import opened TrieNode
  import opened TrieInsert
  import opened TrieDelete

  ghost predicate SameContents(a: Node, b: Node)
    requires WellFormed(a) && WellFormed(b)
  {
    forall k :: Lookup(a, k) == Lookup(b, k)
  }

  lemma {:induction false} SomeKey(n: Node) returns (k: Nibbles)
    requires Canonical(n) && WellFormed(n) && n != Empty
    ensures Present(n, k)
    decreases n, 1
  {
    match n
    case Leaf(k0, v0) => k := k0;
    case Extension(k0, c) =>
      var k1 := SomeKey(c);
      k := k0 + k1;
      assert k[|k0|..] == k1;
    case Branch(slots, v0) =>
      var i, j :| 0 <= i < j && Used(slots, v0, i) && Used(slots, v0, j);
      k := SlotKey(n, i);
  }

  lemma {:induction false} SlotKey(n: Node, i: int) returns (k: Nibbles)
    requires Canonical(n) && WellFormed(n) && n.Branch? && Used(n.slots, n.value, i)
    ensures Present(n, k)
    ensures i == 16 ==> k == []
    ensures i != 16 ==> k != [] && k[0] == i
    decreases n, 0
  {
    if i == 16 {
      k := [];
    } else {
      var k1 := SomeKey(n.slots[i]);
      k := [i] + k1;
      assert k[1..] == k1;
    }
  }

  /** Two keys of a canonical branch that part at its level, the first of them not ending there. */
  lemma BranchKeys(n: Node) returns (p: Nibbles, q: Nibbles)
    requires Canonical(n) && WellFormed(n) && n.Branch?
    ensures Present(n, p) && Present(n, q)
    ensures p != [] && (q == [] || p[0] != q[0])
  {
    var i, j :| 0 <= i < j && Used(n.slots, n.value, i) && Used(n.slots, n.value, j);
    p := SlotKey(n, i);
    q := SlotKey(n, j);
    assert i < 16;
  }

  lemma EmptyIsNotMore(a: Node, b: Node)
    requires Canonical(a) && Canonical(b) && WellFormed(a) && WellFormed(b)
    requires (a == Empty) != (b == Empty)
    ensures !SameContents(a, b)
  {
    var k := SomeKey(if a == Empty then b else a);
    assert Lookup(a, k) != Lookup(b, k);
  }

  lemma PresentBelow(n: Node, q: Nibbles)
    requires WellFormed(n) && n.Extension?
    ensures Lookup(n, n.key + q) == Lookup(n.child, q)
  {
    assert (n.key + q)[|n.key|..] == q;
  }

  /** A leaf holds one key, so its contents are not those of an extension or a branch. */
  lemma LeafIsNotMore(a: Node, b: Node)
    requires WellFormed(a) && WellFormed(b) && Canonical(b)
    requires a.Leaf? && (b.Extension? || b.Branch?)
    ensures !SameContents(a, b)
  {
    if b.Branch? {
      var p, q := BranchKeys(b);
      assert Present(a, p) != Present(b, p) || Present(a, q) != Present(b, q);
    } else {
      var p, q := BranchKeys(b.child);
      PresentBelow(b, p);
      PresentBelow(b, q);
      assert b.key + p != b.key + q by {
        assert (b.key + p)[|b.key|..] == p && (b.key + q)[|b.key|..] == q;
      }
      assert Present(a, b.key + p) != Present(b, b.key + p) || Present(a, b.key + q) != Present(b, b.key + q);
    }
  }

  /** All keys below an extension share its key; those of a branch part at once. */
  lemma ExtensionIsNotBranch(a: Node, b: Node)
    requires WellFormed(a) && WellFormed(b) && Canonical(b)
    requires a.Extension? && b.Branch?
    ensures !SameContents(a, b)
  {
    var p, q := BranchKeys(b);
    assert Present(a, p) != Present(b, p) || Present(a, q) != Present(b, q);
  }

  /** What two keys share is no longer than the point where they part. */
  lemma SharedByParting(u: Nibbles, p: Nibbles, q: Nibbles, w: Nibbles)
    requires p != [] && (q == [] || p[0] != q[0])
    requires w <= u + p && w <= u + q
    ensures |w| <= |u|
  {
    assert (u + p)[|u|] == p[0];
    if q != [] { assert (u + q)[|u|] == q[0]; }
  }

  /** The key of an extension is as long as what all its keys share. */
  lemma ExtensionKeyIsLongest(a: Node, b: Node)
    requires WellFormed(a) && WellFormed(b) && Canonical(a)
    requires a.Extension? && b.Extension? && SameContents(a, b)
    ensures b.key <= a.key
  {
    var p, q := BranchKeys(a.child);
    PresentBelow(a, p);
    PresentBelow(a, q);
    assert Present(b, a.key + p) && Present(b, a.key + q);
    assert b.key <= a.key + p && b.key <= a.key + q;
    SharedByParting(a.key, p, q, b.key);
    assert b.key == (a.key + p)[..|b.key|] == a.key[..|b.key|];
  }

  lemma ExtensionChildren(a: Node, b: Node)
    requires WellFormed(a) && WellFormed(b)
    requires a.Extension? && b.Extension? && a.key == b.key && SameContents(a, b)
    ensures SameContents(a.child, b.child)
  {
    forall q ensures Lookup(a.child, q) == Lookup(b.child, q) {
      PresentBelow(a, q);
      PresentBelow(b, q);
    }
  }

  lemma BranchChildren(a: Node, b: Node, i: nibble)
    requires WellFormed(a) && WellFormed(b)
    requires a.Branch? && b.Branch? && SameContents(a, b)
    ensures SameContents(a.slots[i], b.slots[i])
  {
    forall q ensures Lookup(a.slots[i], q) == Lookup(b.slots[i], q) {
      assert ([i] + q)[1..] == q;
      assert Lookup(a, [i] + q) == Lookup(b, [i] + q);
    }
  }

  /** Two canonical tries with the same contents are the same trie. */
  lemma {:induction false} CanonicalUnique(a: Node, b: Node)
    requires Canonical(a) && Canonical(b) && WellFormed(a) && WellFormed(b)
    requires SameContents(a, b)
    ensures a == b
    decreases a
  {
    if a == Empty || b == Empty {
      if a != b { EmptyIsNotMore(a, b); }
    } else if a.Leaf? && b.Leaf? {
      assert Lookup(a, a.key) == Lookup(b, a.key);
    } else if a.Leaf? {
      LeafIsNotMore(a, b);
    } else if b.Leaf? {
      LeafIsNotMore(b, a);
    } else if a.Extension? && b.Extension? {
      ExtensionKeyIsLongest(a, b);
      ExtensionKeyIsLongest(b, a);
      ExtensionChildren(a, b);
      CanonicalUnique(a.child, b.child);
    } else if a.Extension? {
      ExtensionIsNotBranch(a, b);
    } else if b.Extension? {
      ExtensionIsNotBranch(b, a);
    } else {
      assert Lookup(a, []) == Lookup(b, []);
      forall i: nibble ensures a.slots[i] == b.slots[i] {
        BranchChildren(a, b, i);
        CanonicalUnique(a.slots[i], b.slots[i]);
      }
      assert a.slots == b.slots;
    }
  }

  // ------------------------------------------------- when a deletion is safe

  /** Some stored key other than `k` continues `p`. */
  ghost predicate ContinuedBesides(n: Node, p: Nibbles, k: Nibbles)
    requires WellFormed(n)
  {
    exists q :: Present(n, q) && ProperPrefix(p, q) && q != k
  }

  /** The removal of `k` does not isolate a stored key `p` that `k` continues, or isolates it without harm. */
  ghost predicate PrefixSafe(n: Node, p: Nibbles, k: Nibbles, hz: Hazard)
    requires WellFormed(n)
  {
    ContinuedBesides(n, p, k) || (Present(n, k) && Lookup(n, p) !in hz)
  }

  /** Every stored key that `k` continues is continued by another stored key too, or has a value that is no hazard. */
  ghost predicate PrefixesShared(n: Node, k: Nibbles, hz: Hazard)
    requires WellFormed(n)
  {
    forall p :: ProperPrefix(p, k) && Present(n, p) ==> PrefixSafe(n, p, k, hz)
  }

  /** The stored keys that continue `k` all go on with the same nibble. */
  ghost predicate NoParting(n: Node, k: Nibbles)
    requires WellFormed(n)
  {
    forall p, q :: Present(n, p) && Present(n, q) && ProperPrefix(k, p) && ProperPrefix(k, q) ==> p[|k|] == q[|k|]
  }

  /** What a caller has to check before removing `k`; true whenever all keys have one length. */
  ghost predicate SafeToRemove(n: Node, k: Nibbles, hz: Hazard)
    requires WellFormed(n)
  {
    PrefixesShared(n, k, hz) && (Present(n, k) || NoParting(n, k))
  }

  lemma SameLengthIsSafe(n: Node, k: Nibbles, hz: Hazard)
    requires WellFormed(n)
    requires forall q :: Present(n, q) ==> |q| == |k|
    ensures SafeToRemove(n, k, hz)
  {
  }

  lemma ExtensionPresent(n: Node, q: Nibbles)
    requires WellFormed(n) && n.Extension? && Present(n, q)
    ensures n.key <= q && q == n.key + q[|n.key|..] && Present(n.child, q[|n.key|..])
  {
  }

  lemma PrefixBelow(u: Nibbles, p: Nibbles, q: Nibbles)
    ensures ProperPrefix(u + p, u + q) <==> ProperPrefix(p, q)
    ensures u + p == u + q <==> p == q
  {
    assert (u + p)[|u|..] == p && (u + q)[|u|..] == q;
    if |p| <= |q| { assert (u + q)[..|u + p|] == u + q[..|p|]; }
  }

  lemma ExtensionContinued(n: Node, p: Nibbles, k: Nibbles)
    requires WellFormed(n) && n.Extension?
    ensures ContinuedBesides(n, n.key + p, n.key + k) <==> ContinuedBesides(n.child, p, k)
  {
    var u := n.key;
    if ContinuedBesides(n, u + p, u + k) {
      var q :| Present(n, q) && ProperPrefix(u + p, q) && q != u + k;
      ExtensionPresent(n, q);
      PrefixBelow(u, p, q[|u|..]);
      assert Present(n.child, q[|u|..]) && q[|u|..] != k;
    }
    if ContinuedBesides(n.child, p, k) {
      var q :| Present(n.child, q) && ProperPrefix(p, q) && q != k;
      PresentBelow(n, q);
      PrefixBelow(u, p, q);
      PrefixBelow(u, q, k);
      assert Present(n, u + q);
    }
  }

  lemma ExtensionPrefixSafe(n: Node, p: Nibbles, k: Nibbles, hz: Hazard)
    requires WellFormed(n) && n.Extension?
    ensures PrefixSafe(n, n.key + p, n.key + k, hz) <==> PrefixSafe(n.child, p, k, hz)
  {
    ExtensionContinued(n, p, k);
    PresentBelow(n, p);
    PresentBelow(n, k);
  }

  lemma ExtensionPrefixesShared(n: Node, k: Nibbles, hz: Hazard)
    requires WellFormed(n) && n.Extension?
    ensures PrefixesShared(n, n.key + k, hz) <==> PrefixesShared(n.child, k, hz)
  {
    var u := n.key;
    if PrefixesShared(n, u + k, hz) {
      forall p | ProperPrefix(p, k) && Present(n.child, p) ensures PrefixSafe(n.child, p, k, hz) {
        PresentBelow(n, p);
        PrefixBelow(u, p, k);
        ExtensionPrefixSafe(n, p, k, hz);
        assert Present(n, u + p);
      }
    }
    if PrefixesShared(n.child, k, hz) {
      forall p | ProperPrefix(p, u + k) && Present(n, p) ensures PrefixSafe(n, p, u + k, hz) {
        ExtensionPresent(n, p);
        PrefixBelow(u, p[|u|..], k);
        ExtensionPrefixSafe(n, p[|u|..], k, hz);
      }
    }
  }

  lemma ExtensionNoParting(n: Node, k: Nibbles)
    requires WellFormed(n) && n.Extension?
    ensures NoParting(n, n.key + k) <==> NoParting(n.child, k)
  {
    var u := n.key;
    if NoParting(n, u + k) {
      forall p, q | Present(n.child, p) && Present(n.child, q) && ProperPrefix(k, p) && ProperPrefix(k, q)
        ensures p[|k|] == q[|k|]
      {
        PresentBelow(n, p);
        PresentBelow(n, q);
        PrefixBelow(u, k, p);
        PrefixBelow(u, k, q);
        assert Present(n, u + p) && Present(n, u + q);
        assert (u + p)[|u + k|] == p[|k|] && (u + q)[|u + k|] == q[|k|];
      }
    }
    if NoParting(n.child, k) {
      forall p, q | Present(n, p) && Present(n, q) && ProperPrefix(u + k, p) && ProperPrefix(u + k, q)
        ensures p[|u + k|] == q[|u + k|]
      {
        ExtensionPresent(n, p);
        ExtensionPresent(n, q);
        PrefixBelow(u, k, p[|u|..]);
        PrefixBelow(u, k, q[|u|..]);
      }
    }
  }

  /** Safety at an extension whose key `k` passes is safety at its child. */
  lemma ExtensionSafe(n: Node, k: Nibbles, hz: Hazard)
    requires WellFormed(n) && n.Extension?
    ensures SafeToRemove(n, n.key + k, hz) <==> SafeToRemove(n.child, k, hz)
  {
    ExtensionPrefixesShared(n, k, hz);
    ExtensionNoParting(n, k);
    PresentBelow(n, k);
  }

  lemma PrefixesNest(a: Nibbles, b: Nibbles, c: Nibbles)
    requires b <= c && |a| <= |b|
    ensures a <= b <==> a <= c
  {
    assert b[..|a|] == c[..|a|];
  }

  /** A key that leaves an extension midway is safe to remove: it is not there. */
  lemma OffExtensionSafe(n: Node, k: Nibbles, hz: Hazard)
    requires WellFormed(n) && n.Extension? && !(n.key <= k)
    ensures SafeToRemove(n, k, hz)
  {
    forall p | ProperPrefix(p, k) ensures !Present(n, p) {
      if n.key <= p { PrefixesNest(n.key, p, k); }
    }
    forall p, q | Present(n, p) && Present(n, q) && ProperPrefix(k, p) && ProperPrefix(k, q)
      ensures p[|k|] == q[|k|]
    {
      if |n.key| <= |k| { PrefixesNest(n.key, k, p); }
      assert p[|k|] == n.key[|k|] == q[|k|];
    }
  }

  // A slot of a branch behaves like the child of an extension with a one-nibble key.

  lemma SlotView(n: Node, i: nibble, q: Nibbles)
    requires WellFormed(n) && n.Branch?
    ensures Lookup(n, [i] + q) == Lookup(n.slots[i], q)
  {
    assert ([i] + q)[1..] == q;
  }

  lemma SlotContinued(n: Node, i: nibble, p: Nibbles, k: Nibbles)
    requires WellFormed(n) && n.Branch?
    ensures ContinuedBesides(n, [i] + p, [i] + k) <==> ContinuedBesides(n.slots[i], p, k)
  {
    if ContinuedBesides(n, [i] + p, [i] + k) {
      var q :| Present(n, q) && ProperPrefix([i] + p, q) && q != [i] + k;
      assert q[0] == ([i] + p)[0] == i && q == [i] + q[1..];
      PrefixBelow([i], p, q[1..]);
      assert Present(n.slots[i], q[1..]) && q[1..] != k;
    }
    if ContinuedBesides(n.slots[i], p, k) {
      var q :| Present(n.slots[i], q) && ProperPrefix(p, q) && q != k;
      SlotView(n, i, q);
      PrefixBelow([i], p, q);
      PrefixBelow([i], q, k);
      assert Present(n, [i] + q);
    }
  }

  lemma SlotPrefixSafe(n: Node, i: nibble, p: Nibbles, k: Nibbles, hz: Hazard)
    requires WellFormed(n) && n.Branch?
    ensures PrefixSafe(n, [i] + p, [i] + k, hz) <==> PrefixSafe(n.slots[i], p, k, hz)
  {
    SlotContinued(n, i, p, k);
    SlotView(n, i, p);
    SlotView(n, i, k);
  }

  lemma SlotPrefixesShared(n: Node, i: nibble, k: Nibbles, hz: Hazard)
    requires WellFormed(n) && n.Branch?
    ensures PrefixesShared(n, [i] + k, hz) <==>
      PrefixesShared(n.slots[i], k, hz) && (n.value != [] ==> PrefixSafe(n, [], [i] + k, hz))
  {
    var ik := [i] + k;
    if PrefixesShared(n, ik, hz) {
      forall p | ProperPrefix(p, k) && Present(n.slots[i], p) ensures PrefixSafe(n.slots[i], p, k, hz) {
        SlotView(n, i, p);
        PrefixBelow([i], p, k);
        SlotPrefixSafe(n, i, p, k, hz);
        assert Present(n, [i] + p);
      }
      assert ProperPrefix([], ik);
      assert n.value != [] ==> Present(n, []);
    }
    if PrefixesShared(n.slots[i], k, hz) && (n.value != [] ==> PrefixSafe(n, [], ik, hz)) {
      forall p | ProperPrefix(p, ik) && Present(n, p) ensures PrefixSafe(n, p, ik, hz) {
        if p != [] {
          assert p[0] == ik[0] == i && p == [i] + p[1..];
          PrefixBelow([i], p[1..], k);
          SlotPrefixSafe(n, i, p[1..], k, hz);
        }
      }
    }
  }

  lemma SlotParting(n: Node, i: nibble, k: Nibbles, p: Nibbles, q: Nibbles)
    requires WellFormed(n) && n.Branch? && Present(n.slots[i], p) && Present(n.slots[i], q)
    requires ProperPrefix(k, p) && ProperPrefix(k, q) && p[|k|] != q[|k|]
    ensures !NoParting(n, [i] + k)
  {
    SlotView(n, i, p);
    SlotView(n, i, q);
    PrefixBelow([i], k, p);
    PrefixBelow([i], k, q);
    assert Present(n, [i] + p) && Present(n, [i] + q);
    assert ([i] + p)[|[i] + k|] == p[|k|] && ([i] + q)[|[i] + k|] == q[|k|];
  }

  lemma SlotOfPrefixed(n: Node, i: nibble, k: Nibbles, p: Nibbles)
    requires WellFormed(n) && n.Branch? && Present(n, p) && ProperPrefix([i] + k, p)
    ensures Present(n.slots[i], p[1..]) && ProperPrefix(k, p[1..]) && p[|[i] + k|] == p[1..][|k|]
  {
    assert p[0] == ([i] + k)[0] == i && p == [i] + p[1..];
    PrefixBelow([i], k, p[1..]);
  }

  lemma SlotNoParting(n: Node, i: nibble, k: Nibbles)
    requires WellFormed(n) && n.Branch?
    ensures NoParting(n, [i] + k) <==> NoParting(n.slots[i], k)
  {
    var c := n.slots[i];
    if !NoParting(c, k) {
      var p, q :| Present(c, p) && Present(c, q) && ProperPrefix(k, p) && ProperPrefix(k, q) && p[|k|] != q[|k|];
      SlotParting(n, i, k, p, q);
    } else {
      forall p, q | Present(n, p) && Present(n, q) && ProperPrefix([i] + k, p) && ProperPrefix([i] + k, q)
        ensures p[|[i] + k|] == q[|[i] + k|]
      {
        SlotOfPrefixed(n, i, k, p);
        SlotOfPrefixed(n, i, k, q);
      }
    }
  }

  /** A branch left with nothing but its value had stored `k` and nothing else below it. */
  lemma OnlyValueLeft(n: Node, k: Nibbles, q: Nibbles, hz: Hazard)
    requires WellFormed(n) && n.Branch? && k != [] && q != []
    requires Delete(n.slots[k[0]], k[1..], hz) == Changed(Empty)
    requires forall j :: 0 <= j < 16 && j != k[0] ==> n.slots[j] == Empty
    requires Present(n, q)
    ensures q == k
  {
    assert Present(n.slots[q[0]], q[1..]);
    assert n.slots[k[0]].Leaf? && n.slots[k[0]].key == k[1..];
    assert q == [q[0]] + q[1..] && k == [k[0]] + k[1..];
  }

  /** A slot in use after the removal of `k` gives a key that is still stored. */
  lemma SomethingLeft(n: Node, k: Nibbles, j: nibble, hz: Hazard)
    requires Canonical(n) && WellFormed(n) && n.Branch? && k != []
    requires Delete(n.slots[k[0]], k[1..], hz).Changed?
    requires n.slots[k[0] := Delete(n.slots[k[0]], k[1..], hz).node][j] != Empty
    ensures ContinuedBesides(n, [], k)
  {
    var i, c := k[0], n.slots[k[0]];
    if j != i {
      assert Used(n.slots, n.value, j);
      var q := SlotKey(n, j);
      assert Present(n, q) && ProperPrefix([], q) && q != k;
    } else {
      DeleteCanonical(c, k[1..], hz);
      CanonicalIsWellFormed(Delete(c, k[1..], hz).node);
      var q := SomeKey(Delete(c, k[1..], hz).node);
      DeleteLookup(c, k[1..], q, hz);
      SlotView(n, i, q);
      assert ([i] + q)[1..] == q;
      assert Present(n, [i] + q) && ProperPrefix([], [i] + q) && [i] + q != k;
    }
  }

  /** Rejigging faults exactly on a branch left with nothing but a value that is a hazard. */
  lemma RejigFaultsOnValue(slots: seq<Node>, value: bytes, hz: Hazard)
    requires |slots| == 16
    ensures Rejig(slots, value, hz).Fault? <==>
      value != [] && value in hz && forall j :: 0 <= j < 16 ==> slots[j] == Empty
  {
    var u := UniqueInUse(slots, value);
    if u == 16 {
      forall j | 0 <= j < 16 ensures slots[j] == Empty {
        assert Used(slots, value, j) ==> j == 16;
      }
    } else if value != [] {
      assert Used(slots, value, 16);
    }
  }

  /**
   A branch that keeps its value faults exactly when nothing but `k` was stored below it
   and the value is a hazard.
   */
  lemma RejigFaults(n: Node, k: Nibbles, hz: Hazard)
    requires Canonical(n) && WellFormed(n) && n.Branch? && k != []
    requires Delete(n.slots[k[0]], k[1..], hz).Changed?
    ensures Delete(n, k, hz).Fault? <==> n.value != [] && n.value in hz && !ContinuedBesides(n, [], k)
  {
    var c' := Delete(n.slots[k[0]], k[1..], hz).node;
    var slots' := n.slots[k[0] := c'];
    RejigFaultsOnValue(slots', n.value, hz);
    if forall j :: 0 <= j < 16 ==> slots'[j] == Empty {
      assert c' == slots'[k[0]];
      forall j | 0 <= j < 16 && j != k[0] ensures n.slots[j] == Empty { assert slots'[j] == n.slots[j]; }
      forall q | Present(n, q) && ProperPrefix([], q) ensures q == k {
        OnlyValueLeft(n, k, q, hz);
      }
    } else {
      var j :| 0 <= j < 16 && slots'[j] != Empty;
      SomethingLeft(n, k, j, hz);
    }
  }

  lemma SlotSafe(n: Node, k: Nibbles, hz: Hazard)
    requires Canonical(n) && WellFormed(n) && n.Branch? && k != []
    requires Delete(n.slots[k[0]], k[1..], hz).Fault? <==> !SafeToRemove(n.slots[k[0]], k[1..], hz)
    ensures Delete(n, k, hz).Fault? <==> !SafeToRemove(n, k, hz)
  {
    var i, k1 := k[0], k[1..];
    assert k == [i] + k1;
    SlotPrefixesShared(n, i, k1, hz);
    SlotNoParting(n, i, k1);
    SlotView(n, i, k1);
    var d := Delete(n.slots[i], k1, hz);
    if d.Changed? {
      RejigFaults(n, k, hz);
      DeleteFindsPresent(n.slots[i], k1, hz);
    } else if d.Absent? && n.value != [] {
      DeleteLookup(n.slots[i], k1, k1, hz);
      var a, b :| 0 <= a < b && Used(n.slots, n.value, a) && Used(n.slots, n.value, b);
      var q := SlotKey(n, a);
      assert Present(n, q) && ProperPrefix([], q) && q != k;
    }
  }

  /** The code faults on a removal exactly when `SafeToRemove` fails. */
  lemma {:induction false} FaultExactlyWhenUnsafe(n: Node, k: Nibbles, hz: Hazard)
    requires Canonical(n) && WellFormed(n)
    ensures Delete(n, k, hz).Fault? <==> !SafeToRemove(n, k, hz)
    decreases n
  {
    match n
    case Empty =>
    case Leaf(k0, v0) =>
      assert k0 != k && k0 <= k <==> ProperPrefix(k0, k);
      assert Present(n, k0);
    case Extension(k0, c) =>
      if k0 <= k {
        assert k == k0 + k[|k0|..];
        FaultExactlyWhenUnsafe(c, k[|k0|..], hz);
        ExtensionSafe(n, k[|k0|..], hz);
        if Delete(c, k[|k0|..], hz).Changed? { DeleteCanonical(c, k[|k0|..], hz); }
      } else {
        OffExtensionSafe(n, k, hz);
      }
    case Branch(slots, v0) =>
      if k != [] {
        FaultExactlyWhenUnsafe(slots[k[0]], k[1..], hz);
        SlotSafe(n, k, hz);
      } else if v0 == [] {
        var p, q := BranchKeys(n);
        assert q != [] && ProperPrefix(k, p) && ProperPrefix(k, q);
      } else {
        assert !Used(slots, [], 16);
      }
  }

  // Each way to fault, on the keys 00 and 10 and the empty key.

  /** Below a stored key. */
  lemma {:induction false} FaultsBelowKey(n: Node, hz: Hazard)
    requires Canonical(n) && WellFormed(n) && forall q :: Present(n, q) <==> q == []
    ensures Delete(n, [0, 0], hz).Fault?
  {
    FaultExactlyWhenUnsafe(n, [0, 0], hz);
    assert ProperPrefix([], [0, 0]) && !PrefixSafe(n, [], [0, 0], hz);
  }

  /** At an absent key where stored keys part. */
  lemma {:induction false} FaultsAtParting(n: Node, hz: Hazard)
    requires Canonical(n) && WellFormed(n) && forall q :: Present(n, q) <==> q == [0, 0] || q == [1, 0]
    ensures Delete(n, [], hz).Fault?
  {
    FaultExactlyWhenUnsafe(n, [], hz);
    assert ProperPrefix([], [0, 0]) && ProperPrefix([], [1, 0]);
    assert Present(n, [0, 0]) && Present(n, [1, 0]) && !Present(n, []);
  }

  /** On isolating a value, if that is a hazard. */
  lemma {:induction false} FaultsOnHazard(n: Node, hz: Hazard)
    requires Canonical(n) && WellFormed(n) && forall q :: Present(n, q) <==> q == [] || q == [0, 0]
    ensures Delete(n, [0, 0], hz).Fault? <==> Lookup(n, []) in hz
  {
    FaultExactlyWhenUnsafe(n, [0, 0], hz);
    assert ProperPrefix([], [0, 0]) && !ContinuedBesides(n, [], [0, 0]);
    assert Present(n, [0, 0]) && Present(n, []);
    assert forall p: Nibbles :: Present(n, p) && ProperPrefix(p, [0, 0]) ==> p == [];
  }

  /** Tries that insertions build fault in each way. */
  lemma {:induction false} FaultExamples(v: bytes, hz: Hazard)
    requires v != []
    ensures
      var one := Inserted(Empty, [], v);
      && Delete(one, [0, 0], hz).Fault?
      && WellFormed(one)
      && (Delete(Inserted(one, [0, 0], v), [0, 0], hz).Fault? <==> v in hz)
    ensures
      var two := Inserted(Empty, [0, 0], v);
      WellFormed(two) && Delete(Inserted(two, [1, 0], v), [], hz).Fault?
  {
    InsertCanonical(Empty, [], v);
    InsertCanonical(Empty, [0, 0], v);
    var one, two := Inserted(Empty, [], v), Inserted(Empty, [0, 0], v);
    forall q ensures Lookup(one, q) == (if q == [] then v else [])
      && Lookup(two, q) == (if q == [0, 0] then v else [])
    {
      InsertLookup(Empty, [], v, q);
      InsertLookup(Empty, [0, 0], v, q);
    }
    FaultsBelowKey(one, hz);
    FaultsWithOneMore(one, two, v, hz);
  }

  lemma {:induction false} FaultsWithOneMore(one: Node, two: Node, v: bytes, hz: Hazard)
    requires v != [] && Canonical(one) && WellFormed(one) && Canonical(two) && WellFormed(two)
    requires forall q :: Lookup(one, q) == if q == [] then v else []
    requires forall q :: Lookup(two, q) == if q == [0, 0] then v else []
    ensures Delete(Inserted(one, [0, 0], v), [0, 0], hz).Fault? <==> v in hz
    ensures Delete(Inserted(two, [1, 0], v), [], hz).Fault?
  {
    InsertCanonical(one, [0, 0], v);
    InsertCanonical(two, [1, 0], v);
    var a, b := Inserted(one, [0, 0], v), Inserted(two, [1, 0], v);
    forall q ensures Lookup(a, q) == (if q == [0, 0] then v else Lookup(one, q)) { InsertLookup(one, [0, 0], v, q); }
    forall q ensures Lookup(b, q) == (if q == [1, 0] then v else Lookup(two, q)) { InsertLookup(two, [1, 0], v, q); }
    FaultsOnHazard(a, hz);
    FaultsAtParting(b, hz);
  }
}
