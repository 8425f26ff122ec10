/**
 The root computed directly from a sorted map, without a store: the same item,
 and so the same hash, as any trie that holds the map.
 */
module TrieHash {
  import opened Bytes
  import opened Rlp
  import opened TrieNode
  import opened TrieContents
  import opened TrieItem
  import opened TrieRuns
  import HexPrefix

  datatype Pair = Pair(key: Nibbles, value: bytes)

  /** Strictly ascending keys, in the order of `std::map` over byte strings. */
  ghost predicate Sorted(s: seq<Pair>) {
    forall i, j :: 0 <= i < j < |s| ==> HexPrefix.Earlier(s[i].key, s[j].key)
  }

  /** Two keys have their first `p` nibbles in common. */
  ghost predicate Agree(a: Nibbles, b: Nibbles, p: nat) {
    p <= |a| && p <= |b| && forall j :: 0 <= j < p ==> a[j] == b[j]
  }

  /** A range of entries whose keys share their first `p` nibbles. */
  ghost predicate Range(s: seq<Pair>, b: nat, e: nat, p: nat) {
    && b <= e <= |s| && Sorted(s)
    && (forall i :: b <= i < e ==> s[i].value != [])
    && (forall i :: b <= i < e ==> Agree(s[b].key, s[i].key, p))
  }

  /** `n` holds the entries of a range, under their keys without the first `p` nibbles, and nothing else. */
  ghost predicate Exactly(n: Node, s: seq<Pair>, b: nat, e: nat, p: nat)
    requires WellFormed(n) && Range(s, b, e, p)
  {
    && (forall i :: b <= i < e ==> Lookup(n, s[i].key[p..]) == s[i].value)
    && (forall q :: Present(n, q) ==> InRange(s, b, e, p, q))
  }

  ghost predicate InRange(s: seq<Pair>, b: nat, e: nat, p: nat, q: Nibbles)
    requires Range(s, b, e, p)
  {
    exists i :: b <= i < e && s[i].key[p..] == q
  }

  lemma {:induction false} AgreeIsShared(a: Nibbles, b: Nibbles, p: nat)
    ensures Agree(a, b, p) <==> p <= Shared(a, b)
  {
    if p > 0 && a != [] && b != [] && a[0] == b[0] {
      AgreeIsShared(a[1..], b[1..], p - 1);
      assert Agree(a[1..], b[1..], p - 1) ==> forall j :: 0 < j < p ==> a[j] == a[1..][j - 1] && b[j] == b[1..][j - 1];
    }
  }

  /** Only the first key of a range may end at its prefix, and the others come in the order of their next nibble. */
  lemma {:induction false} NextNibbles(s: seq<Pair>, b: nat, e: nat, p: nat, i: nat, j: nat)
    requires Range(s, b, e, p) && b <= i < j < e
    ensures |s[j].key| > p
    ensures |s[i].key| > p ==> s[i].key[p] <= s[j].key[p]
  {
    AgreeIsShared(s[i].key, s[j].key, p);
    AgreeIsShared(s[i].key, s[j].key, p + 1);
    assert HexPrefix.Earlier(s[i].key, s[j].key);
  }

  /** How many nibbles the keys of a range share; the loop ends early when it is none. */
  method SharedPrefix(s: seq<Pair>, b: nat, e: nat, p: nat) returns (sharedPre: nat, ghost at: nat)
    requires b + 2 <= e <= |s| && forall i :: b <= i < e ==> Agree(s[b].key, s[i].key, p)
    ensures p <= sharedPre && forall i :: b <= i < e ==> Agree(s[b].key, s[i].key, sharedPre)
    ensures b < at < e && !Agree(s[b].key, s[at].key, sharedPre + 1)
  {
    var first := s[b].key;
    sharedPre := CountShared(first, s[b + 1].key, p, |first|);
    at := b + 1;
    var i := b + 2;
    while i != e && sharedPre != 0
      invariant b + 2 <= i <= e && b < at < i && p <= sharedPre <= |first| && !Agree(first, s[at].key, sharedPre + 1)
      invariant forall j :: b < j < i ==> Agree(first, s[j].key, sharedPre)
      decreases e - i
    {
      var shared := CountShared(first, s[i].key, p, sharedPre);
      if shared < sharedPre {
        at, sharedPre := i, shared;
      }
      i := i + 1;
    }
  }

  /** The inner loop: counts on from the known prefix `p` up to a bound. */
  method CountShared(a: Nibbles, c: Nibbles, p: nat, bound: nat) returns (shared: nat)
    requires Agree(a, c, p) && p <= bound <= |a|
    ensures p <= shared <= bound && Agree(a, c, shared) && (shared < bound ==> !Agree(a, c, shared + 1))
  {
    var x := if bound < |c| then bound else |c|;
    shared := p;
    while shared < x && a[shared] == c[shared]
      invariant p <= shared <= x && Agree(a, c, shared)
      decreases x - shared
    {
      shared := shared + 1;
    }
  }

  // ----------------------------------------------------------------- one entry

  lemma {:induction false} LeafExactly(s: seq<Pair>, b: nat, p: nat)
    requires Range(s, b, b + 1, p)
    ensures Exactly(Leaf(s[b].key[p..], s[b].value), s, b, b + 1, p)
  {
    assert Agree(s[b].key, s[b].key, p);
  }

  // --------------------------------------------------------------- an extension

  lemma {:induction false} AgreeSlice(a: Nibbles, b: Nibbles, p: nat, c: nat)
    requires Agree(a, b, c) && p <= c
    ensures b[p..] == a[p..c] + b[c..]
  {
  }

  lemma {:induction false} ExtensionExactly(s: seq<Pair>, b: nat, e: nat, p: nat, c: nat, child: Node)
    requires Range(s, b, e, p) && Range(s, b, e, c) && b < e && p < c
    requires WellFormed(child) && Exactly(child, s, b, e, c)
    requires p <= c <= |s[b].key|
    ensures WellFormed(Extension(s[b].key[p..c], child))
    ensures Exactly(Extension(s[b].key[p..c], child), s, b, e, p)
  {
    var u := s[b].key[p..c];
    var n := Extension(u, child);
    forall i | b <= i < e ensures Lookup(n, s[i].key[p..]) == s[i].value {
      AgreeSlice(s[b].key, s[i].key, p, c);
      PresentBelow(n, s[i].key[c..]);
    }
    forall q: Nibbles | Present(n, q) ensures InRange(s, b, e, p, q) {
      ExtensionPresent(n, q);
      assert InRange(s, b, e, c, q[|u|..]);
      var i :| b <= i < e && s[i].key[c..] == q[|u|..];
      AgreeSlice(s[b].key, s[i].key, p, c);
      assert s[i].key[p..] == q;
    }
  }

  // ------------------------------------------------------------------- a branch

  /** Slot `j` of a branch holds the entries between two cuts, those whose next nibble is `j`. */
  ghost predicate SlotHolds(slots: seq<Node>, cuts: seq<nat>, s: seq<Pair>, p: nat, j: nat)
    requires j < |slots| && j + 1 < |cuts|
  {
    && cuts[j] <= cuts[j + 1] && Range(s, cuts[j], cuts[j + 1], p + 1)
    && (forall i :: cuts[j] <= i < cuts[j + 1] ==> s[i].key[p] == j)
    && Canonical(slots[j]) && WellFormed(slots[j]) && (slots[j] == Empty <==> cuts[j] == cuts[j + 1])
    && Exactly(slots[j], s, cuts[j], cuts[j + 1], p + 1)
  }

  /** The slots cover a range, from its first key that goes on past the prefix. */
  ghost predicate Covers(slots: seq<Node>, cuts: seq<nat>, s: seq<Pair>, p: nat) {
    |cuts| == |slots| + 1 && forall j: nat :: j < |slots| ==> SlotHolds(slots, cuts, s, p, j)
  }

  lemma {:induction false} SlotOf(slots: seq<Node>, cuts: seq<nat>, s: seq<Pair>, p: nat, i: nat, m: nat)
    requires Covers(slots, cuts, s, p) && m <= |slots| && cuts[0] <= i < cuts[m] && i < |s| && p < |s[i].key|
    ensures s[i].key[p] < m && cuts[s[i].key[p]] <= i < cuts[s[i].key[p] + 1]
    decreases m
  {
    if m > 0 {
      assert SlotHolds(slots, cuts, s, p, m - 1);
      if i < cuts[m - 1] { SlotOf(slots, cuts, s, p, i, m - 1); }
    }
  }

  ghost predicate BranchRange(s: seq<Pair>, b: nat, e: nat, p: nat, cuts: seq<nat>)
    requires Range(s, b, e, p)
  {
    |cuts| == 17 && b < e && cuts[16] == e && cuts[0] == if |s[b].key| == p then b + 1 else b
  }

  lemma {:induction false} DropOne(k: Nibbles, p: nat)
    requires p < |k|
    ensures k[p..] == [k[p]] + k[p + 1..]
  {
  }

  lemma {:induction false} BranchHolds(s: seq<Pair>, b: nat, e: nat, p: nat, slots: seq<Node>, cuts: seq<nat>, n: Node,
                                       i: nat)
    requires Range(s, b, e, p) && |slots| == 16 && Covers(slots, cuts, s, p) && BranchRange(s, b, e, p, cuts)
    requires n == Branch(slots, if |s[b].key| == p then s[b].value else []) && WellFormed(n)
    requires b <= i < e
    ensures p <= |s[i].key| && Lookup(n, s[i].key[p..]) == s[i].value
  {
    assert Agree(s[b].key, s[i].key, p);
    if i > b { NextNibbles(s, b, e, p, b, i); }
    if i >= cuts[0] { BranchSlotHolds(s, p, slots, cuts, n, i); }
  }

  lemma {:induction false} BranchSlotHolds(s: seq<Pair>, p: nat, slots: seq<Node>, cuts: seq<nat>, n: Node, i: nat)
    requires |slots| == 16 && Covers(slots, cuts, s, p) && n.Branch? && n.slots == slots && WellFormed(n)
    requires cuts[0] <= i < cuts[16] && i < |s| && p < |s[i].key|
    ensures Lookup(n, s[i].key[p..]) == s[i].value
  {
    SlotOf(slots, cuts, s, p, i, 16);
    var j := s[i].key[p];
    assert SlotHolds(slots, cuts, s, p, j);
    DropOne(s[i].key, p);
    SlotView(n, j, s[i].key[p + 1..]);
  }

  lemma {:induction false} BranchOnly(s: seq<Pair>, b: nat, e: nat, p: nat, slots: seq<Node>, cuts: seq<nat>, n: Node,
                                      q: Nibbles)
    requires Range(s, b, e, p) && |slots| == 16 && |cuts| == 17 && b < e && p <= |s[b].key|
    requires n == Branch(slots, if |s[b].key| == p then s[b].value else []) && WellFormed(n)
    requires q != [] ==> SlotHolds(slots, cuts, s, p, q[0]) && b <= cuts[q[0]] && cuts[q[0] + 1] <= e
    requires Present(n, q)
    ensures InRange(s, b, e, p, q)
  {
    if q == [] {
      assert s[b].key[p..] == q;
    } else {
      var i := SlotEntry(slots, cuts, s, p, q[0], q[1..]);
      HeadTail(q);
      assert s[i].key[p..] == q;
    }
  }

  lemma {:induction false} SlotEntry(slots: seq<Node>, cuts: seq<nat>, s: seq<Pair>, p: nat, j: nibble, q: Nibbles)
    returns (i: nat)
    requires j < |slots| && j + 1 < |cuts| && SlotHolds(slots, cuts, s, p, j) && Present(slots[j], q)
    ensures cuts[j] <= i < cuts[j + 1] <= |s| && p < |s[i].key| && s[i].key[p..] == [j] + q
  {
    assert InRange(s, cuts[j], cuts[j + 1], p + 1, q);
    i :| cuts[j] <= i < cuts[j + 1] && s[i].key[p + 1..] == q;
    assert Agree(s[cuts[j]].key, s[i].key, p + 1);
    DropOne(s[i].key, p);
  }

  lemma {:induction false} CutsWithin(slots: seq<Node>, cuts: seq<nat>, s: seq<Pair>, p: nat, j: nat, b: nat, e: nat)
    requires |slots| == 16 && Covers(slots, cuts, s, p) && Range(s, b, e, p) && BranchRange(s, b, e, p, cuts) && j < 16
    ensures SlotHolds(slots, cuts, s, p, j) && b <= cuts[j] && cuts[j + 1] <= e
  {
    CutsGrow(slots, cuts, s, p, 0, j);
    CutsGrow(slots, cuts, s, p, j + 1, 16);
  }

  lemma {:induction false} CutsGrow(slots: seq<Node>, cuts: seq<nat>, s: seq<Pair>, p: nat, j: nat, k: nat)
    requires Covers(slots, cuts, s, p) && j <= k <= |slots|
    ensures cuts[j] <= cuts[k]
    decreases k
  {
    if j < k {
      assert SlotHolds(slots, cuts, s, p, k - 1);
      CutsGrow(slots, cuts, s, p, j, k - 1);
    }
  }

  /** A branch over slots that cover a range holds that range. */
  lemma {:induction false} BranchExactly(s: seq<Pair>, b: nat, e: nat, p: nat, slots: seq<Node>, cuts: seq<nat>)
    requires Range(s, b, e, p) && |slots| == 16 && Covers(slots, cuts, s, p) && BranchRange(s, b, e, p, cuts)
    ensures
      var n := Branch(slots, if |s[b].key| == p then s[b].value else []);
      WellFormed(n) && Exactly(n, s, b, e, p)
  {
    var n := Branch(slots, if |s[b].key| == p then s[b].value else []);
    forall j: nat | j < 16 ensures WellFormed(slots[j]) { assert SlotHolds(slots, cuts, s, p, j); }
    forall i | b <= i < e ensures Lookup(n, s[i].key[p..]) == s[i].value { BranchHolds(s, b, e, p, slots, cuts, n, i); }
    assert Agree(s[b].key, s[b].key, p);
    forall q: Nibbles | Present(n, q) ensures InRange(s, b, e, p, q) {
      if q != [] { CutsWithin(slots, cuts, s, p, q[0] as int, b, e); }
      BranchOnly(s, b, e, p, slots, cuts, n, q);
    }
  }

  /** Two keys of a range part at its prefix: the first ends there, or they differ in the next nibble. */
  ghost predicate Parts(s: seq<Pair>, b: nat, e: nat, p: nat, at: nat) {
    b < at < e <= |s| && !Agree(s[b].key, s[at].key, p + 1)
  }

  /** So the branch uses two slots. */
  lemma {:induction false} BranchTwoUsed(s: seq<Pair>, b: nat, e: nat, p: nat, slots: seq<Node>, cuts: seq<nat>,
                                         at: nat)
    requires Range(s, b, e, p) && |slots| == 16 && Covers(slots, cuts, s, p) && BranchRange(s, b, e, p, cuts)
    requires Parts(s, b, e, p, at)
    ensures Canonical(Branch(slots, if |s[b].key| == p then s[b].value else []))
  {
    var v := if |s[b].key| == p then s[b].value else [];
    NextNibbles(s, b, e, p, b, at);
    SlotUsed(s, p, slots, cuts, v, at);
    var x := s[at].key[p];
    var y := if |s[b].key| == p then 16 else s[b].key[p];
    assert Agree(s[b].key, s[at].key, p);
    assert x != y;
    if y != 16 { SlotUsed(s, p, slots, cuts, v, b); }
    assert Used(slots, v, x) && Used(slots, v, y);
    assert TwoUsed(slots, v) by {
      if x < y { assert 0 <= x < y; } else { assert 0 <= y < x; }
    }
    forall j: nat | j < 16 ensures Canonical(slots[j]) { assert SlotHolds(slots, cuts, s, p, j); }
  }

  lemma {:induction false} SlotUsed(s: seq<Pair>, p: nat, slots: seq<Node>, cuts: seq<nat>, v: bytes, i: nat)
    requires |slots| == 16 && Covers(slots, cuts, s, p) && |cuts| == 17 && cuts[0] <= i < cuts[16] && i < |s|
      && p < |s[i].key|
    ensures Used(slots, v, s[i].key[p])
  {
    SlotOf(slots, cuts, s, p, i, 16);
    assert SlotHolds(slots, cuts, s, p, s[i].key[p]);
  }

  // -------------------------------------------------------------- the algorithm

  ghost function KeyLeft(s: seq<Pair>, b: nat, e: nat, p: nat): nat
    requires Range(s, b, e, p)
  {
    if b < e then (assert Agree(s[b].key, s[b].key, p); |s[b].key| - p) else 0
  }

  method Hash256Rlp(s: seq<Pair>, b: nat, e: nat, p: nat, h: Hasher) returns (it: Item, ghost n: Node)
    requires Range(s, b, e, p)
    ensures Canonical(n) && WellFormed(n) && it == ItemOf(n, h) && Exactly(n, s, b, e, p)
    ensures n == Empty <==> b == e
    ensures forall at :: Parts(s, b, e, p, at) ==> n.Branch?
    decreases e - b, KeyLeft(s, b, e, p), 3
  {
    if b == e {
      return NULL_ITEM, Empty;
    }
    assert Agree(s[b].key, s[b].key, p);
    if b + 1 == e {
      LeafExactly(s, b, p);
      n := Leaf(s[b].key[p..], s[b].value);
      it := List([Data(HexPrefix.Encode(s[b].key[p..], true)), Data(s[b].value)]);
      return;
    }
    var sharedPre;
    ghost var at;
    sharedPre, at := SharedPrefix(s, b, e, p);
    assert Agree(s[b].key, s[b].key, sharedPre);
    assert Parts(s, b, e, sharedPre, at);
    if sharedPre > p {
      it, n := HashExtension(s, b, e, p, sharedPre, at, h);
    } else {
      it, n := HashBranch(s, b, e, p, at, h);
    }
  }

  method HashExtension(s: seq<Pair>, b: nat, e: nat, p: nat, c: nat, ghost at: nat, h: Hasher)
    returns (it: Item, ghost n: Node)
    requires Range(s, b, e, p) && Range(s, b, e, c) && b < e && p < c <= |s[b].key| && Parts(s, b, e, c, at)
    ensures Canonical(n) && WellFormed(n) && it == ItemOf(n, h) && Exactly(n, s, b, e, p)
    ensures n != Empty && forall at :: !Parts(s, b, e, p, at)
    decreases e - b, KeyLeft(s, b, e, p), 1
  {
    var child;
    ghost var m;
    child, m := Hash256Rlp(s, b, e, c, h);
    ExtensionExactly(s, b, e, p, c, m);
    n := Extension(s[b].key[p..c], m);
    it := List([Data(HexPrefix.Encode(s[b].key[p..c], false)), RefTo(child, h)]);
    forall at | b < at < e ensures Agree(s[b].key, s[at].key, p + 1) { assert Agree(s[b].key, s[at].key, c); }
  }

  method HashBranch(s: seq<Pair>, b: nat, e: nat, p: nat, ghost at: nat, h: Hasher) returns (it: Item, ghost n: Node)
    requires Range(s, b, e, p) && Parts(s, b, e, p, at)
    ensures Canonical(n) && WellFormed(n) && it == ItemOf(n, h) && Exactly(n, s, b, e, p)
    ensures n.Branch?
    decreases e - b, KeyLeft(s, b, e, p), 2
  {
    var items;
    ghost var slots, cuts;
    items, slots, cuts := HashSlots(s, b, e, p, at, h);
    var v := if p == |s[b].key| then s[b].value else [];
    BranchExactly(s, b, e, p, slots, cuts);
    BranchTwoUsed(s, b, e, p, slots, cuts, at);
    n := Branch(slots, v);
    it := List(items + [Data(v)]);
  }

  /** Entries with the same next nibble are a range with one nibble more in common. */
  lemma {:induction false} SubRange(s: seq<Pair>, b: nat, e: nat, p: nat, lo: nat, hi: nat, x: nibble)
    requires Range(s, b, e, p) && b <= lo <= hi <= e
    requires forall i :: lo <= i < hi ==> p < |s[i].key| && s[i].key[p] == x
    ensures Range(s, lo, hi, p + 1)
  {
    forall i | lo <= i < hi ensures Agree(s[lo].key, s[i].key, p + 1) {
      assert Agree(s[b].key, s[lo].key, p) && Agree(s[b].key, s[i].key, p);
    }
  }

  /** Behind a first key that ends at the prefix, every key goes on. */
  lemma {:induction false} GoOn(s: seq<Pair>, b: nat, e: nat, p: nat)
    requires Range(s, b, e, p) && b < e
    ensures p <= |s[b].key| && forall j :: (if p == |s[b].key| then b + 1 else b) <= j < e ==> p < |s[j].key|
  {
    assert Agree(s[b].key, s[b].key, p);
    forall j | b < j < e ensures p < |s[j].key| { NextNibbles(s, b, e, p, b, j); }
  }

  /** The end of the run of entries with next nibble `x`. */
  method RunOf(s: seq<Pair>, b: nat, e: nat, p: nat, lo: nat, x: nibble) returns (n: nat)
    requires Range(s, b, e, p) && b <= lo <= e
    requires forall j :: lo <= j < e ==> p < |s[j].key| && s[j].key[p] >= x
    ensures lo <= n <= e && forall j :: lo <= j < n ==> s[j].key[p] == x
    ensures forall j :: n <= j < e ==> s[j].key[p] > x
    ensures x == 15 ==> n == e
  {
    n := lo;
    while n != e && s[n].key[p] == x
      invariant lo <= n <= e && forall j :: lo <= j < n ==> s[j].key[p] == x
      decreases e - n
    {
      n := n + 1;
    }
    if n != e { LaterNibbles(s, b, e, p, n, x); }
  }

  lemma {:induction false} LaterNibbles(s: seq<Pair>, b: nat, e: nat, p: nat, n: nat, x: nibble)
    requires Range(s, b, e, p) && b <= n < e && p < |s[n].key| && s[n].key[p] > x
    ensures forall j :: n <= j < e ==> p < |s[j].key| && s[j].key[p] > x
  {
    forall j | n < j < e ensures p < |s[j].key| && s[j].key[p] > x { NextNibbles(s, b, e, p, n, j); }
  }

  /** A run does not take the whole range when two of its keys part. */
  lemma {:induction false} NotAll(s: seq<Pair>, b: nat, e: nat, p: nat, at: nat, lo: nat, n: nat, x: nibble)
    requires Range(s, b, e, p) && Parts(s, b, e, p, at) && b <= lo <= n <= e
    requires forall j :: lo <= j < n ==> p < |s[j].key| && s[j].key[p] == x
    ensures n - lo < e - b
  {
    assert Agree(s[b].key, s[at].key, p);
  }

  lemma {:induction false} RefsSnoc(ns: seq<Node>, c: Node, h: Hasher)
    ensures Refs(ns + [c], h) == Refs(ns, h) + [Ref(c, h)]
  {
    var x, y := Refs(ns + [c], h), Refs(ns, h) + [Ref(c, h)];
    assert forall i :: 0 <= i < |x| ==> x[i] == y[i];
  }

  lemma {:induction false} CoversSnoc(slots: seq<Node>, cuts: seq<nat>, s: seq<Pair>, p: nat, c: Node, n: nat)
    requires Covers(slots, cuts, s, p) && cuts[|slots|] <= n
    requires Range(s, cuts[|slots|], n, p + 1) && Canonical(c) && WellFormed(c)
    requires forall i :: cuts[|slots|] <= i < n ==> p < |s[i].key| && s[i].key[p] == |slots|
    requires (c == Empty <==> cuts[|slots|] == n) && Exactly(c, s, cuts[|slots|], n, p + 1)
    ensures Covers(slots + [c], cuts + [n], s, p)
  {
    var slots', cuts' := slots + [c], cuts + [n];
    forall j: nat | j < |slots'| ensures SlotHolds(slots', cuts', s, p, j) {
      if j < |slots| {
        assert SlotHolds(slots, cuts, s, p, j);
        assert slots'[j] == slots[j] && cuts'[j] == cuts[j] && cuts'[j + 1] == cuts[j + 1];
      } else {
        assert slots'[j] == c && cuts'[j] == cuts[j] && cuts'[j + 1] == n;
      }
    }
  }

  /** Enumerates the sixteen slots, each with the entries whose next nibble is its number. */
  method HashSlots(s: seq<Pair>, b: nat, e: nat, p: nat, ghost at: nat, h: Hasher)
    returns (items: seq<Item>, ghost slots: seq<Node>, ghost cuts: seq<nat>)
    requires Range(s, b, e, p) && Parts(s, b, e, p, at)
    ensures |slots| == 16 && Covers(slots, cuts, s, p) && BranchRange(s, b, e, p, cuts)
    ensures items == Refs(slots, h)
    decreases e - b, KeyLeft(s, b, e, p), 1
  {
    var lo := if p == |s[b].key| then b + 1 else b;
    items, slots, cuts := [], [], [lo];
    GoOn(s, b, e, p);
    for i := 0 to 16
      invariant |slots| == i && Covers(slots, cuts, s, p) && b <= cuts[0] <= lo <= e && cuts[i] == lo
      invariant cuts[0] == if p == |s[b].key| then b + 1 else b
      invariant forall j :: lo <= j < e ==> p < |s[j].key| && s[j].key[p] >= i
      invariant items == Refs(slots, h) && (i == 16 ==> lo == e)
    {
      var n, it;
      ghost var c;
      n, it, c := HashSlot(s, b, e, p, lo, i, at, h);
      items := items + [RefTo(it, h)];
      RefsSnoc(slots, c, h);
      CoversSnoc(slots, cuts, s, p, c, n);
      slots, cuts := slots + [c], cuts + [n];
      lo := n;
    }
  }

  /** One slot: the entries from `lo` on whose next nibble is `x`. */
  method HashSlot(s: seq<Pair>, b: nat, e: nat, p: nat, lo: nat, x: nibble, ghost at: nat, h: Hasher)
    returns (n: nat, it: Item, ghost c: Node)
    requires Range(s, b, e, p) && Parts(s, b, e, p, at) && b <= lo <= e
    requires forall j :: lo <= j < e ==> p < |s[j].key| && s[j].key[p] >= x
    ensures lo <= n <= e && (x == 15 ==> n == e) && Range(s, lo, n, p + 1)
    ensures forall j :: lo <= j < n ==> s[j].key[p] == x
    ensures forall j :: n <= j < e ==> s[j].key[p] > x
    ensures Canonical(c) && WellFormed(c) && (c == Empty <==> lo == n) && it == ItemOf(c, h)
      && Exactly(c, s, lo, n, p + 1)
    decreases e - b, KeyLeft(s, b, e, p), 0
  {
    n := RunOf(s, b, e, p, lo, x);
    NotAll(s, b, e, p, at, lo, n, x);
    SubRange(s, b, e, p, lo, n, x);
    it, c := NULL_ITEM, Empty;
    if lo != n {
      it, c := Hash256Rlp(s, lo, n, p + 1, h);
    }
  }

  // ------------------------------------------------------- from a map of strings

  datatype Entry = Entry(key: bytes, value: bytes)

  ghost predicate Ascending(s: seq<Entry>) {
    forall i, j :: 0 <= i < j < |s| ==> Precedes(s[i].key, s[j].key)
  }

  /** The entries with their keys as nibbles. */
  function HexOf(s: seq<Entry>): (r: seq<Pair>)
    ensures |r| == |s|
    ensures forall i :: 0 <= i < |s| ==> r[i] == Pair(HexPrefix.AsNibbles(s[i].key), s[i].value)
  {
    if s == [] then [] else [Pair(HexPrefix.AsNibbles(s[0].key), s[0].value)] + HexOf(s[1..])
  }

  /** The map that a sequence of entries with different keys lists. */
  function Listed(ps: seq<Pair>): Contents {
    if ps == [] then map[] else Listed(ps[1..])[ps[0].key := ps[0].value]
  }

  lemma {:induction false} EarlierTail(a: Nibbles, b: Nibbles)
    requires a != [] && b != [] && a[0] == b[0]
    ensures HexPrefix.Earlier(a, b) <==> HexPrefix.Earlier(a[1..], b[1..])
  {
  }

  /** Reading bytes as nibbles keeps their order. */
  lemma {:induction false} NibbleOrder(a: bytes, b: bytes)
    requires Precedes(a, b)
    ensures HexPrefix.Earlier(HexPrefix.AsNibbles(a), HexPrefix.AsNibbles(b))
    decreases |a|
  {
    var x, y := HexPrefix.AsNibbles(a), HexPrefix.AsNibbles(b);
    if a != [] {
      if x[0] == y[0] {
        EarlierTail(x, y);
        if x[1] == y[1] {
          assert a[0] == b[0];
          EarlierTail(x[1..], y[1..]);
          assert x[1..][1..] == HexPrefix.AsNibbles(a[1..]) && y[1..][1..] == HexPrefix.AsNibbles(b[1..]);
          NibbleOrder(a[1..], b[1..]);
        }
      }
    }
  }

  lemma {:induction false} HexSorted(s: seq<Entry>)
    requires Ascending(s)
    ensures Sorted(HexOf(s))
  {
    var r := HexOf(s);
    forall i, j | 0 <= i < j < |r| ensures HexPrefix.Earlier(r[i].key, r[j].key) { NibbleOrder(s[i].key, s[j].key); }
  }

  lemma {:induction false} SortedTail(ps: seq<Pair>)
    requires Sorted(ps) && ps != []
    ensures Sorted(ps[1..])
  {
    forall i, j | 0 <= i < j < |ps[1..]| ensures HexPrefix.Earlier(ps[1..][i].key, ps[1..][j].key) {
      assert HexPrefix.Earlier(ps[i + 1].key, ps[j + 1].key);
    }
  }

  lemma {:induction false} NotEarlierThanItself(a: Nibbles)
    ensures !HexPrefix.Earlier(a, a)
  {
  }

  lemma {:induction false} ListedAt(ps: seq<Pair>, i: nat)
    requires Sorted(ps) && i < |ps|
    ensures ps[i].key in Listed(ps) && Listed(ps)[ps[i].key] == ps[i].value
  {
    if i > 0 {
      SortedTail(ps);
      ListedAt(ps[1..], i - 1);
      assert HexPrefix.Earlier(ps[0].key, ps[i].key);
      NotEarlierThanItself(ps[0].key);
    }
  }

  lemma {:induction false} ListedOnly(ps: seq<Pair>, q: Nibbles) returns (i: nat)
    requires q in Listed(ps)
    ensures i < |ps| && ps[i].key == q
  {
    if ps[0].key == q {
      i := 0;
    } else {
      i := ListedOnly(ps[1..], q);
      i := i + 1;
    }
  }

  lemma {:induction false} ExactlyHolds(ps: seq<Pair>, n: Node)
    requires Range(ps, 0, |ps|, 0) && WellFormed(n) && Exactly(n, ps, 0, |ps|, 0)
    ensures Holds(n, Listed(ps))
  {
    var m := Listed(ps);
    forall q ensures Lookup(n, q) == if q in m then m[q] else [] {
      if Present(n, q) {
        assert InRange(ps, 0, |ps|, 0, q);
        var i :| 0 <= i < |ps| && ps[i].key[0..] == q;
        ListedAt(ps, i);
        assert ps[i].key[0..] == ps[i].key;
      }
      if q in m {
        var i := ListedOnly(ps, q);
        ListedAt(ps, i);
        assert ps[i].key[0..] == q;
      }
    }
  }

  /** The trie item of a map, built from its entries alone. */
  method Rlp256(s: seq<Entry>, h: Hasher) returns (it: Item, ghost n: Node)
    requires Ascending(s) && forall i :: 0 <= i < |s| ==> s[i].value != []
    ensures Canonical(n) && WellFormed(n) && it == ItemOf(n, h) && Holds(n, Listed(HexOf(s)))
  {
    if s == [] {
      return NULL_ITEM, Empty;
    }
    var hexMap := HexMap(s);
    HexSorted(s);
    forall i | 0 <= i < |hexMap| ensures Agree(hexMap[0].key, hexMap[i].key, 0) { }
    it, n := Hash256Rlp(hexMap, 0, |hexMap|, 0, h);
    ExactlyHolds(hexMap, n);
  }

  /** Inserts the entries, last one first, into an ordered map: each one goes in front. */
  method HexMap(s: seq<Entry>) returns (hexMap: seq<Pair>)
    ensures hexMap == HexOf(s)
  {
    hexMap := [];
    var i := |s|;
    while i != 0
      invariant 0 <= i <= |s| && hexMap == HexOf(s[i..])
    {
      i := i - 1;
      assert s[i..][1..] == s[i + 1..];
      hexMap := [Pair(HexPrefix.AsNibbles(s[i].key), s[i].value)] + hexMap;
    }
    assert s[0..] == s;
  }

  /** The root of a map; any trie that got to hold the map by an allowed run has this root. */
  method Hash256(s: seq<Entry>, h: Hasher) returns (root: bytes, ghost n: Node)
    requires Ascending(s) && forall i :: 0 <= i < |s| ==> s[i].value != []
    ensures Canonical(n) && WellFormed(n) && Holds(n, Listed(HexOf(s))) && root == h(ItemOf(n, h))
    ensures forall ops :: RunAllowed(Empty, ops, TakenForPair(h)) && RunMap(map[], ops) == Listed(HexOf(s)) ==>
      root == h(ItemOf(RunNode(Empty, ops, TakenForPair(h)), h))
  {
    var it;
    it, n := Rlp256(s, h);
    root := h(it);
    ghost var hz := TakenForPair(h);
    forall ops | RunAllowed(Empty, ops, hz) && RunMap(map[], ops) == Listed(HexOf(s))
      ensures RunNode(Empty, ops, hz) == n
    {
      RunCorrect(Empty, map[], ops, hz);
      assert SameContents(RunNode(Empty, ops, hz), n);
      CanonicalUnique(RunNode(Empty, ops, hz), n);
    }
  }
}
