/** The entries of a trie in key order: what an iteration is to visit. */
module TrieOrder {
  import opened Bytes
  import opened TrieNode
  import opened TrieContents
  import HexPrefix

  datatype Visit = Visit(key: Nibbles, value: bytes)

  /** All entries below `n`, whose keys continue `p`. */
  ghost function Entries(n: Node, p: Nibbles): seq<Visit>
    requires WellFormed(n)
    decreases n, 17
  {
    match n
    case Empty => []
    case Leaf(k, v) => [Visit(p + k, v)]
    case Extension(k, c) => Entries(c, p + k)
    case Branch(slots, v) => ValueEntry(v, p) + EntriesFrom(n, 0, p)
  }

  ghost function ValueEntry(v: bytes, p: Nibbles): seq<Visit> {
    if v == [] then [] else [Visit(p, v)]
  }

  /** The entries in the slots of a branch from slot `i` on. */
  ghost function EntriesFrom(n: Node, i: nat, p: Nibbles): seq<Visit>
    requires WellFormed(n) && n.Branch? && i <= 16
    decreases n, 16 - i
  {
    if i == 16 then [] else Entries(n.slots[i], p + [i]) + EntriesFrom(n, i + 1, p)
  }

  ghost predicate Before(es: seq<Visit>, bound: Nibbles) {
    forall e :: e in es ==> HexPrefix.Earlier(e.key, bound)
  }

  ghost predicate NotBefore(es: seq<Visit>, bound: Nibbles) {
    forall e :: e in es ==> !HexPrefix.Earlier(e.key, bound)
  }

  ghost predicate Increasing(es: seq<Visit>) {
    forall i, j :: 0 <= i < j < |es| ==> HexPrefix.Earlier(es[i].key, es[j].key)
  }

  // ------------------------------------------------------------ lexicographic order

  lemma {:induction false} EarlierCons(x: nibble, a: Nibbles, y: nibble, b: Nibbles)
    ensures HexPrefix.Earlier([x] + a, [y] + b) <==> x < y || (x == y && HexPrefix.Earlier(a, b))
  {
    assert ([x] + a)[1..] == a && ([y] + b)[1..] == b;
  }

  lemma {:induction false} EarlierNil(a: Nibbles, b: Nibbles)
    requires a == [] || b == []
    ensures HexPrefix.Earlier(a, b) <==> a == [] && b != []
  {
  }

  lemma {:induction false} EarlierPrefix(u: Nibbles, a: Nibbles, b: Nibbles)
    ensures HexPrefix.Earlier(u + a, u + b) <==> HexPrefix.Earlier(a, b)
  {
    if u == [] {
      assert u + a == a && u + b == b;
    } else {
      assert u + a == [u[0]] + (u[1..] + a) && u + b == [u[0]] + (u[1..] + b);
      EarlierCons(u[0], u[1..] + a, u[0], u[1..] + b);
      EarlierPrefix(u[1..], a, b);
    }
  }

  lemma {:induction false} EarlierAsym(a: Nibbles, b: Nibbles)
    requires HexPrefix.Earlier(a, b)
    ensures !HexPrefix.Earlier(b, a)
    decreases |a|
  {
    if a != [] && b != [] {
      HeadTail(a);
      HeadTail(b);
      EarlierCons(a[0], a[1..], b[0], b[1..]);
      EarlierCons(b[0], b[1..], a[0], a[1..]);
      if a[0] == b[0] { EarlierAsym(a[1..], b[1..]); }
    }
  }

  /** A key before a prefix is before everything that starts with the prefix. */
  lemma {:induction false} EarlierThanPrefix(a: Nibbles, k: Nibbles, x: Nibbles)
    requires HexPrefix.Earlier(a, k)
    ensures HexPrefix.Earlier(a, k + x)
    decreases |a|
  {
    if a != [] {
      HeadTail(a);
      HeadTail(k);
      EarlierCons(a[0], a[1..], k[0], k[1..]);
      assert k + x == [k[0]] + (k[1..] + x);
      EarlierCons(a[0], a[1..], k[0], k[1..] + x);
      if a[0] == k[0] { EarlierThanPrefix(a[1..], k[1..], x); }
    }
  }

  /** A key that neither starts with a prefix nor is before it is behind everything that starts with it. */
  lemma {:induction false} LaterThanPrefix(a: Nibbles, k: Nibbles, x: Nibbles)
    requires !HexPrefix.Earlier(a, k) && !(k <= a)
    ensures HexPrefix.Earlier(k + x, a)
    decreases |k|
  {
    if a == [] { EarlierNil(a, k); }
    HeadTail(a);
    HeadTail(k);
    EarlierCons(a[0], a[1..], k[0], k[1..]);
    assert k + x == [k[0]] + (k[1..] + x);
    EarlierCons(k[0], k[1..] + x, a[0], a[1..]);
    if a[0] == k[0] {
      assert k <= a <==> k[1..] <= a[1..];
      LaterThanPrefix(a[1..], k[1..], x);
    }
  }

  // ------------------------------------------------------ where entries lie

  /** Every entry below `n` continues `p`. */
  lemma {:induction false} EntriesContinue(n: Node, p: Nibbles, e: Visit)
    requires WellFormed(n) && e in Entries(n, p)
    ensures p <= e.key && e.value != [] ==> Lookup(n, e.key[|p|..]) == e.value
    ensures p <= e.key
    decreases n, 17
  {
    match n
    case Leaf(k, v) =>
      assert (p + k)[|p|..] == k;
    case Extension(k, c) =>
      EntriesContinue(c, p + k, e);
      assert e.key[|p|..] == k + e.key[|p + k|..];
      PresentBelow(n, e.key[|p + k|..]);
    case Branch(slots, v) =>
      if e in ValueEntry(v, p) {
        assert e.key[|p|..] == [];
      } else {
        EntriesFromContinue(n, 0, p, e);
      }
  }

  lemma {:induction false} EntriesFromContinue(n: Node, i: nat, p: Nibbles, e: Visit)
    requires WellFormed(n) && n.Branch? && i <= 16 && e in EntriesFrom(n, i, p)
    ensures p <= e.key && |e.key| > |p| && i <= e.key[|p|]
    ensures e.value != [] ==> Lookup(n, e.key[|p|..]) == e.value
    decreases n, 16 - i
  {
    if e in Entries(n.slots[i], p + [i]) {
      EntriesContinue(n.slots[i], p + [i], e);
      var j: nibble := i;
      assert e.key[|p|..] == [j] + e.key[|p| + 1..] && |p + [j]| == |p| + 1;
      SlotView(n, j, e.key[|p| + 1..]);
    } else {
      EntriesFromContinue(n, i + 1, p, e);
    }
  }

  /** Every stored value is among the entries. */
  lemma {:induction false} EntriesComplete(n: Node, p: Nibbles, q: Nibbles)
    requires WellFormed(n) && Present(n, q)
    ensures Visit(p + q, Lookup(n, q)) in Entries(n, p)
    decreases n, 17
  {
    match n
    case Leaf(k, v) =>
    case Extension(k, c) =>
      ExtensionPresent(n, q);
      EntriesComplete(c, p + k, q[|k|..]);
      assert p + q == p + k + q[|k|..];
    case Branch(slots, v) =>
      if q == [] {
        assert p + q == p;
      } else {
        var i := q[0];
        EntriesComplete(slots[i], p + [i], q[1..]);
        HeadTail(q);
        assert p + q == p + [i] + q[1..];
        SlotInEntries(n, 0, i, p, Visit(p + q, Lookup(n, q)));
      }
  }

  lemma {:induction false} SlotInEntries(n: Node, i: nat, j: nat, p: Nibbles, e: Visit)
    requires WellFormed(n) && n.Branch? && i <= j < 16 && e in Entries(n.slots[j], p + [j])
    ensures e in EntriesFrom(n, i, p)
    decreases j - i
  {
    if i < j { SlotInEntries(n, i + 1, j, p, e); }
  }

  /** The entries are exactly the stored pairs. */
  lemma {:induction false} EntriesExact(n: Node, e: Visit)
    requires Canonical(n) && WellFormed(n)
    ensures e in Entries(n, []) <==> e.value != [] && Lookup(n, e.key) == e.value
  {
    if e in Entries(n, []) {
      EntriesContinue(n, [], e);
      NoEmptyEntries(n, [], e);
      assert e.key[0..] == e.key;
    }
    if e.value != [] && Lookup(n, e.key) == e.value {
      EntriesComplete(n, [], e.key);
      assert [] + e.key == e.key;
    }
  }

  lemma {:induction false} NoEmptyEntries(n: Node, p: Nibbles, e: Visit)
    requires Canonical(n) && WellFormed(n) && e in Entries(n, p)
    ensures e.value != []
    decreases n, 17
  {
    match n
    case Leaf(_, _) =>
    case Extension(k, c) => NoEmptyEntries(c, p + k, e);
    case Branch(_, v) => if e !in ValueEntry(v, p) { NoEmptyEntriesFrom(n, 0, p, e); }
  }

  lemma {:induction false} NoEmptyEntriesFrom(n: Node, i: nat, p: Nibbles, e: Visit)
    requires Canonical(n) && WellFormed(n) && n.Branch? && i <= 16 && e in EntriesFrom(n, i, p)
    ensures e.value != []
    decreases n, 16 - i
  {
    if e in Entries(n.slots[i], p + [i]) {
      NoEmptyEntries(n.slots[i], p + [i], e);
    } else {
      NoEmptyEntriesFrom(n, i + 1, p, e);
    }
  }

  // ------------------------------------------------------------------- order

  /** Entries in slot `i` come before entries in later slots. */
  lemma {:induction false} SlotsInOrder(n: Node, i: nibble, p: Nibbles, a: Visit, b: Visit)
    requires WellFormed(n) && n.Branch? && a in Entries(n.slots[i], p + [i]) && b in EntriesFrom(n, i as int + 1, p)
    ensures HexPrefix.Earlier(a.key, b.key)
  {
    EntriesContinue(n.slots[i], p + [i], a);
    EntriesFromContinue(n, i as int + 1, p, b);
    var x, y := a.key[|p| + 1..], b.key[|p| + 1..];
    var j := b.key[|p|];
    assert a.key == p + ([i] + x) && b.key == p + ([j] + y);
    EarlierCons(i, x, j, y);
    EarlierPrefix(p, [i] + x, [j] + y);
  }

  lemma {:induction false} ValueFirst(n: Node, p: Nibbles, b: Visit)
    requires WellFormed(n) && n.Branch? && b in EntriesFrom(n, 0, p)
    ensures HexPrefix.Earlier(p, b.key)
  {
    EntriesFromContinue(n, 0, p, b);
    assert b.key == p + b.key[|p|..] && p == p + [];
    EarlierNil([], b.key[|p|..]);
    EarlierPrefix(p, [], b.key[|p|..]);
  }

  lemma {:induction false} IncreasingConcat(a: seq<Visit>, b: seq<Visit>)
    requires Increasing(a) && Increasing(b)
    requires forall x, y :: x in a && y in b ==> HexPrefix.Earlier(x.key, y.key)
    ensures Increasing(a + b)
  {
    forall i, j | 0 <= i < j < |a + b| ensures HexPrefix.Earlier((a + b)[i].key, (a + b)[j].key) {
      if j < |a| {
        assert HexPrefix.Earlier(a[i].key, a[j].key);
      } else if i >= |a| {
        assert HexPrefix.Earlier(b[i - |a|].key, b[j - |a|].key);
      } else {
        assert a[i] in a && b[j - |a|] in b;
      }
    }
  }

  /** The entries come in strictly increasing key order. */
  lemma {:induction false} EntriesIncreasing(n: Node, p: Nibbles)
    requires WellFormed(n)
    ensures Increasing(Entries(n, p))
    decreases n, 17
  {
    match n
    case Empty =>
    case Leaf(_, _) =>
    case Extension(k, c) => EntriesIncreasing(c, p + k);
    case Branch(_, v) =>
      EntriesFromIncreasing(n, 0, p);
      forall x, y | x in ValueEntry(v, p) && y in EntriesFrom(n, 0, p) ensures HexPrefix.Earlier(x.key, y.key) {
        ValueFirst(n, p, y);
      }
      IncreasingConcat(ValueEntry(v, p), EntriesFrom(n, 0, p));
  }

  lemma {:induction false} EntriesFromIncreasing(n: Node, i: nat, p: Nibbles)
    requires WellFormed(n) && n.Branch? && i <= 16
    ensures Increasing(EntriesFrom(n, i, p))
    decreases n, 16 - i
  {
    if i < 16 {
      EntriesIncreasing(n.slots[i], p + [i]);
      EntriesFromIncreasing(n, i + 1, p);
      forall x, y | x in Entries(n.slots[i], p + [i]) && y in EntriesFrom(n, i + 1, p)
        ensures HexPrefix.Earlier(x.key, y.key)
      {
        SlotsInOrder(n, i, p, x, y);
      }
      IncreasingConcat(Entries(n.slots[i], p + [i]), EntriesFrom(n, i + 1, p));
    }
  }
}
