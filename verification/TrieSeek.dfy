/**
 What a search for a bound may skip: at each node, the entries before the place
 where the bound leads are below it and the entries behind that place are not.
 */
module TrieSeek {
  import opened Bytes
  import opened TrieNode
  import opened TrieOrder
  import HexPrefix

  lemma {:induction false} BelowConcat(a: seq<Visit>, b: seq<Visit>, bound: Nibbles)
    ensures Before(a + b, bound) <==> Before(a, bound) && Before(b, bound)
    ensures NotBefore(a + b, bound) <==> NotBefore(a, bound) && NotBefore(b, bound)
  {
    forall e | e in a || e in b ensures e in a + b {}
  }

  /** No key is before the empty key. */
  lemma {:induction false} NothingBeforeNil(es: seq<Visit>)
    ensures NotBefore(es, []) && (Before(es, []) ==> es == [])
  {
    forall e: Visit ensures !HexPrefix.Earlier(e.key, []) { EarlierNil(e.key, []); }
    if es != [] { assert es[0] in es; }
  }

  lemma {:induction false} NotEarlierSelf(a: Nibbles)
    ensures !HexPrefix.Earlier(a, a)
  {
    if HexPrefix.Earlier(a, a) { EarlierAsym(a, a); }
  }

  /** No key that continues `p` is before `p`. */
  lemma {:induction false} ContinuedNotEarlier(p: Nibbles, x: Nibbles)
    ensures !HexPrefix.Earlier(p + x, p)
  {
    EarlierPrefix(p, x, []);
    assert p + [] == p;
  }

  /** Nothing below a node is before the node's own path. */
  lemma {:induction false} EntriesFromPath(n: Node, p: Nibbles)
    requires WellFormed(n)
    ensures NotBefore(Entries(n, p), p)
  {
    forall e | e in Entries(n, p) ensures !HexPrefix.Earlier(e.key, p) {
      EntriesContinue(n, p, e);
      ContinuedNotEarlier(p, e.key[|p|..]);
      assert p + e.key[|p|..] == e.key;
    }
  }

  /** All entries of a pair continue its key. */
  lemma {:induction false} PairEntries(n: Node, p: Nibbles, e: Visit) returns (y: Nibbles)
    requires WellFormed(n) && (n.Leaf? || n.Extension?) && e in Entries(n, p)
    ensures e.key == p + (n.key + y)
  {
    if n.Leaf? {
      y := [];
      assert n.key + [] == n.key;
    } else {
      EntriesContinue(n.child, p + n.key, e);
      y := e.key[|p + n.key|..];
      assert e.key == p + n.key + y;
      Assoc(p, n.key, y);
    }
  }

  /** A pair whose key the bound passes is below the bound as a whole. */
  lemma {:induction false} PairBelow(n: Node, p: Nibbles, k: Nibbles)
    requires WellFormed(n) && (n.Leaf? || n.Extension?)
    requires !(n.key <= k) && !HexPrefix.Earlier(k, n.key)
    ensures Before(Entries(n, p), p + k)
  {
    forall e | e in Entries(n, p) ensures HexPrefix.Earlier(e.key, p + k) {
      var y := PairEntries(n, p, e);
      LaterThanPrefix(k, n.key, y);
      EarlierPrefix(p, n.key + y, k);
    }
  }

  /** A pair whose key is behind the bound has no entry below it. */
  lemma {:induction false} PairFrom(n: Node, p: Nibbles, k: Nibbles)
    requires WellFormed(n) && (n.Leaf? || n.Extension?) && HexPrefix.Earlier(k, n.key)
    ensures NotBefore(Entries(n, p), p + k)
  {
    forall e | e in Entries(n, p) ensures !HexPrefix.Earlier(e.key, p + k) {
      var y := PairEntries(n, p, e);
      EarlierThanPrefix(k, n.key, y);
      EarlierAsym(k, n.key + y);
      EarlierPrefix(p, n.key + y, k);
    }
  }

  /** A leaf whose key the bound continues is below the bound. */
  lemma {:induction false} LeafBelow(n: Node, p: Nibbles, k: Nibbles)
    requires n.Leaf? && n.key <= k && n.key != k
    ensures Before(Entries(n, p), p + k)
  {
    var x := k[|n.key|..];
    assert k == n.key + x && n.key == n.key + [];
    EarlierNil([], x);
    EarlierPrefix(n.key, [], x);
    EarlierPrefix(p, n.key, k);
  }

  // ---------------------------------------------------------------- branches

  /** The entries of a branch in front of slot `i`. */
  ghost function EntriesUpTo(n: Node, i: nat, p: Nibbles): seq<Visit>
    requires WellFormed(n) && n.Branch? && i <= 16
  {
    if i == 0 then ValueEntry(n.value, p)
    else EntriesUpTo(n, i - 1, p) + Entries(n.slots[i - 1], p + [i - 1])
  }

  lemma {:induction false} SplitAt(n: Node, i: nat, p: Nibbles)
    requires WellFormed(n) && n.Branch? && i <= 16
    ensures Entries(n, p) == EntriesUpTo(n, i, p) + EntriesFrom(n, i, p)
    decreases i
  {
    if i > 0 {
      SplitAt(n, i - 1, p);
      Assoc(EntriesUpTo(n, i - 1, p), Entries(n.slots[i - 1], p + [i - 1]), EntriesFrom(n, i, p));
    }
  }

  lemma {:induction false} UpToBelow(n: Node, i: nat, p: Nibbles, j: nibble, x: Nibbles)
    requires WellFormed(n) && n.Branch? && i <= j
    ensures Before(EntriesUpTo(n, i, p), p + ([j] + x))
    decreases i
  {
    if i == 0 {
      assert p == p + [];
      EarlierNil([], [j] + x);
      EarlierPrefix(p, [], [j] + x);
    } else {
      var s: nibble := i - 1;
      UpToBelow(n, i - 1, p, j, x);
      forall e | e in Entries(n.slots[s], p + [s]) ensures HexPrefix.Earlier(e.key, p + ([j] + x)) {
        EntriesContinue(n.slots[s], p + [s], e);
        var y := e.key[|p| + 1..];
        assert e.key == p + ([s] + y);
        EarlierCons(s, y, j, x);
        EarlierPrefix(p, [s] + y, [j] + x);
      }
      BelowConcat(EntriesUpTo(n, i - 1, p), Entries(n.slots[s], p + [s]), p + ([j] + x));
    }
  }

  lemma {:induction false} LaterSlotsFrom(n: Node, j: nibble, p: Nibbles, x: Nibbles)
    requires WellFormed(n) && n.Branch?
    ensures NotBefore(EntriesFrom(n, j as int + 1, p), p + ([j] + x))
  {
    forall e | e in EntriesFrom(n, j as int + 1, p) ensures !HexPrefix.Earlier(e.key, p + ([j] + x)) {
      EntriesFromContinue(n, j as int + 1, p, e);
      var s := e.key[|p|];
      var y := e.key[|p| + 1..];
      assert e.key == p + ([s] + y);
      EarlierCons(s, y, j, x);
      EarlierPrefix(p, [s] + y, [j] + x);
    }
  }
}
