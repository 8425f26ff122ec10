/**
 Whole runs of insertions and removals: the trie is the canonical trie of the
 resulting map, so its root depends on the map alone, and the store holds exactly
 the trie.
 */
module TrieRuns {
  import opened Bytes
  import opened TrieNode
  import opened TrieInsert
  import opened TrieDelete
  import opened TrieContents
  import opened TrieItem
  import opened NodeDb
  import opened TrieDb
  import HexPrefix
  import Multisets

  datatype Op = Put(key: bytes, value: bytes) | Del(key: bytes) {
    function Path(): Nibbles {
      HexPrefix.AsNibbles(key)
    }
  }

  /** A finite map from key nibbles to values, what the trie is to represent. */
  type Contents = map<Nibbles, bytes>

  ghost predicate Holds(n: Node, m: Contents)
    requires WellFormed(n)
  {
    forall q :: Lookup(n, q) == if q in m then m[q] else []
  }

  ghost predicate NoEmptyValues(m: Contents) {
    forall q :: q in m ==> m[q] != []
  }

  function ApplyMap(m: Contents, op: Op): Contents {
    match op
    case Put(_, v) => m[op.Path() := v]
    case Del(_) => m - {op.Path()}
  }

  ghost function ApplyNode(n: Node, op: Op, hz: Hazard): Node
    requires WellFormed(n)
  {
    match op
    case Put(_, v) => Inserted(n, op.Path(), v)
    case Del(_) => var d := Delete(n, op.Path(), hz); if d.Changed? then d.node else n
  }

  /** What the trie asks of its callers. */
  ghost predicate Allowed(n: Node, op: Op, hz: Hazard)
    requires WellFormed(n)
  {
    match op
    case Put(_, v) => v != []
    case Del(_) => SafeToRemove(n, op.Path(), hz)
  }

  /** One operation on the trie is that operation on the map it holds. */
  lemma {:induction false} ApplyCorrect(n: Node, m: Contents, op: Op, hz: Hazard)
    requires Canonical(n) && WellFormed(n) && Holds(n, m) && NoEmptyValues(m) && Allowed(n, op, hz)
    ensures Canonical(ApplyNode(n, op, hz)) && WellFormed(ApplyNode(n, op, hz))
    ensures Holds(ApplyNode(n, op, hz), ApplyMap(m, op)) && NoEmptyValues(ApplyMap(m, op))
  {
    var k := op.Path();
    match op
    case Put(_, v) =>
      InsertCanonical(n, k, v);
      forall q ensures Lookup(Inserted(n, k, v), q) == if q == k then v else Lookup(n, q) { InsertLookup(n, k, v, q); }
    case Del(_) =>
      FaultExactlyWhenUnsafe(n, k, hz);
      DeleteLookup(n, k, k, hz);
      if Delete(n, k, hz).Changed? {
        DeleteCanonical(n, k, hz);
        var n' := Delete(n, k, hz).node;
        CanonicalIsWellFormed(n');
        forall q ensures Lookup(n', q) == if q == k then [] else Lookup(n, q) { DeleteLookup(n, k, q, hz); }
      }
  }

  // --------------------------------------------------------------------- runs

  function RunMap(m: Contents, ops: seq<Op>): Contents
    decreases |ops|
  {
    if ops == [] then m else RunMap(ApplyMap(m, ops[0]), ops[1..])
  }

  ghost predicate RunAllowed(n: Node, ops: seq<Op>, hz: Hazard)
    requires Canonical(n) && WellFormed(n)
    decreases |ops|
  {
    ops == [] ||
    (Allowed(n, ops[0], hz) && (StepKeeps(n, ops[0], hz); RunAllowed(ApplyNode(n, ops[0], hz), ops[1..], hz)))
  }

  ghost function RunNode(n: Node, ops: seq<Op>, hz: Hazard): Node
    requires Canonical(n) && WellFormed(n) && RunAllowed(n, ops, hz)
    decreases |ops|
  {
    if ops == [] then n
    else
      StepKeeps(n, ops[0], hz);
      RunNode(ApplyNode(n, ops[0], hz), ops[1..], hz)
  }

  lemma {:induction false} RunFrom(n: Node, ops: seq<Op>, i: nat, hz: Hazard)
    requires Canonical(n) && WellFormed(n) && i < |ops| && RunAllowed(n, ops[i..], hz)
    ensures Allowed(n, ops[i], hz)
    ensures
      var n' := ApplyNode(n, ops[i], hz);
      && Canonical(n') && WellFormed(n') && RunAllowed(n', ops[i + 1..], hz)
      && RunNode(n, ops[i..], hz) == RunNode(n', ops[i + 1..], hz)
  {
    assert ops[i..][0] == ops[i] && ops[i..][1..] == ops[i + 1..];
    StepKeeps(n, ops[i], hz);
  }

  lemma {:induction false} StepKeeps(n: Node, op: Op, hz: Hazard)
    requires Canonical(n) && WellFormed(n) && Allowed(n, op, hz)
    ensures Canonical(ApplyNode(n, op, hz)) && WellFormed(ApplyNode(n, op, hz))
  {
    if op.Put? {
      InsertCanonical(n, op.Path(), op.value);
    } else if Delete(n, op.Path(), hz).Changed? {
      DeleteCanonical(n, op.Path(), hz);
      CanonicalIsWellFormed(Delete(n, op.Path(), hz).node);
    }
  }

  lemma {:induction false} RunCorrect(n: Node, m: Contents, ops: seq<Op>, hz: Hazard)
    requires Canonical(n) && WellFormed(n) && Holds(n, m) && NoEmptyValues(m) && RunAllowed(n, ops, hz)
    ensures Canonical(RunNode(n, ops, hz)) && WellFormed(RunNode(n, ops, hz))
    ensures Holds(RunNode(n, ops, hz), RunMap(m, ops)) && NoEmptyValues(RunMap(m, ops))
    decreases |ops|
  {
    if ops != [] {
      ApplyCorrect(n, m, ops[0], hz);
      RunCorrect(ApplyNode(n, ops[0], hz), ApplyMap(m, ops[0]), ops[1..], hz);
    }
  }

  ghost predicate KeysOf(n: Node, len: nat)
    requires WellFormed(n)
  {
    forall q :: Present(n, q) ==> |q| == 2 * len
  }

  /** An operation on a key of the length, with a value if it stores one. */
  predicate OfLength(op: Op, len: nat) {
    |op.key| == len && (op.Put? ==> op.value != [])
  }

  lemma {:induction false} StepFixedLength(n: Node, op: Op, len: nat, hz: Hazard)
    requires Canonical(n) && WellFormed(n) && KeysOf(n, len) && OfLength(op, len)
    ensures Allowed(n, op, hz) && WellFormed(ApplyNode(n, op, hz)) && KeysOf(ApplyNode(n, op, hz), len)
  {
    if op.Del? { SameLengthIsSafe(n, op.Path(), hz); }
    StepKeeps(n, op, hz);
    forall q | Present(ApplyNode(n, op, hz), q) ensures |q| == 2 * len {
      if op.Put? { InsertLookup(n, op.Path(), op.value, q); } else { DeleteLookup(n, op.Path(), q, hz); }
      assert q == op.Path() || Present(n, q);
    }
  }

  /** Runs over keys of one length, with non-empty values, are always allowed. */
  lemma {:induction false} FixedLengthAllowed(n: Node, ops: seq<Op>, len: nat, hz: Hazard)
    requires Canonical(n) && WellFormed(n) && KeysOf(n, len)
    requires forall i :: 0 <= i < |ops| ==> OfLength(ops[i], len)
    ensures RunAllowed(n, ops, hz)
    decreases |ops|
  {
    if ops != [] {
      StepFixedLength(n, ops[0], len, hz);
      StepKeeps(n, ops[0], hz);
      FixedLengthAllowed(ApplyNode(n, ops[0], hz), ops[1..], len, hz);
    }
  }

  /** Runs of insertions are allowed for keys of any length. */
  lemma {:induction false} InsertionsAllowed(n: Node, ops: seq<Op>, hz: Hazard)
    requires Canonical(n) && WellFormed(n)
    requires forall i :: 0 <= i < |ops| ==> ops[i].Put? && ops[i].value != []
    ensures RunAllowed(n, ops, hz)
    decreases |ops|
  {
    if ops != [] {
      StepKeeps(n, ops[0], hz);
      InsertionsAllowed(ApplyNode(n, ops[0], hz), ops[1..], hz);
    }
  }

  /** After any two allowed runs the roots agree exactly when the maps do: history does not matter. */
  lemma {:induction false} RootIsContents(ops: seq<Op>, ops': seq<Op>, h: Hasher, hz: Hazard)
    requires CollisionFree(h) && RunAllowed(Empty, ops, hz) && RunAllowed(Empty, ops', hz)
    ensures h(ItemOf(RunNode(Empty, ops, hz), h)) == h(ItemOf(RunNode(Empty, ops', hz), h))
      <==> RunMap(map[], ops) == RunMap(map[], ops')
  {
    var n, n', m, m' := RunNode(Empty, ops, hz), RunNode(Empty, ops', hz), RunMap(map[], ops), RunMap(map[], ops');
    RunCorrect(Empty, map[], ops, hz);
    RunCorrect(Empty, map[], ops', hz);
    if m == m' {
      assert SameContents(n, n');
      CanonicalUnique(n, n');
    }
    if h(ItemOf(n, h)) == h(ItemOf(n', h)) {
      RootDeterminesTrie(n, n', h);
      SameHeld(n, m, m');
    }
  }

  lemma {:induction false} SameHeld(n: Node, m: Contents, m': Contents)
    requires WellFormed(n) && Holds(n, m) && Holds(n, m') && NoEmptyValues(m) && NoEmptyValues(m')
    ensures m == m'
  {
    forall q ensures q in m <==> q in m' {
      assert Present(n, q) <==> q in m;
      assert Present(n, q) <==> q in m';
    }
    forall q | q in m ensures m[q] == m'[q] {
      assert Lookup(n, q) == m[q] && Lookup(n, q) == m'[q];
    }
  }

  // ----------------------------------------------------------- runs on a store

  /** A run on a stored trie ends in the trie of the run; the store's references follow exactly. */
  method RunOn(t: Trie, ops: seq<Op>)
    requires t.Valid() && RunAllowed(t.node, ops, t.Hz())
    modifies t, t.db
    ensures t.Valid() && t.node == RunNode(old(t.node), ops, t.Hz()) && t.db.DiskGrew(old(t.db.disk))
    ensures Change(old(t.db.refs), t.db.refs, RefsRoot(old(t.node), t.db.hash), RefsRoot(t.node, t.db.hash))
  {
    var i := 0;
    assert ops[0..] == ops;
    while i < |ops|
      invariant i <= |ops| && t.Valid() && t.db.DiskGrew(old(t.db.disk))
      invariant RunAllowed(t.node, ops[i..], t.Hz())
        && RunNode(t.node, ops[i..], t.Hz()) == RunNode(old(t.node), ops, t.Hz())
      invariant Change(old(t.db.refs), t.db.refs, RefsRoot(old(t.node), t.db.hash), RefsRoot(t.node, t.db.hash))
    {
      RunFrom(t.node, ops, i, t.Hz());
      Step(t, ops[i], old(t.db.refs), RefsRoot(old(t.node), t.db.hash));
      i := i + 1;
    }
    assert ops[|ops|..] == [];
  }

  method Step(t: Trie, op: Op, ghost before: multiset<bytes>, ghost gone: multiset<bytes>)
    requires t.Valid() && Allowed(t.node, op, t.Hz()) && Change(before, t.db.refs, gone, RefsRoot(t.node, t.db.hash))
    modifies t, t.db
    ensures t.Valid() && t.node == ApplyNode(old(t.node), op, t.Hz()) && t.db.DiskGrew(old(t.db.disk))
    ensures Change(before, t.db.refs, gone, RefsRoot(t.node, t.db.hash))
  {
    ghost var refs1, n := t.db.refs, t.node;
    if op.Put? {
      t.Insert(op.key, op.value);
      Multisets.Chain(before, refs1, t.db.refs, gone, RefsRoot(n, t.db.hash), RefsRoot(t.node, t.db.hash));
    } else {
      DeleteFindsPresent(n, op.Path(), t.Hz());
      t.Remove(op.key);
      if Present(n, op.Path()) {
        Multisets.Chain(before, refs1, t.db.refs, gone, RefsRoot(n, t.db.hash), RefsRoot(t.node, t.db.hash));
      }
    }
  }

  /** In a store of its own without a disk, every count is the number of occurrences in the trie. */
  method RunInMemory(hash: Hasher, ops: seq<Op>) returns (t: Trie)
    requires CollisionFree(hash) && RunAllowed(Empty, ops, TakenForPair(hash))
    ensures t.Valid() && t.db.hash == hash && t.node == RunNode(Empty, ops, TakenForPair(hash))
    ensures forall x :: t.db.Count(x) == RefsRoot(t.node, hash)[x]
  {
    var db := new Db(hash, map[], false);
    t := new Trie.Init(db);
    RunOn(t, ops);
    ghost var r0 := RefsRoot(Empty, hash);
    Multisets.Cancel(t.db.refs, RefsRoot(t.node, hash), r0);
  }
}
