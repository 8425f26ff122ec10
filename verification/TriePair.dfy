/** Two tries on one store: neither disturbs the other, and the counts are those of both. */
module TriePair {
  import opened Bytes
  import opened TrieNode
  import opened TrieItem
  import opened NodeDb
  import opened TrieDb
  import opened TrieRuns
  import Multisets

  /** The store counts the references of both tries. */
  ghost predicate Beside(t: Trie, u: Trie)
    reads t, u, t.db, u.db
  {
    && t != u && t.db == u.db && t.Valid() && u.Valid()
    && RefsRoot(t.node, t.db.hash) + RefsRoot(u.node, t.db.hash) <= t.db.refs
  }

  /** An operation on one trie leaves the other one, and the references of both are counted still. */
  method StepBeside(t: Trie, u: Trie, op: Op)
    requires Beside(t, u) && Allowed(t.node, op, t.Hz())
    modifies t, t.db
    ensures Beside(t, u) && t.node == ApplyNode(old(t.node), op, t.Hz())
    ensures Change(old(t.db.refs), t.db.refs, RefsRoot(old(t.node), t.db.hash), RefsRoot(t.node, t.db.hash))
  {
    ghost var x, gone, other := t.db.refs, RefsRoot(t.node, t.db.hash), RefsRoot(u.node, t.db.hash);
    Step(t, op, x, gone);
    Multisets.Keeps(x, t.db.refs, gone, RefsRoot(t.node, t.db.hash), other);
    Multisets.Parts(RefsRoot(t.node, t.db.hash), other, t.db.refs);
  }

  /** An operation on the first trie or on the second. */
  datatype Turn = Turn(first: bool, op: Op)

  /** The operations on one of them. */
  function OpsOf(ts: seq<Turn>, first: bool): seq<Op> {
    if ts == [] then []
    else if ts[0].first == first then [ts[0].op] + OpsOf(ts[1..], first)
    else OpsOf(ts[1..], first)
  }

  /** One turn in a run: it is an operation of one of the two runs, and the other is where it was. */
  lemma {:induction false} TurnOf(n: Node, ts: seq<Turn>, i: nat, first: bool, hz: Hazard)
    requires Canonical(n) && WellFormed(n) && i < |ts| && RunAllowed(n, OpsOf(ts[i..], first), hz)
    ensures ts[i].first == first ==> Allowed(n, ts[i].op, hz)
    ensures
      var n' := if ts[i].first == first then ApplyNode(n, ts[i].op, hz) else n;
      && Canonical(n') && WellFormed(n') && RunAllowed(n', OpsOf(ts[i + 1..], first), hz)
      && RunNode(n, OpsOf(ts[i..], first), hz) == RunNode(n', OpsOf(ts[i + 1..], first), hz)
  {
    var rest := OpsOf(ts[i + 1..], first);
    assert ts[i..][0] == ts[i] && ts[i..][1..] == ts[i + 1..];
    if ts[i].first == first {
      var ops := [ts[i].op] + rest;
      assert ops[0..] == ops && ops[1..] == rest;
      RunFrom(n, ops, 0, hz);
    }
  }

  /** Any interleaving of two runs: each trie ends as after its own run alone, and so do the counts. */
  method RunBoth(t: Trie, u: Trie, ts: seq<Turn>)
    requires Beside(t, u) && RunAllowed(t.node, OpsOf(ts, true), t.Hz()) && RunAllowed(u.node, OpsOf(ts, false), t.Hz())
    modifies t, u, t.db
    ensures Beside(t, u)
    ensures t.node == RunNode(old(t.node), OpsOf(ts, true), t.Hz())
    ensures u.node == RunNode(old(u.node), OpsOf(ts, false), t.Hz())
    ensures
      var h := t.db.hash;
      Change(old(t.db.refs), t.db.refs,
             RefsRoot(old(t.node), h) + RefsRoot(old(u.node), h), RefsRoot(t.node, h) + RefsRoot(u.node, h))
  {
    ghost var h, t0, u0 := t.db.hash, t.node, u.node;
    assert ts[0..] == ts;
    for i := 0 to |ts|
      invariant Beside(t, u)
      invariant RunAllowed(t.node, OpsOf(ts[i..], true), t.Hz()) && RunAllowed(u.node, OpsOf(ts[i..], false), t.Hz())
      invariant RunNode(t.node, OpsOf(ts[i..], true), t.Hz()) == RunNode(t0, OpsOf(ts, true), t.Hz())
      invariant RunNode(u.node, OpsOf(ts[i..], false), t.Hz()) == RunNode(u0, OpsOf(ts, false), t.Hz())
      invariant Change(old(t.db.refs), t.db.refs,
                       RefsRoot(t0, h) + RefsRoot(u0, h), RefsRoot(t.node, h) + RefsRoot(u.node, h))
    {
      TurnOf(t.node, ts, i, true, t.Hz());
      TurnOf(u.node, ts, i, false, t.Hz());
      PlayTurn(t, u, ts[i], old(t.db.refs), RefsRoot(t0, h) + RefsRoot(u0, h));
    }
    assert ts[|ts|..] == [];
  }

  method PlayTurn(t: Trie, u: Trie, c: Turn, ghost before: multiset<bytes>, ghost gone: multiset<bytes>)
    requires Beside(t, u) && Allowed(if c.first then t.node else u.node, c.op, t.Hz())
    requires Change(before, t.db.refs, gone, RefsRoot(t.node, t.db.hash) + RefsRoot(u.node, t.db.hash))
    modifies t, u, t.db
    ensures Beside(t, u)
    ensures t.node == (if c.first then ApplyNode(old(t.node), c.op, t.Hz()) else old(t.node))
    ensures u.node == (if c.first then old(u.node) else ApplyNode(old(u.node), c.op, t.Hz()))
    ensures Change(before, t.db.refs, gone, RefsRoot(t.node, t.db.hash) + RefsRoot(u.node, t.db.hash))
  {
    ghost var x, h := t.db.refs, t.db.hash;
    ghost var a, b := RefsRoot(t.node, h), RefsRoot(u.node, h);
    if c.first {
      StepBeside(t, u, c.op);
    } else {
      Multisets.Swap(a, b);
      StepBeside(u, t, c.op);
    }
    Multisets.ChainOne(before, x, t.db.refs, gone, a, b, RefsRoot(t.node, h), RefsRoot(u.node, h), c.first);
  }

  /** In a memory store of their own, the count of every hash is the number of its occurrences in both tries. */
  method BothInMemory(hash: Hasher, ts: seq<Turn>) returns (t: Trie, u: Trie)
    requires CollisionFree(hash)
    requires RunAllowed(Empty, OpsOf(ts, true), TakenForPair(hash))
      && RunAllowed(Empty, OpsOf(ts, false), TakenForPair(hash))
    ensures Beside(t, u) && t.db.hash == hash
    ensures t.node == RunNode(Empty, OpsOf(ts, true), TakenForPair(hash))
    ensures u.node == RunNode(Empty, OpsOf(ts, false), TakenForPair(hash))
    ensures forall x :: t.db.Count(x) == RefsRoot(t.node, hash)[x] + RefsRoot(u.node, hash)[x]
  {
    t, u := TwoEmpty(hash);
    RunBoth(t, u, ts);
    Multisets.Cancel(t.db.refs, RefsRoot(t.node, hash) + RefsRoot(u.node, hash),
                     RefsRoot(Empty, hash) + RefsRoot(Empty, hash));
    CountsAre(t.db, RefsRoot(t.node, hash), RefsRoot(u.node, hash));
  }

  lemma {:induction false} CountsAre(db: Db, a: multiset<bytes>, b: multiset<bytes>)
    requires db.Valid() && !db.hasDisk && db.refs == a + b
    ensures forall x :: db.Count(x) == a[x] + b[x]
  {
    forall x ensures db.Count(x) == a[x] + b[x] { assert db.Count(x) == db.refs[x]; }
  }

  method TwoEmpty(hash: Hasher) returns (t: Trie, u: Trie)
    requires CollisionFree(hash)
    ensures Beside(t, u) && fresh(t) && fresh(u) && fresh(t.db) && t.db.hash == hash && !t.db.hasDisk
    ensures t.node == u.node == Empty && t.db.refs == RefsRoot(Empty, hash) + RefsRoot(Empty, hash)
  {
    var db := new Db(hash, map[], false);
    t := new Trie.Init(db);
    u := new Trie.Init(db);
  }
}
