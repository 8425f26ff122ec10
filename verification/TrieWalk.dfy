/** Iteration after a run: the keys and values are those of the map that the run makes, in the order of the keys. */
module TrieWalk {
  import opened Bytes
  import opened TrieNode
  import opened TrieOrder
  import opened TrieDb
  import opened TrieRuns
  import opened TrieIterator
  import HexPrefix
  import TrieHash

  /** Keys that are whole bytes, of whatever lengths. */
  ghost predicate WholeKeys(m: Contents) {
    forall q :: q in m ==> Whole(q)
  }

  predicate Whole(q: Nibbles) {
    |q| % 2 == 0
  }

  lemma {:induction false} ApplyWhole(m: Contents, op: Op)
    requires WholeKeys(m)
    ensures WholeKeys(ApplyMap(m, op))
  {
    assert Whole(op.Path()) by { assert |op.Path()| == 2 * |op.key|; }
    assert forall q :: q in ApplyMap(m, op) ==> q in m || q == op.Path();
  }

  /** Runs over byte keys store whole bytes only. */
  lemma {:induction false} RunWhole(m: Contents, ops: seq<Op>)
    requires WholeKeys(m)
    ensures WholeKeys(RunMap(m, ops))
    decreases |ops|
  {
    if ops != [] {
      ApplyWhole(m, ops[0]);
      RunWhole(ApplyMap(m, ops[0]), ops[1..]);
    }
  }

  lemma {:induction false} HeldWhole(n: Node, m: Contents)
    requires WellFormed(n) && Holds(n, m) && WholeKeys(m)
    ensures forall q :: Present(n, q) ==> |q| % 2 == 0
  {
    forall q | Present(n, q) ensures |q| % 2 == 0 { assert q in m && Whole(q); }
  }

  // ------------------------------------------------------------ order of byte keys

  lemma {:induction false} PrecedesTotal(a: bytes, b: bytes)
    ensures a == b || Precedes(a, b) || Precedes(b, a)
    decreases |a|
  {
    if a != [] && b != [] && a[0] == b[0] { PrecedesTotal(a[1..], b[1..]); }
  }

  lemma {:induction false} NotBoth(x: Nibbles, y: Nibbles)
    requires HexPrefix.Earlier(x, y)
    ensures !HexPrefix.Earlier(y, x)
    decreases |x|
  {
    if x != [] && y != [] && x[0] == y[0] && HexPrefix.Earlier(y, x) { NotBoth(x[1..], y[1..]); }
  }

  /** Nibbles that come earlier are of bytes that do. */
  lemma {:induction false} ByteOrder(a: bytes, b: bytes)
    requires HexPrefix.Earlier(HexPrefix.AsNibbles(a), HexPrefix.AsNibbles(b))
    ensures Precedes(a, b)
  {
    var x, y := HexPrefix.AsNibbles(a), HexPrefix.AsNibbles(b);
    NotBoth(x, y);
    PrecedesTotal(a, b);
    if Precedes(b, a) { TrieHash.NibbleOrder(b, a); }
  }

  // ------------------------------------------------------------------------- runs

  /** The keys and values of a map, each once, in the order of the keys. */
  ghost predicate Lists(keys: seq<bytes>, values: seq<bytes>, m: Contents) {
    && |keys| == |values|
    && (forall i :: 0 <= i < |keys| ==>
          var q := HexPrefix.AsNibbles(keys[i]);
          q in m && m[q] == values[i])
    && (forall q :: q in m ==> exists i :: 0 <= i < |keys| && HexPrefix.AsNibbles(keys[i]) == q)
    && (forall i, j :: 0 <= i < j < |keys| ==> Precedes(keys[i], keys[j]))
  }

  lemma {:induction false} YieldsLists(keys: seq<bytes>, values: seq<bytes>, es: seq<Visit>, n: Node, m: Contents)
    requires WellFormed(n) && Holds(n, m) && NoEmptyValues(m) && |keys| == |es| && Yields(keys, values, es)
      && Increasing(es)
    requires forall e :: e in es <==> e.value != [] && Lookup(n, e.key) == e.value
    ensures Lists(keys, values, m)
  {
    forall i | 0 <= i < |keys|
      ensures HexPrefix.AsNibbles(keys[i]) in m && m[HexPrefix.AsNibbles(keys[i])] == values[i]
    {
      assert es[i] in es;
    }
    forall q | q in m ensures exists i :: 0 <= i < |keys| && HexPrefix.AsNibbles(keys[i]) == q {
      assert Visit(q, m[q]) in es;
      var i :| 0 <= i < |es| && es[i] == Visit(q, m[q]);
      assert HexPrefix.AsNibbles(keys[i]) == q;
    }
    forall i, j | 0 <= i < j < |keys| ensures Precedes(keys[i], keys[j]) {
      assert HexPrefix.Earlier(es[i].key, es[j].key);
      ByteOrder(keys[i], keys[j]);
    }
  }

  /** After any run over byte keys, iteration lists the map of the run. */
  method CollectRun(t: Trie, ops: seq<Op>, ghost m: Contents) returns (keys: seq<bytes>, values: seq<bytes>)
    requires t.Valid() && Holds(t.node, m) && NoEmptyValues(m) && WholeKeys(m) && RunAllowed(t.node, ops, t.Hz())
    modifies t, t.db
    ensures Lists(keys, values, RunMap(m, ops))
  {
    RunCorrect(t.node, m, ops, t.Hz());
    RunWhole(m, ops);
    RunOn(t, ops);
    HeldWhole(t.node, RunMap(m, ops));
    keys, values := Collect(t);
    YieldsLists(keys, values, Entries(t.node, []), t.node, RunMap(m, ops));
  }
}
