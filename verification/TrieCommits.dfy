/**
 Runs of updates and commits on a store with a disk, in which uncommitted changes
 may be lost and any committed root may be opened again. Every root that was ever
 committed keeps returning its own map, from the disk alone.
 */
module TrieCommits {
  import opened Bytes
  import opened TrieNode
  import opened TrieItem
  import opened NodeDb
  import opened TrieDb
  import opened TrieRuns
  import HexPrefix

  /**
   An update, a commit, opening the root of commit `i` again, or losing the memory
   layer, by a rollback or a crash, and then opening the root of commit `i`.
   */
  datatype Event = Update(op: Op) | Commit | Reopen(i: nat) | Lose(i: nat)

  /** The current trie, the tries that were committed, and whether the memory layer is surely empty. */
  datatype History = History(node: Node, committed: seq<Node>, clean: bool)

  /** The same for the maps they hold. */
  datatype Maps = Maps(now: Contents, committed: seq<Contents>)

  ghost predicate Sound(h: History) {
    && Canonical(h.node) && WellFormed(h.node)
    && forall i :: 0 <= i < |h.committed| ==> Canonical(h.committed[i]) && WellFormed(h.committed[i])
  }

  ghost predicate Permitted(h: History, e: Event, hz: Hazard)
    requires Sound(h)
  {
    match e
    case Update(op) => Allowed(h.node, op, hz)
    case Commit => true
    case Reopen(i) => i < |h.committed|
    case Lose(i) => i < |h.committed|
  }

  ghost function After(h: History, e: Event, hz: Hazard): (r: History)
    requires Sound(h) && Permitted(h, e, hz)
    ensures Sound(r) && h.committed <= r.committed
  {
    match e
    case Update(op) => StepKeeps(h.node, op, hz); h.(node := ApplyNode(h.node, op, hz), clean := false)
    case Commit => h.(committed := h.committed + [h.node], clean := true)
    case Reopen(i) => h.(node := h.committed[i])
    case Lose(i) => h.(node := h.committed[i], clean := true)
  }

  ghost predicate RunPermitted(h: History, es: seq<Event>, hz: Hazard)
    requires Sound(h)
    decreases |es|
  {
    es == [] || (Permitted(h, es[0], hz) && RunPermitted(After(h, es[0], hz), es[1..], hz))
  }

  ghost function RunHistory(h: History, es: seq<Event>, hz: Hazard): (r: History)
    requires Sound(h) && RunPermitted(h, es, hz)
    ensures Sound(r) && h.committed <= r.committed
    decreases |es|
  {
    if es == [] then h else RunHistory(After(h, es[0], hz), es[1..], hz)
  }

  /** Only roots committed before are opened, `n` of them before the run. */
  predicate OpensCommitted(es: seq<Event>, n: nat)
    decreases |es|
  {
    if es == [] then true
    else
      && (es[0].Reopen? || es[0].Lose? ==> es[0].i < n)
      && OpensCommitted(es[1..], if es[0].Commit? then n + 1 else n)
  }

  ghost predicate AllKeysOf(h: History, len: nat)
    requires Sound(h)
  {
    KeysOf(h.node, len) && forall i :: 0 <= i < |h.committed| ==> KeysOf(h.committed[i], len)
  }

  /** Over keys of one length, with non-empty values, every run that opens committed roots only is permitted. */
  lemma {:induction false} FixedLengthPermitted(h: History, es: seq<Event>, len: nat, hz: Hazard)
    requires Sound(h) && AllKeysOf(h, len) && OpensCommitted(es, |h.committed|)
    requires forall i :: 0 <= i < |es| && es[i].Update? ==> OfLength(es[i].op, len)
    ensures RunPermitted(h, es, hz)
    decreases |es|
  {
    if es != [] {
      if es[0].Update? { StepFixedLength(h.node, es[0].op, len, hz); }
      FixedLengthPermitted(After(h, es[0], hz), es[1..], len, hz);
    }
  }

  // ------------------------------------------------------------------------ maps

  /** Opening a root that was never committed is no event of a run; it is given no effect. */
  function MapsAfter(m: Maps, e: Event): Maps {
    match e
    case Update(op) => m.(now := ApplyMap(m.now, op))
    case Commit => m.(committed := m.committed + [m.now])
    case Reopen(i) => if i < |m.committed| then m.(now := m.committed[i]) else m
    case Lose(i) => if i < |m.committed| then m.(now := m.committed[i]) else m
  }

  function RunMaps(m: Maps, es: seq<Event>): Maps
    decreases |es|
  {
    if es == [] then m else RunMaps(MapsAfter(m, es[0]), es[1..])
  }

  ghost predicate HoldsAll(h: History, m: Maps)
    requires Sound(h)
  {
    && Holds(h.node, m.now) && NoEmptyValues(m.now) && |h.committed| == |m.committed|
    && forall i :: 0 <= i < |h.committed| ==> Holds(h.committed[i], m.committed[i]) && NoEmptyValues(m.committed[i])
  }

  lemma {:induction false} AfterHolds(h: History, m: Maps, e: Event, hz: Hazard)
    requires Sound(h) && HoldsAll(h, m) && Permitted(h, e, hz)
    ensures HoldsAll(After(h, e, hz), MapsAfter(m, e))
  {
    if e.Update? { ApplyCorrect(h.node, m.now, e.op, hz); }
  }

  /** After any run the current trie and every committed one hold the maps that the run makes. */
  lemma {:induction false} RunHolds(h: History, m: Maps, es: seq<Event>, hz: Hazard)
    requires Sound(h) && HoldsAll(h, m) && RunPermitted(h, es, hz)
    ensures HoldsAll(RunHistory(h, es, hz), RunMaps(m, es))
    decreases |es|
  {
    if es != [] {
      AfterHolds(h, m, es[0], hz);
      RunHolds(After(h, es[0], hz), MapsAfter(m, es[0]), es[1..], hz);
    }
  }

  // -------------------------------------------------------------------- the store

  /** All nodes of a trie are on disk. */
  ghost predicate OnDisk(n: Node, db: Db)
    reads db
  {
    forall x :: x in RefsRoot(n, db.hash) ==> x in db.disk
  }

  /** The committed tries are on disk, and these are their roots. */
  ghost predicate Rooted(committed: seq<Node>, roots: seq<bytes>, db: Db)
    reads db
  {
    && |roots| == |committed|
    && forall i :: 0 <= i < |roots| ==> roots[i] == db.hash(ItemOf(committed[i], db.hash)) && OnDisk(committed[i], db)
  }

  method UpdateTrie(t: Trie, op: Op, roots: seq<bytes>, ghost committed: seq<Node>)
    requires t.Valid() && Rooted(committed, roots, t.db) && Allowed(t.node, op, t.Hz())
    modifies t, t.db
    ensures t.Valid() && t.node == ApplyNode(old(t.node), op, t.Hz()) && Rooted(committed, roots, t.db)
    ensures t.db.DiskGrew(old(t.db.disk))
  {
    Step(t, op, t.db.refs, RefsRoot(t.node, t.db.hash));
  }

  lemma {:induction false} RootedOneMore(committed: seq<Node>, roots: seq<bytes>, n: Node, root: bytes, db: Db)
    requires Rooted(committed, roots, db) && root == db.hash(ItemOf(n, db.hash)) && OnDisk(n, db)
    ensures Rooted(committed + [n], roots + [root], db)
  {
    var all := committed + [n];
    assert forall i :: 0 <= i < |all| ==> all[i] == if i < |committed| then committed[i] else n;
  }

  method CommitAll(t: Trie)
    requires t.Valid() && t.db.hasDisk
    modifies t.db
    ensures t.Valid() && OnDisk(t.node, t.db) && t.db.DiskGrew(old(t.db.disk)) && t.db.main == map[]
  {
    t.db.Commit();
  }

  method CommitRoot(t: Trie, roots: seq<bytes>, ghost committed: seq<Node>) returns (roots': seq<bytes>)
    requires t.Valid() && t.db.hasDisk && Rooted(committed, roots, t.db)
    modifies t.db
    ensures t.Valid() && Rooted(committed + [t.node], roots', t.db)
    ensures t.db.DiskGrew(old(t.db.disk)) && t.db.main == map[]
  {
    CommitAll(t);
    RootedOneMore(committed, roots, t.node, t.root, t.db);
    roots' := roots + [t.root];
  }

  /** A rollback, or a crash: the memory layer is gone, the committed tries are not. */
  method LoseMemory(db: Db, roots: seq<bytes>, ghost committed: seq<Node>)
    requires db.Valid() && Rooted(committed, roots, db)
    modifies db`main, db`refs
    ensures db.main == map[] && db.disk == old(db.disk)
    ensures db.Valid() && NoStubs(db.refs, db.hash) && Rooted(committed, roots, db)
  {
    db.Rollback();
  }

  method OpenRoot(db: Db, roots: seq<bytes>, i: nat, ghost committed: seq<Node>) returns (t: Trie)
    requires db.Valid() && NoStubs(db.refs, db.hash) && Rooted(committed, roots, db)
    requires i < |committed| && Canonical(committed[i])
    modifies db`refs
    ensures db.main == old(db.main) && db.disk == old(db.disk)
    ensures fresh(t) && t.Valid() && t.db == db && t.node == committed[i] && Rooted(committed, roots, db)
  {
    assert OnDisk(committed[i], db);
    t := new Trie.Open(db, roots[i], committed[i]);
  }

  /** One event. An opened trie is a new object on the same store. */
  method Play(t: Trie, roots: seq<bytes>, e: Event, ghost h: History) returns (t': Trie, roots': seq<bytes>)
    requires t.Valid() && t.db.hasDisk && Sound(h) && t.node == h.node && Rooted(h.committed, roots, t.db)
    requires Permitted(h, e, t.Hz()) && (h.clean ==> t.db.main == map[])
    modifies t, t.db
    ensures t'.Valid() && t'.db == t.db && (t' == t || fresh(t'))
    ensures t'.node == After(h, e, t.Hz()).node && Rooted(After(h, e, t.Hz()).committed, roots', t.db)
    ensures (After(h, e, t.Hz()).clean ==> t.db.main == map[]) && t.db.DiskGrew(old(t.db.disk))
    ensures e.Lose? || e.Reopen? ==> t.db.disk == old(t.db.disk)
  {
    t', roots' := t, roots;
    match e
    case Update(op) => UpdateTrie(t, op, roots, h.committed);
    case Commit => roots' := CommitRoot(t, roots, h.committed);
    case Reopen(i) => t' := OpenRoot(t.db, roots, i, h.committed);
    case Lose(i) =>
      LoseMemory(t.db, roots, h.committed);
      t' := OpenRoot(t.db, roots, i, h.committed);
  }

  /** After any run the current trie is as the run makes it and every committed trie is on disk under its root. */
  method RunOnStore(t: Trie, es: seq<Event>) returns (t': Trie, roots: seq<bytes>)
    requires t.Valid() && t.db.hasDisk && RunPermitted(History(t.node, [], false), es, t.Hz())
    modifies t, t.db
    ensures t'.Valid() && t'.db == t.db
    ensures t'.node == RunHistory(old(History(t.node, [], false)), es, t.Hz()).node
    ensures Rooted(RunHistory(old(History(t.node, [], false)), es, t.Hz()).committed, roots, t.db)
    ensures RunHistory(old(History(t.node, [], false)), es, t.Hz()).clean ==> t.db.main == map[]
    ensures t.db.DiskGrew(old(t.db.disk))
  {
    t', roots := t, [];
    ghost var h, all := History(t.node, [], false), RunHistory(History(t.node, [], false), es, t.Hz());
    assert es[0..] == es;
    for i := 0 to |es|
      invariant t'.Valid() && t'.db == t.db && (t' == t || fresh(t')) && Sound(h)
      invariant t'.node == h.node && Rooted(h.committed, roots, t.db)
      invariant (h.clean ==> t.db.main == map[]) && t.db.DiskGrew(old(t.db.disk))
      invariant RunPermitted(h, es[i..], t.Hz()) && RunHistory(h, es[i..], t.Hz()) == all
    {
      assert es[i..][0] == es[i] && es[i..][1..] == es[i + 1..];
      t', roots := Play(t', roots, es[i], h);
      h := After(h, es[i], t.Hz());
    }
    assert es[|es|..] == [];
  }

  /** Any root that a run committed, opened from disk after it, returns the value of its own map. */
  method ReadCommitted(t: Trie, es: seq<Event>, i: nat, key: bytes, lose: bool, ghost m: Contents) returns (v: bytes)
    requires t.Valid() && t.db.hasDisk && Holds(t.node, m) && NoEmptyValues(m)
    requires RunPermitted(History(t.node, [], false), es, t.Hz()) && i < |RunMaps(Maps(m, []), es).committed|
    modifies t, t.db
    ensures
      var k, committed := HexPrefix.AsNibbles(key), RunMaps(Maps(m, []), es).committed[i];
      v == if k in committed then committed[k] else []
    ensures lose ==> t.db.main == map[]
  {
    ghost var h := RunHistory(History(t.node, [], false), es, t.Hz());
    RunHolds(History(t.node, [], false), Maps(m, []), es, t.Hz());
    var t', roots := RunOnStore(t, es);
    if lose {
      LoseMemory(t.db, roots, h.committed);
    }
    var committed := OpenRoot(t.db, roots, i, h.committed);
    v := committed.At(key);
  }
}
