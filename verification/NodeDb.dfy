/**
 The content-addressed node store: a memory layer with reference counts, over a
 disk that only grows (absent for a pure memory store).
 */
module NodeDb {
  import opened Bytes
  import opened Rlp
  import opened TrieItem

  datatype Option<+T> = None | Some(value: T)

  datatype Entry = Entry(value: Item, count: nat)

  /** Erases one by one the entries nobody refers to. */
  method Referenced(main: map<bytes, Entry>) returns (r: map<bytes, Entry>)
    ensures r == map h | h in main && main[h].count > 0 :: main[h]
  {
    r := main;
    var todo := main.Keys;
    while todo != {}
      invariant todo <= r.Keys <= main.Keys
      invariant forall h :: h in r ==> r[h] == main[h]
      invariant forall h :: h in main ==> (h in r <==> h in todo || main[h].count > 0)
    {
      var h :| h in todo;
      todo := todo - {h};
      if r[h].count == 0 {
        r := r - {h};
      }
    }
  }

  /** What a commit writes: the values still referenced. */
  method Batch(main: map<bytes, Entry>) returns (batch: map<bytes, Item>)
    ensures batch == map h | h in main && main[h].count > 0 :: main[h].value
  {
    batch := map[];
    var todo := main.Keys;
    while todo != {}
      invariant todo <= main.Keys
      invariant forall h :: h in batch ==> h in main && main[h].count > 0 && batch[h] == main[h].value
      invariant forall h :: h in main && h !in todo && main[h].count > 0 ==> h in batch
    {
      var h :| h in todo;
      if main[h].count > 0 {
        batch := batch[h := main[h].value];
      }
      todo := todo - {h};
    }
  }

  class Db {
    const hash: Hasher
    const hasDisk: bool
    var main: map<bytes, Entry>
    var disk: map<bytes, Item>
    var enforceRefs: bool
    var commitOnEveryInsert: bool

    /**
     Insertions minus kills, as a caller who keeps the rules counts them. Off
     disk the memory layer has exactly this count; on disk it does not matter.
     */
    ghost var refs: multiset<bytes>

    function Count(h: bytes): nat
      reads this
    {
      if h in main then main[h].count else 0
    }

    ghost predicate Valid()
      reads this
    {
      && CollisionFree(hash)
      && (forall h :: h in main ==> hash(main[h].value) == h)
      && (forall h :: h in disk ==> hash(disk[h]) == h)
      && (!hasDisk ==> disk == map[])
      && (forall h :: h !in disk ==> Count(h) == refs[h])
    }

    /** A node with this hash can be read. */
    ghost predicate Available(h: bytes)
      reads this
    {
      refs[h] > 0 || h in disk
    }

    constructor (hash: Hasher, disk: map<bytes, Item>, hasDisk: bool)
      requires CollisionFree(hash) && (forall h :: h in disk ==> hash(disk[h]) == h) && (!hasDisk ==> disk == map[])
      ensures Valid() && refs == multiset{} && this.hash == hash && this.disk == disk && this.hasDisk == hasDisk
      ensures main == map[]
    {
      this.hash, this.disk, this.hasDisk := hash, disk, hasDisk;
      main, enforceRefs, commitOnEveryInsert, refs := map[], false, false, multiset{};
    }

    /** Memory first, then disk. */
    method Lookup(h: bytes) returns (r: Option<Item>)
      requires Valid()
      ensures Available(h) ==> r.Some?
      ensures r.Some? <==> h in disk || (h in main && (enforceRefs ==> Count(h) > 0))
      ensures r.Some? ==> hash(r.value) == h
    {
      if h in main && (!enforceRefs || main[h].count > 0) {
        return Some(main[h].value);
      }
      if h in disk {
        return Some(disk[h]);
      }
      return None;
    }

    method Insert(h: bytes, v: Item)
      requires Valid() && h == hash(v)
      modifies this
      ensures Valid() && refs == old(refs) + multiset{h}
      ensures DiskGrew(old(disk)) && (!commitOnEveryInsert ==> disk == old(disk))
      ensures !(commitOnEveryInsert && hasDisk) ==> main == old(main)[h := Entry(v, old(Count(h)) + 1)]
      ensures commitOnEveryInsert && hasDisk ==>
        main == map[] && forall x :: x in disk <==> x == h || x in old(disk) || old(Count(x)) > 0
      ensures enforceRefs == old(enforceRefs) && commitOnEveryInsert == old(commitOnEveryInsert)
    {
      Reference(h, v);
      if commitOnEveryInsert {
        Commit();
      }
    }

    /** One reference more in the memory layer. */
    method Reference(h: bytes, v: Item)
      requires Valid() && h == hash(v)
      modifies this`main, this`refs
      ensures Valid() && refs == old(refs) + multiset{h} && main == old(main)[h := Entry(v, old(Count(h)) + 1)]
    {
      main := main[h := Entry(v, Count(h) + 1)];
      refs := refs + multiset{h};
    }

    /** One reference fewer; nothing happens where memory counts none. */
    method Kill(h: bytes) returns (killed: bool)
      requires Valid()
      modifies this`main, this`refs
      ensures Valid() && refs == old(refs) - multiset{h}
      ensures killed <==> old(Count(h)) > 0
      ensures main == if killed then old(main)[h := Entry(old(main)[h].value, old(Count(h)) - 1)] else old(main)
    {
      killed := Count(h) > 0;
      if killed {
        main := main[h := main[h].(count := main[h].count - 1)];
      }
      assert forall x :: x in main ==> x in old(main) && main[x].value == old(main)[x].value;
      refs := refs - multiset{h};
      assert forall x :: Count(x) == if x == h && killed then old(Count(x)) - 1 else old(Count(x));
    }

    ghost predicate DiskGrew(before: map<bytes, Item>)
      reads this
    {
      forall h :: h in before ==> h in disk && disk[h] == before[h]
    }

    /** Writes what is still referenced and forgets the memory layer. */
    method Commit()
      requires Valid()
      modifies this`main, this`disk
      ensures Valid() && DiskGrew(old(disk))
      ensures !hasDisk ==> main == old(main) && disk == old(disk)
      ensures hasDisk ==> main == map[] && forall h :: h in disk <==> h in old(disk) || old(Count(h)) > 0
      ensures hasDisk ==> forall h :: old(Available(h)) ==> h in disk
    {
      if hasDisk {
        var batch := Batch(main);
        forall h | h in batch && h in disk ensures batch[h] == disk[h] {
          assert hash(batch[h]) == hash(disk[h]);
        }
        disk := disk + batch;
        main := map[];
      }
    }

    /** Forgets the memory layer without writing it. */
    method Rollback()
      requires Valid()
      modifies this`main, this`refs
      ensures Valid() && main == map[] && refs == multiset{}
    {
      main := map[];
      refs := multiset{};
    }

    /** Drops entries nobody refers to. */
    method Purge()
      requires Valid()
      modifies this`main
      ensures Valid() && main == map h | h in old(main) && old(main)[h].count > 0 :: old(main)[h]
    {
      main := Referenced(main);
    }

    method Keys() returns (ks: set<bytes>)
      requires Valid()
      ensures forall h :: h in ks <==> Count(h) > 0
      ensures disk == map[] ==> forall h :: h in ks <==> h in refs
    {
      ks := set h | h in main && main[h].count > 0;
    }

    /** A trie whose nodes are all on disk may be counted as referenced: memory never kills it. */
    ghost method Adopt(more: multiset<bytes>)
      requires Valid() && forall h :: h in more ==> h in disk
      modifies this`refs
      ensures Valid() && refs == old(refs) + more
    {
      refs := refs + more;
    }
  }
}
