/**
 The cache that drops what was used least recently. Its list is what a scan of
 the calls so far, from the latest one back, finds first.
 */
module LruCache {
  import opened Bytes

  datatype Pair<K, V> = Pair(key: K, value: V)

  function Keys<K, V>(data: seq<Pair<K, V>>): (ks: seq<K>)
    ensures |ks| == |data| && forall i :: 0 <= i < |data| ==> ks[i] == data[i].key
  {
    if data == [] then [] else [data[0].key] + Keys(data[1..])
  }

  predicate Distinct<K(==)>(ks: seq<K>) {
    ks == [] || (ks[0] !in ks[1..] && Distinct(ks[1..]))
  }

  // ------------------------------------------------------------ what calls do

  function Find<K(==), V>(data: seq<Pair<K, V>>, k: K): (p: Pair<K, V>)
    requires k in Keys(data)
    ensures p.key == k && p in data
  {
    if data[0].key == k then data[0] else Find(data[1..], k)
  }

  function Without<K(==), V>(data: seq<Pair<K, V>>, k: K): seq<Pair<K, V>> {
    if data == [] then [] else if data[0].key == k then data[1..] else [data[0]] + Without(data[1..], k)
  }

  function Moved<K(==), V>(data: seq<Pair<K, V>>, k: K): seq<Pair<K, V>>
    requires k in Keys(data)
  {
    [Find(data, k)] + Without(data, k)
  }

  /** A present key only moves; a new one goes to the front, at the cost of the last one when the cache is full. */
  function Inserted<K(==), V>(data: seq<Pair<K, V>>, k: K, v: V, capacity: nat): seq<Pair<K, V>>
    requires 0 < capacity
  {
    if k in Keys(data) then Moved(data, k)
    else [Pair(k, v)] + if |data| == capacity then data[..capacity - 1] else data
  }

  function Touched<K(==), V>(data: seq<Pair<K, V>>, k: K): seq<Pair<K, V>> {
    if k in Keys(data) then Moved(data, k) else data
  }

  // --------------------------------------------------------------- reference

  datatype Call<K, V> = Insert(key: K, value: V) | Touch(key: K)

  /** Calls, the latest one outermost. */
  datatype Trace<K, V> = Start | After(call: Call<K, V>, before: Trace<K, V>)

  /** The sequence without `k`. */
  function Dropped<K(==)>(ks: seq<K>, k: K): (r: seq<K>)
  {
    if ks == [] then [] else if ks[0] == k then Dropped(ks[1..], k) else [ks[0]] + Dropped(ks[1..], k)
  }

  /** The distinct keys of a sequence, in the order of their first occurrence. */
  function Firsts<K(==)>(ks: seq<K>): seq<K> {
    if ks == [] then [] else [ks[0]] + Dropped(Firsts(ks[1..]), ks[0])
  }

  /** The first `n` of a sequence, or all of it. */
  function Take<K>(ks: seq<K>, n: nat): seq<K> {
    if ks == [] || n == 0 then [] else [ks[0]] + Take(ks[1..], n - 1)
  }

  /** The keys used so far, the latest first: every insertion counts, a touch only if the key is in the cache. */
  function Uses<K(==), V>(trace: Trace<K, V>, capacity: nat): seq<K>
    decreases trace, 0
  {
    match trace
    case Start => []
    case After(Insert(k, _), before) => [k] + Uses(before, capacity)
    case After(Touch(k), before) => (if k in Cached(before, capacity) then [k] else []) + Uses(before, capacity)
  }

  /** The keys in the cache: the first distinct ones of those used. */
  function Cached<K(==), V>(trace: Trace<K, V>, capacity: nat): seq<K>
    decreases trace, 1
  {
    Take(Firsts(Uses(trace, capacity)), capacity)
  }

  /** The value of the insertion of `k` that last found it missing. */
  function Created<K(==), V>(trace: Trace<K, V>, k: K, capacity: nat): (r: seq<V>)
    ensures |r| <= 1
  {
    match trace
    case Start => []
    case After(Insert(k', v), before) =>
      if k' == k && k !in Cached(before, capacity) then [v] else Created(before, k, capacity)
    case After(Touch(_), before) => Created(before, k, capacity)
  }

  /** The list after the calls of a trace. */
  function DataOf<K(==), V>(trace: Trace<K, V>, capacity: nat): seq<Pair<K, V>>
    requires capacity > 0
  {
    match trace
    case Start => []
    case After(Insert(k, v), before) => Inserted(DataOf(before, capacity), k, v, capacity)
    case After(Touch(k), before) => Touched(DataOf(before, capacity), k)
  }

  // ------------------------------------------------------------------ lemmas

  /** A key that is not there is dropped without effect. */
  lemma {:induction false} DroppedAbsent<K>(ks: seq<K>, k: K)
    requires k !in ks
    ensures Dropped(ks, k) == ks
  {
    if ks != [] { DroppedAbsent(ks[1..], k); }
  }

  lemma {:induction false} DroppedIn<K>(ks: seq<K>, k: K, x: K)
    ensures x in Dropped(ks, k) <==> x in ks && x != k
  {
    if ks != [] {
      HeadTail(ks);
      DroppedIn(ks[1..], k, x);
    }
  }

  lemma {:induction false} DroppedDistinct<K>(ks: seq<K>, k: K)
    requires Distinct(ks)
    ensures Distinct(Dropped(ks, k)) && (k in ks ==> |Dropped(ks, k)| == |ks| - 1)
  {
    if ks != [] {
      HeadTail(ks);
      DroppedDistinct(ks[1..], k);
      DroppedIn(ks[1..], k, ks[0]);
      if ks[0] == k { DroppedAbsent(ks[1..], k); } else { FrontDistinct(ks[0], Dropped(ks[1..], k)); }
    }
  }

  lemma {:induction false} FrontDistinct<K>(k: K, ks: seq<K>)
    requires Distinct(ks) && k !in ks
    ensures Distinct([k] + ks)
  {
    assert ([k] + ks)[1..] == ks;
  }

  lemma {:induction false} FirstsDistinct<K>(ks: seq<K>)
    ensures Distinct(Firsts(ks))
  {
    if ks != [] {
      FirstsDistinct(ks[1..]);
      DroppedDistinct(Firsts(ks[1..]), ks[0]);
      DroppedIn(Firsts(ks[1..]), ks[0], ks[0]);
      FrontDistinct(ks[0], Dropped(Firsts(ks[1..]), ks[0]));
    }
  }

  lemma {:induction false} TakeIs<K>(ks: seq<K>, n: nat)
    ensures |ks| <= n ==> Take(ks, n) == ks
    ensures n <= |ks| ==> Take(ks, n) == ks[..n]
  {
    if ks != [] && n > 0 {
      TakeIs(ks[1..], n - 1);
      assert n <= |ks| ==> ks[..n] == [ks[0]] + ks[1..][..n - 1];
    }
  }

  lemma {:induction false} TakeIn<K>(ks: seq<K>, n: nat, k: K)
    requires k in Take(ks, n)
    ensures k in ks
  {
    if k != ks[0] { TakeIn(ks[1..], n - 1, k); }
  }

  /** Dropping a key from the first `n`, where it is one of them, lets none of the others in. */
  lemma {:induction false} TakeDroppedPresent<K>(ks: seq<K>, k: K, n: nat)
    requires Distinct(ks) && k in Take(ks, n)
    ensures Take(Dropped(ks, k), n - 1) == Dropped(Take(ks, n), k)
    decreases |ks|
  {
    var x, rest := ks[0], ks[1..];
    assert ks == [x] + rest;
    if x == k {
      TakeDroppedHead(rest, k, n - 1);
    } else {
      TakeDroppedPresent(rest, k, n - 1);
      TakeDroppedLater(x, rest, k, n - 1);
    }
  }

  lemma {:induction false} TakeDroppedHead<K>(rest: seq<K>, k: K, m: nat)
    requires k !in rest
    ensures Take(Dropped([k] + rest, k), m) == Dropped(Take([k] + rest, m + 1), k)
  {
    TakeFront(k, rest, m + 1);
    DroppedFront(k, rest, k);
    DroppedAbsent(rest, k);
    if k in Take(rest, m) { TakeIn(rest, m, k); }
    DroppedFront(k, Take(rest, m), k);
    DroppedAbsent(Take(rest, m), k);
  }

  lemma {:induction false} TakeDroppedLater<K>(x: K, rest: seq<K>, k: K, m: nat)
    requires x != k && m > 0 && Take(Dropped(rest, k), m - 1) == Dropped(Take(rest, m), k)
    ensures Take(Dropped([x] + rest, k), m) == Dropped(Take([x] + rest, m + 1), k)
  {
    TakeFront(x, rest, m + 1);
    DroppedFront(x, rest, k);
    DroppedFront(x, Take(rest, m), k);
    TakeFront(x, Dropped(rest, k), m);
  }

  lemma {:induction false} DroppedFront<K>(x: K, ks: seq<K>, k: K)
    ensures Dropped([x] + ks, k) == if x == k then Dropped(ks, k) else [x] + Dropped(ks, k)
  {
    assert ([x] + ks)[1..] == ks;
  }

  lemma {:induction false} TakeFront<K>(x: K, ks: seq<K>, n: nat)
    requires n > 0
    ensures Take([x] + ks, n) == [x] + Take(ks, n - 1)
  {
    assert ([x] + ks)[1..] == ks;
  }

  /** Where it is none of them, they all stay but for the last. */
  lemma {:induction false} TakeDroppedAbsent<K>(ks: seq<K>, k: K, n: nat)
    requires k !in Take(ks, n) && n > 0
    ensures Take(Dropped(ks, k), n - 1) == Take(ks, n - 1)
  {
    if ks != [] && n > 1 { TakeDroppedAbsent(ks[1..], k, n - 1); }
  }

  lemma {:induction false} KeysIn<K, V>(data: seq<Pair<K, V>>, p: Pair<K, V>)
    requires p in data
    ensures p.key in Keys(data)
  {
    var i :| 0 <= i < |data| && data[i] == p;
    assert Keys(data)[i] == p.key;
  }

  lemma {:induction false} KeysWithout<K, V>(data: seq<Pair<K, V>>, k: K)
    requires Distinct(Keys(data))
    ensures Keys(Without(data, k)) == Dropped(Keys(data), k)
  {
    if data != [] {
      assert Keys(data)[1..] == Keys(data[1..]);
      if data[0].key == k {
        DroppedAbsent(Keys(data[1..]), k);
      } else {
        KeysWithout(data[1..], k);
        assert ([data[0]] + Without(data[1..], k))[1..] == Without(data[1..], k);
      }
    }
  }

  lemma {:induction false} KeysFront<K, V>(p: Pair<K, V>, data: seq<Pair<K, V>>)
    ensures Keys([p] + data) == [p.key] + Keys(data)
  {
    assert ([p] + data)[1..] == data;
  }

  lemma {:induction false} WithoutIn<K, V>(data: seq<Pair<K, V>>, k: K, p: Pair<K, V>)
    requires p in Without(data, k)
    ensures p in data
  {
    if data[0].key != k && p != data[0] { WithoutIn(data[1..], k, p); }
  }

  /** A key that is used moves to the front of the distinct keys. */
  lemma {:induction false} UsePresent<K>(uses: seq<K>, k: K, n: nat)
    requires k in Take(Firsts(uses), n)
    ensures Take(Firsts([k] + uses), n) == [k] + Dropped(Take(Firsts(uses), n), k)
  {
    assert ([k] + uses)[1..] == uses;
    FirstsDistinct(uses);
    TakeDroppedPresent(Firsts(uses), k, n);
    assert ([k] + Dropped(Firsts(uses), k))[1..] == Dropped(Firsts(uses), k);
  }

  /** A new key comes in front of the others, of which the last gives way when there are enough. */
  lemma {:induction false} UseAbsent<K>(uses: seq<K>, k: K, n: nat)
    requires k !in Take(Firsts(uses), n) && n > 0
    ensures
      var t := Take(Firsts(uses), n);
      Take(Firsts([k] + uses), n) == [k] + if |t| == n then t[..n - 1] else t
  {
    var fs := Firsts(uses);
    assert ([k] + uses)[1..] == uses;
    TakeDroppedAbsent(fs, k, n);
    assert ([k] + Dropped(fs, k))[1..] == Dropped(fs, k);
    TakeIs(fs, n);
    TakeIs(fs, n - 1);
    if n <= |fs| { assert fs[..n][..n - 1] == fs[..n - 1]; }
  }

  lemma {:induction false} TakeDistinct<K>(ks: seq<K>, n: nat)
    requires Distinct(ks)
    ensures Distinct(Take(ks, n))
  {
    if ks != [] && n > 0 {
      TakeDistinct(ks[1..], n - 1);
      if ks[0] in Take(ks[1..], n - 1) { TakeIn(ks[1..], n - 1, ks[0]); }
      FrontDistinct(ks[0], Take(ks[1..], n - 1));
    }
  }

  lemma {:induction false} CachedDistinct<K, V>(trace: Trace<K, V>, capacity: nat)
    ensures Distinct(Cached(trace, capacity))
  {
    FirstsDistinct(Uses(trace, capacity));
    TakeDistinct(Firsts(Uses(trace, capacity)), capacity);
  }

  /** The list holds the keys that were used last, in the order of their last use. */
  lemma {:induction false} CacheIsRecent<K, V>(trace: Trace<K, V>, capacity: nat)
    requires capacity > 0
    ensures Keys(DataOf(trace, capacity)) == Cached(trace, capacity)
  {
    if trace.After? {
      var data, uses, k := DataOf(trace.before, capacity), Uses(trace.before, capacity), trace.call.key;
      CacheIsRecent(trace.before, capacity);
      CachedDistinct(trace.before, capacity);
      if k in Keys(data) {
        UsePresent(uses, k, capacity);
        KeysWithout(data, k);
        KeysFront(Find(data, k), Without(data, k));
      } else if trace.call.Insert? {
        UseAbsent(uses, k, capacity);
        var kept := if |data| == capacity then data[..capacity - 1] else data;
        KeysFront(Pair(k, trace.call.value), kept);
        assert |data| == capacity ==> Keys(kept) == Keys(data)[..capacity - 1];
      } else {
        assert Uses(trace, capacity) == [] + uses == uses;
      }
    }
  }

  /** Each value is the one of the insertion that made its entry. */
  lemma {:induction false} ValuesAreCreated<K, V>(trace: Trace<K, V>, capacity: nat, p: Pair<K, V>)
    requires capacity > 0 && p in DataOf(trace, capacity)
    ensures Created(trace, p.key, capacity) == [p.value]
  {
    var data, k := DataOf(trace.before, capacity), trace.call.key;
    CacheIsRecent(trace.before, capacity);
    if k in Keys(data) {
      if p != Find(data, k) { WithoutIn(data, k, p); }
      ValuesAreCreated(trace.before, capacity, p);
    } else if trace.call.Touch? || p != Pair(k, trace.call.value) {
      assert p in data;
      KeysIn(data, p);
      ValuesAreCreated(trace.before, capacity, p);
    }
  }

  // ---------------------------------------------------------------- the cache

  /** The index that goes with a list: the element of each key. */
  function IndexOf<K(==), V>(data: seq<Pair<K, V>>): map<K, Pair<K, V>> {
    if data == [] then map[] else IndexOf(data[1..])[data[0].key := data[0]]
  }

  lemma {:induction false} IndexFinds<K, V>(data: seq<Pair<K, V>>, k: K)
    ensures k in IndexOf(data) <==> k in Keys(data)
    ensures k in Keys(data) ==> IndexOf(data)[k] == Find(data, k)
  {
    if data != [] {
      HeadTail(Keys(data));
      assert Keys(data)[1..] == Keys(data[1..]);
      IndexFinds(data[1..], k);
    }
  }

  lemma {:induction false} IndexSize<K, V>(data: seq<Pair<K, V>>)
    requires Distinct(Keys(data))
    ensures |IndexOf(data)| == |data|
  {
    if data != [] {
      assert Keys(data)[1..] == Keys(data[1..]);
      IndexSize(data[1..]);
      IndexFinds(data[1..], data[0].key);
    }
  }

  lemma {:induction false} IndexFront<K, V>(p: Pair<K, V>, data: seq<Pair<K, V>>)
    ensures IndexOf([p] + data) == IndexOf(data)[p.key := p]
  {
    assert ([p] + data)[1..] == data;
  }

  /** Taking an element from the list and its key from the index keeps the two in step. */
  lemma {:induction false} IndexWithout<K, V>(data: seq<Pair<K, V>>, k: K)
    requires Distinct(Keys(data))
    ensures IndexOf(Without(data, k)) == IndexOf(data) - {k}
  {
    if data != [] {
      var p, rest := data[0], data[1..];
      assert Keys(data)[1..] == Keys(rest);
      IndexFinds(rest, p.key);
      if p.key != k {
        IndexWithout(rest, k);
        IndexFront(p, Without(rest, k));
      }
    }
  }

  /** The last element goes like any other. */
  lemma {:induction false} LastIsWithout<K, V>(front: seq<Pair<K, V>>, last: Pair<K, V>)
    requires Distinct(Keys(front + [last]))
    ensures Without(front + [last], last.key) == front
  {
    if front != [] {
      var rest := front[1..] + [last];
      assert (front + [last])[1..] == rest;
      assert Keys(front + [last])[1..] == Keys(rest);
      assert last in rest;
      KeysIn(rest, last);
      LastIsWithout(front[1..], last);
    }
  }

  lemma {:induction false} WithoutDistinct<K, V>(data: seq<Pair<K, V>>, k: K)
    requires Distinct(Keys(data))
    ensures Distinct(Keys(Without(data, k))) && k !in Keys(Without(data, k))
    ensures |Without(data, k)| == if k in Keys(data) then |data| - 1 else |data|
  {
    KeysWithout(data, k);
    DroppedDistinct(Keys(data), k);
    DroppedIn(Keys(data), k, k);
    if k !in Keys(data) { DroppedAbsent(Keys(data), k); }
  }

  class LruCache<K(==), V(==)> {
    const capacity: nat
    var data: seq<Pair<K, V>>

    /** The element of each key; an element does not change while it is in the list. */
    var index: map<K, Pair<K, V>>

    ghost predicate Valid()
      reads this
    {
      capacity > 0 && Distinct(Keys(data)) && |data| <= capacity && index == IndexOf(data)
    }

    constructor (capacity: nat)
      ensures (Valid() <==> capacity > 0) && this.capacity == capacity && data == []
    {
      this.capacity, data, index := capacity, [], map[];
    }

    method Evict()
      requires Valid() && data != []
      modifies this
      ensures Valid() && data == old(data)[..|old(data)| - 1]
    {
      var k := data[|data| - 1].key;
      assert data == data[..|data| - 1] + [data[|data| - 1]];
      LastIsWithout(data[..|data| - 1], data[|data| - 1]);
      WithoutDistinct(data, k);
      IndexWithout(data, k);
      index := index - {k};
      data := data[..|data| - 1];
    }

    method MoveToFront(key: K)
      requires Valid() && key in index
      modifies this`data
      ensures Valid() && key in Keys(old(data)) && data == Moved(old(data), key)
    {
      IndexFinds(data, key);
      WithoutDistinct(data, key);
      IndexWithout(data, key);
      var p := index[key];
      KeysFront(p, Without(data, key));
      FrontDistinct(key, Keys(Without(data, key)));
      IndexFront(p, Without(data, key));
      data := [p] + Without(data, key);
    }

    method Insert(key: K, value: V) returns (size: nat)
      requires Valid()
      modifies this
      ensures Valid() && data == Inserted(old(data), key, value, capacity) && size == |data|
    {
      IndexFinds(data, key);
      IndexSize(data);
      if key !in index {
        if |index| == capacity {
          Evict();
          if key in Keys(data) { KeysOfPart(old(data), |data|, key); }
        }
        var p := Pair(key, value);
        KeysFront(p, data);
        FrontDistinct(key, Keys(data));
        IndexFront(p, data);
        data := [p] + data;
        index := index[key := p];
      } else {
        MoveToFront(key);
      }
      IndexSize(data);
      size := |index|;
    }

    method Touch(key: K) returns (present: bool)
      requires Valid()
      modifies this
      ensures Valid() && data == Touched(old(data), key) && (present <==> key in Keys(old(data)))
    {
      IndexFinds(data, key);
      present := key in index;
      if present {
        MoveToFront(key);
      }
    }

    method Remove(key: K) returns (size: nat)
      requires Valid()
      modifies this
      ensures Valid() && data == Without(old(data), key) && size == |data|
    {
      IndexFinds(data, key);
      WithoutDistinct(data, key);
      IndexWithout(data, key);
      if key in index {
        data := Without(data, key);
        index := index - {key};
      } else {
        NothingWithout(data, key);
      }
      IndexSize(data);
      size := |index|;
    }

    method Contains(key: K) returns (b: bool)
      requires Valid()
      ensures b <==> key in Keys(data)
    {
      IndexFinds(data, key);
      b := key in index;
    }
  }

  lemma {:induction false} KeysOfPart<K, V>(data: seq<Pair<K, V>>, n: nat, k: K)
    requires n <= |data| && k in Keys(data[..n])
    ensures k in Keys(data)
  {
    var i :| 0 <= i < n && Keys(data[..n])[i] == k;
    assert Keys(data)[i] == k;
  }

  lemma {:induction false} NothingWithout<K, V>(data: seq<Pair<K, V>>, k: K)
    requires k !in Keys(data)
    ensures Without(data, k) == data
  {
    if data != [] {
      HeadTail(Keys(data));
      assert Keys(data)[1..] == Keys(data[1..]);
      NothingWithout(data[1..], k);
    }
  }

  /** The cache after the calls of a trace. */
  method Play<K(==), V(==)>(trace: Trace<K, V>, capacity: nat) returns (cache: LruCache<K, V>)
    requires capacity > 0
    ensures fresh(cache) && cache.Valid() && cache.capacity == capacity && Keys(cache.data) == Cached(trace, capacity)
    ensures cache.data == DataOf(trace, capacity)
  {
    CacheIsRecent(trace, capacity);
    match trace
    case Start => cache := new LruCache(capacity);
    case After(Insert(k, v), before) =>
      cache := Play(before, capacity);
      var _ := cache.Insert(k, v);
    case After(Touch(k), before) =>
      cache := Play(before, capacity);
      var _ := cache.Touch(k);
  }
}
