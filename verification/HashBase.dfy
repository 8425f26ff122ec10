/**
 Hashing a database in one pass and in parts. A hash context is the bytes that
 have been written to it; a database is its pairs in the order of their keys.
 */
module HashBase {
  import opened Bytes

  datatype Pair = Pair(key: bytes, value: bytes)

  /** "start" and "pieceUsageBytes". */
  const START: bytes := [115, 116, 97, 114, 116]
  const SKIPPED: bytes := [112, 105, 101, 99, 101, 85, 115, 97, 103, 101, 66, 121, 116, 101, 115]

  ghost predicate Ascending(db: seq<Pair>) {
    forall i, j :: 0 <= i < j < |db| ==> Precedes(db[i].key, db[j].key)
  }

  /** What hashing writes for the pairs from index `i` on. */
  function Stream(db: seq<Pair>, i: nat): bytes
    requires i <= |db|
    decreases |db| - i
  {
    if i == |db| then []
    else if db[i].key == SKIPPED then Stream(db, i + 1)
    else db[i].key + db[i].value + Stream(db, i + 1)
  }

  /** What hashing writes for one pair: its key and then its value, and nothing for the key "pieceUsageBytes". */
  function WrittenFor(p: Pair): bytes {
    if p.key == [112, 105, 101, 99, 101, 85, 115, 97, 103, 101, 66, 121, 116, 101, 115] then [] else p.key + p.value
  }

  /** One pair more at the end is written behind all others. */
  lemma {:induction false} StreamOneMore(db: seq<Pair>, p: Pair, i: nat)
    requires i <= |db|
    ensures Stream(db + [p], i) == Stream(db, i) +
      if p.key == [112, 105, 101, 99, 101, 85, 115, 97, 103, 101, 66, 121, 116, 101, 115] then [] else p.key + p.value
    decreases |db| - i
  {
    if i < |db| {
      StreamOneMore(db, p, i + 1);
      Assoc(db[i].key + db[i].value, Stream(db, i + 1), WrittenFor(p));
    } else {
      assert Stream(db + [p], i + 1) == [];
    }
  }

  /** The written bytes from the last pair on. */
  lemma {:induction false} StreamFromEnd(db: seq<Pair>)
    ensures db == [] ==> Stream(db, 0) == []
    ensures db != [] ==> Stream(db, 0) == Stream(db[..|db| - 1], 0) + WrittenFor(db[|db| - 1])
  {
    if db != [] {
      assert db == db[..|db| - 1] + [db[|db| - 1]];
      StreamOneMore(db[..|db| - 1], db[|db| - 1], 0);
    }
  }

  /** The two special keys, in letters. */
  lemma {:induction false} KeysInLetters()
    ensures START == Ascii("start") && SKIPPED == Ascii("pieceUsageBytes")
  {
    assert |Ascii("start")| == 5 && |Ascii("pieceUsageBytes")| == 15;
  }

  function Ascii(s: string): (b: bytes)
    requires forall i :: 0 <= i < |s| ==> s[i] < '\U{80}'
  {
    seq(|s|, i requires 0 <= i < |s| => s[i] as int)
  }

  /** The whole database in one pass. */
  method Whole(db: seq<Pair>) returns (ctx: bytes)
    ensures ctx == Stream(db, 0)
    ensures db == [] ==> ctx == []
    ensures db != [] ==> ctx == Stream(db[..|db| - 1], 0) + WrittenFor(db[|db| - 1])
  {
    StreamFromEnd(db);
    ctx := [];
    var i := 0;
    while i < |db|
      invariant i <= |db| && ctx + Stream(db, i) == Stream(db, 0)
    {
      if db[i].key != SKIPPED {
        Assoc(ctx, db[i].key + db[i].value, Stream(db, i + 1));
        ctx := ctx + (db[i].key + db[i].value);
      }
      i := i + 1;
    }
    assert ctx + [] == ctx;
  }

  // ------------------------------------------------------------------ in parts

  /** Where a part ends that begins at index `i` and may take `left` more pairs. */
  function PartEnd(db: seq<Pair>, i: nat, left: nat): (j: nat)
    requires i <= |db|
    ensures i <= j <= |db| && (i < |db| && left > 0 ==> i < j)
    decreases |db| - i
  {
    if i == |db| || left == 0 then i
    else PartEnd(db, i + 1, if db[i].key == SKIPPED then left else left - 1)
  }

  /** How many of the pairs from `i` up to `j` are written. */
  function Written(db: seq<Pair>, i: nat, j: nat): nat
    requires i <= j <= |db|
    decreases j
  {
    if i == j then 0
    else
      Written(db, i, j - 1) +
      if db[j - 1].key == [112, 105, 101, 99, 101, 85, 115, 97, 103, 101, 66, 121, 116, 101, 115] then 0 else 1
  }

  lemma {:induction false} WrittenFirst(db: seq<Pair>, i: nat, j: nat)
    requires i < j <= |db|
    ensures Written(db, i, j) == Written(db, i + 1, j) + if db[i].key == SKIPPED then 0 else 1
    decreases j
  {
    if i + 1 < j { WrittenFirst(db, i, j - 1); }
  }

  /** A part ends right behind the last pair it may write, or at the end of the database with room for more. */
  lemma {:induction false} PartIsFull(db: seq<Pair>, i: nat, left: nat)
    requires i <= |db|
    ensures
      var j := PartEnd(db, i, left);
      && Written(db, i, j) <= left && (Written(db, i, j) < left ==> j == |db|)
      && (Written(db, i, j) == left > 0 ==> Written(db, i, j - 1) < left)
    decreases |db| - i
  {
    var j := PartEnd(db, i, left);
    if i < |db| && left > 0 {
      var left' := if db[i].key == SKIPPED then left else left - 1;
      PartIsFull(db, i + 1, left');
      WrittenFirst(db, i, j);
      if i + 1 < j { WrittenFirst(db, i, j - 1); }
    }
  }

  /** The first pair, from index `i` on, whose key is not before `key`. */
  function Seek(db: seq<Pair>, key: bytes, i: nat): (j: nat)
    requires i <= |db|
    ensures i <= j <= |db| && (j < |db| ==> !Precedes(db[j].key, key))
    ensures forall k :: i <= k < j ==> Precedes(db[k].key, key)
    decreases |db| - i
  {
    if i == |db| || !Precedes(db[i].key, key) then i else Seek(db, key, i + 1)
  }

  lemma {:induction false} NotBeforeItself(k: bytes)
    ensures !Precedes(k, k)
  {
    var n := Shared(k, k);
  }

  lemma {:induction false} SeekFinds(db: seq<Pair>, i: nat, j: nat)
    requires Ascending(db) && i <= j < |db|
    ensures Seek(db, db[j].key, i) == j
    decreases j - i
  {
    if i < j { SeekFinds(db, i + 1, j); } else { NotBeforeItself(db[j].key); }
  }

  /** Where a call begins that was given `last`. */
  function Begin(db: seq<Pair>, last: bytes): nat {
    if last == START then 0 else Seek(db, last, 0)
  }

  /** One call: it goes on at `last` and takes at most `chunk` pairs, not counting a skipped one. */
  method Part(db: seq<Pair>, chunk: nat, ctx: bytes, last: bytes) returns (ctx': bytes, last': bytes, more: bool)
    ensures
      var i := Begin(db, last);
      var j := PartEnd(db, i, chunk);
      && ctx' + Stream(db, j) == ctx + Stream(db, i)
      && more == (j < |db|) && last' == if more then db[j].key else last
  {
    var i := Begin(db, last);
    ghost var i0 := i;
    ctx', last' := ctx, last;
    var counter := 0;
    while i < |db| && counter < chunk
      invariant i0 <= i <= |db| && counter <= chunk
      invariant ctx' + Stream(db, i) == ctx + Stream(db, i0)
      invariant PartEnd(db, i, chunk - counter) == PartEnd(db, i0, chunk)
      decreases |db| - i
    {
      if db[i].key != SKIPPED {
        Assoc(ctx', db[i].key + db[i].value, Stream(db, i + 1));
        ctx' := ctx' + (db[i].key + db[i].value);
        counter := counter + 1;
      }
      i := i + 1;
    }
    more := i < |db|;
    if more {
      last' := db[i].key;
    }
  }

  /** No part that begins behind index `i` begins at the key "start". */
  predicate NoStart(db: seq<Pair>, chunk: nat, i: nat)
    requires i <= |db| && chunk > 0
    decreases |db| - i
  {
    i == |db| ||
    var j := PartEnd(db, i, chunk);
    j == |db| || (db[j].key != START && NoStart(db, chunk, j))
  }

  /** It is enough that the database has no such key. */
  lemma {:induction false} AbsentKeyIsEnough(db: seq<Pair>, chunk: nat, i: nat)
    requires i <= |db| && chunk > 0 && forall k :: 0 <= k < |db| ==> db[k].key != START
    ensures NoStart(db, chunk, i)
    decreases |db| - i
  {
    if i < |db| { AbsentKeyIsEnough(db, chunk, PartEnd(db, i, chunk)); }
  }

  /** All parts together write what one pass writes, and there is an end to them. */
  method InParts(db: seq<Pair>, chunk: nat) returns (ctx: bytes)
    requires Ascending(db) && chunk > 0 && NoStart(db, chunk, 0)
    ensures ctx == Stream(db, 0)
    ensures db == [] ==> ctx == []
    ensures db != [] ==> ctx == Stream(db[..|db| - 1], 0) + WrittenFor(db[|db| - 1])
  {
    StreamFromEnd(db);
    var last, more;
    ctx, last, more := Part(db, chunk, [], START);
    ghost var i := PartEnd(db, 0, chunk);
    while more
      invariant i <= |db| && ctx + Stream(db, i) == Stream(db, 0)
      invariant more == (i < |db|) && (more ==> last == db[i].key && last != START) && NoStart(db, chunk, i)
      decreases |db| - i
    {
      SeekFinds(db, 0, i);
      ctx, last, more := Part(db, chunk, ctx, last);
      i := PartEnd(db, i, chunk);
    }
    assert ctx + [] == ctx;
  }

  // ----------------------------------------------------- exactly when it ends

  /** Whether the calls, of which the next is given `last`, end within `calls` calls. */
  predicate Ends(db: seq<Pair>, chunk: nat, last: bytes, calls: nat)
    decreases calls
  {
    calls > 0 &&
    var j := PartEnd(db, Begin(db, last), chunk);
    j == |db| || Ends(db, chunk, db[j].key, calls - 1)
  }

  ghost predicate EverEnds(db: seq<Pair>, chunk: nat, last: bytes) {
    exists calls: nat :: Ends(db, chunk, last, calls)
  }

  lemma {:induction false} EndsFrom(db: seq<Pair>, chunk: nat, i: nat, last: bytes)
    requires Ascending(db) && chunk > 0 && i <= |db| && Begin(db, last) == i && NoStart(db, chunk, i)
    ensures Ends(db, chunk, last, |db| - i + 1)
    decreases |db| - i
  {
    var j := PartEnd(db, i, chunk);
    if j < |db| {
      SeekFinds(db, 0, j);
      EndsFrom(db, chunk, j, db[j].key);
      EndsLater(db, chunk, db[j].key, |db| - j + 1, |db| - i);
    }
  }

  lemma {:induction false} EndsLater(db: seq<Pair>, chunk: nat, last: bytes, calls: nat, more: nat)
    requires Ends(db, chunk, last, calls) && calls <= more
    ensures Ends(db, chunk, last, more)
    decreases calls
  {
    var j := PartEnd(db, Begin(db, last), chunk);
    if j < |db| { EndsLater(db, chunk, db[j].key, calls - 1, more - 1); }
  }

  /** A part that begins at the key "start" sends the calls back to the beginning, for ever. */
  lemma {:induction false} NeverEnds(db: seq<Pair>, chunk: nat, i: nat, last: bytes, calls: nat)
    requires Ascending(db) && chunk > 0 && i <= |db| && Begin(db, last) == i
    requires !NoStart(db, chunk, i) && !NoStart(db, chunk, 0)
    ensures !Ends(db, chunk, last, calls)
    decreases calls
  {
    if calls > 0 {
      var j := PartEnd(db, i, chunk);
      SeekFinds(db, 0, j);
      if db[j].key == START {
        NeverEnds(db, chunk, 0, START, calls - 1);
      } else {
        NeverEnds(db, chunk, j, db[j].key, calls - 1);
      }
    }
  }

  /** Hashing in parts comes to an end exactly when no part begins at the key "start". */
  lemma {:induction false} EndsExactly(db: seq<Pair>, chunk: nat)
    requires Ascending(db) && chunk > 0
    ensures EverEnds(db, chunk, START) <==> NoStart(db, chunk, 0)
  {
    if NoStart(db, chunk, 0) {
      EndsFrom(db, chunk, 0, START);
    } else {
      forall calls: nat ensures !Ends(db, chunk, START, calls) { NeverEnds(db, chunk, 0, START, calls); }
    }
  }

  /** A database of two pairs on which parts of one pair never end. */
  lemma {:induction false} StartExample(calls: nat)
    ensures !Ends([Pair([97], []), Pair(START, [])], 1, START, calls)
  {
    var db := [Pair([97], []), Pair(START, [])];
    assert Shared([97], START) == 0;
    assert PartEnd(db, 0, 1) == PartEnd(db, 1, 0) == 1;
    NeverEnds(db, 1, 0, START, calls);
  }
}
