/**
 The RLP writer: one growing buffer and a stack of lists that still wait for
 items. A list's header is moved in front of its payload when its last item arrives.
 */
module RlpStream {
  import opened Bytes
  import opened Rlp
  import BigEndian

  /**
   What a stream holds: finished items only, or a list that still waits for
   `pending` items inside whatever was there when it was opened.
   */
  datatype Builder =
    | Closed(done: seq<Item>)
    | Open(outer: Builder, pending: nat, items: seq<Item>)

  /** Every open list still waits for something. */
  predicate Live(b: Builder) {
    b.Open? ==> b.pending > 0 && Live(b.outer)
  }

  // ------------------------------------------------ what the calls mean

  predicate Room(b: Builder, n: nat) {
    b.Open? ==> n <= b.pending
  }

  /** Adds finished items; a list that gets its last item is an item of the list around it. */
  function Add(b: Builder, ys: seq<Item>): (r: Builder)
    requires Live(b) && Room(b, |ys|)
    ensures Live(r)
  {
    match b
    case Closed(done) => Closed(done + ys)
    case Open(outer, pending, items) =>
      if |ys| < pending then Open(outer, pending - |ys|, items + ys)
      else Add(outer, [List(items + ys)])
  }

  /** Opens a list of `n` items; one without items is finished at once. */
  function Begin(b: Builder, n: nat): (r: Builder)
    requires Live(b)
    ensures Live(r)
  {
    if n == 0 then Add(b, [List([])]) else Open(b, n, [])
  }

  datatype Call = AppendData(payload: bytes) | AppendList(n: nat)

  function Step(b: Builder, c: Call): (r: Builder)
    requires Live(b)
    ensures Live(r)
  {
    match c
    case AppendData(p) => Add(b, [Data(p)])
    case AppendList(n) => Begin(b, n)
  }

  function RunCalls(b: Builder, cs: seq<Call>): (r: Builder)
    requires Live(b)
    ensures Live(r)
    decreases |cs|
  {
    if cs == [] then b else RunCalls(Step(b, cs[0]), cs[1..])
  }

  /** The calls that write an item. */
  function Calls(it: Item): seq<Call>
    decreases it, 0
  {
    match it
    case Data(p) => [AppendData(p)]
    case List(xs) => [AppendList(|xs|)] + CallsAll(xs)
  }

  function CallsAll(xs: seq<Item>): seq<Call>
    decreases xs, 0
  {
    if xs == [] then [] else Calls(xs[0]) + CallsAll(xs[1..])
  }

  lemma {:induction false} CallsAllConcat(xs: seq<Item>, ys: seq<Item>)
    ensures CallsAll(xs + ys) == CallsAll(xs) + CallsAll(ys)
  {
    if xs == [] {
      assert xs + ys == ys;
    } else {
      assert (xs + ys)[1..] == xs[1..] + ys;
      CallsAllConcat(xs[1..], ys);
    }
  }

  lemma {:induction false} CallsSingle(it: Item)
    ensures CallsAll([it]) == Calls(it)
  {
    assert [it][1..] == [];
  }

  /** The calls made so far, read off what they left behind. */
  function Replay(b: Builder): seq<Call> {
    match b
    case Closed(done) => CallsAll(done)
    case Open(outer, pending, items) => Replay(outer) + ([AppendList(pending + |items|)] + CallsAll(items))
  }

  lemma {:induction false} ReplayAdd(b: Builder, ys: seq<Item>)
    requires Live(b) && Room(b, |ys|)
    ensures Replay(Add(b, ys)) == Replay(b) + CallsAll(ys)
  {
    match b
    case Closed(done) => CallsAllConcat(done, ys);
    case Open(outer, pending, items) =>
      ReplayOpen(outer, pending + |items|, items, ys);
      if |ys| >= pending {
        ReplayAdd(outer, [List(items + ys)]);
        CallsSingle(List(items + ys));
      } else {
        assert Add(b, ys) == Open(outer, pending - |ys|, items + ys);
      }
  }

  lemma {:induction false} ReplayOpen(outer: Builder, n: nat, items: seq<Item>, ys: seq<Item>)
    ensures Replay(outer) + ([AppendList(n)] + CallsAll(items)) + CallsAll(ys)
      == Replay(outer) + ([AppendList(n)] + CallsAll(items + ys))
  {
    CallsAllConcat(items, ys);
    var head := [AppendList(n)];
    Assoc(head, CallsAll(items), CallsAll(ys));
    Assoc(Replay(outer), head + CallsAll(items), CallsAll(ys));
  }

  lemma {:induction false} ReplayStep(b: Builder, c: Call)
    requires Live(b)
    ensures Replay(Step(b, c)) == Replay(b) + [c]
  {
    if c.AppendData? {
      ReplayAdd(b, [Data(c.payload)]);
      CallsSingle(Data(c.payload));
    } else if c.n == 0 {
      ReplayAdd(b, [List([])]);
      CallsSingle(List([]));
    }
  }

  lemma {:induction false} ReplayRun(b: Builder, cs: seq<Call>)
    requires Live(b)
    ensures Replay(RunCalls(b, cs)) == Replay(b) + cs
    decreases |cs|
  {
    if cs != [] {
      ReplayStep(b, cs[0]);
      ReplayRun(Step(b, cs[0]), cs[1..]);
      HeadTail(cs);
      Assoc(Replay(b), [cs[0]], cs[1..]);
    }
  }

  lemma {:induction false} RunConcat(b: Builder, cs: seq<Call>, ds: seq<Call>)
    requires Live(b)
    ensures RunCalls(b, cs + ds) == RunCalls(RunCalls(b, cs), ds)
    decreases |cs|
  {
    if cs == [] {
      assert cs + ds == ds;
    } else {
      assert (cs + ds)[0] == cs[0] && (cs + ds)[1..] == cs[1..] + ds;
      RunConcat(Step(b, cs[0]), cs[1..], ds);
    }
  }

  /** The calls for a tree add that tree, from any state and at any depth. */
  lemma {:induction false} RunTree(b: Builder, it: Item)
    requires Live(b)
    ensures RunCalls(b, Calls(it)) == Add(b, [it])
    decreases it, 0
  {
    match it
    case Data(p) =>
      assert Calls(it)[1..] == [];
    case List(xs) =>
      assert Calls(it)[1..] == CallsAll(xs);
      if xs != [] {
        RunTrees(Open(b, |xs|, []), xs);
        assert [] + xs == xs;
      }
  }

  lemma {:induction false} RunTrees(b: Builder, xs: seq<Item>)
    requires Live(b) && Room(b, |xs|)
    requires xs != []
    ensures RunCalls(b, CallsAll(xs)) == Add(b, xs)
    decreases xs, 0
  {
    RunTree(b, xs[0]);
    RunConcat(b, Calls(xs[0]), CallsAll(xs[1..]));
    HeadTail(xs);
    if |xs| == 1 {
      assert CallsAll(xs[1..]) == [];
      assert xs == [xs[0]];
    } else {
      RunTrees(Add(b, [xs[0]]), xs[1..]);
      Assoc(if b.Open? then b.items else b.done, [xs[0]], xs[1..]);
    }
  }

  /** The runs of calls that leave no list open are those that write out trees, and hold those trees. */
  lemma {:induction false} BalancedRuns(cs: seq<Call>, xs: seq<Item>)
    ensures RunCalls(Closed([]), cs) == Closed(xs) <==> cs == CallsAll(xs)
  {
    if RunCalls(Closed([]), cs) == Closed(xs) {
      ReplayRun(Closed([]), cs);
    } else if cs == CallsAll(xs) && xs != [] {
      RunTrees(Closed([]), xs);
    }
  }

  // ------------------------------------------------ what the buffer holds

  /** Every finished item has an encoding. */
  predicate AllFit(b: Builder) {
    match b
    case Closed(done) => FitsAll(done)
    case Open(outer, _, items) => AllFit(outer) && FitsAll(items)
  }

  /** The bytes of a stream: payloads of open lists have no header yet. */
  function Buffer(b: Builder): bytes
    requires AllFit(b)
  {
    match b
    case Closed(done) => EncodeAll(done)
    case Open(outer, _, items) => Buffer(outer) + EncodeAll(items)
  }

  /** The stack of a stream: for every open list its pending count and where its payload starts. */
  function Stack(b: Builder): seq<(nat, nat)>
    requires AllFit(b)
  {
    match b
    case Closed(_) => []
    case Open(outer, pending, _) => Stack(outer) + [(pending, |Buffer(outer)|)]
  }

  lemma {:induction false} EncodeAllConcat(xs: seq<Item>, ys: seq<Item>)
    requires FitsAll(xs) && FitsAll(ys)
    ensures FitsAll(xs + ys) && EncodeAll(xs + ys) == EncodeAll(xs) + EncodeAll(ys)
  {
    if xs == [] {
      assert xs + ys == ys;
    } else {
      assert (xs + ys)[0] == xs[0] && (xs + ys)[1..] == xs[1..] + ys;
      EncodeAllConcat(xs[1..], ys);
      Assoc(Encode(xs[0]), EncodeAll(xs[1..]), EncodeAll(ys));
    }
  }

  lemma {:induction false} EncodeSingle(it: Item)
    requires Fits(it)
    ensures FitsAll([it]) && EncodeAll([it]) == Encode(it)
  {
    assert [it][1..] == [];
  }

  /** What the buffer is once `ys` are behind what the innermost list holds. */
  lemma {:induction false} StackTop(b: Builder)
    requires AllFit(b) && b.Open?
    ensures
      var s := Stack(b);
      s != [] && s[|s| - 1] == (b.pending, |Buffer(b.outer)|) && s[..|s| - 1] == Stack(b.outer)
  {
    SplitConcat(Stack(b.outer), [(b.pending, |Buffer(b.outer)|)]);
  }

  /** Items that complete a list add that list to the one around it. */
  lemma {:induction false} AddCloses(b: Builder, ys: seq<Item>)
    requires Live(b) && b.Open? && |ys| == b.pending
    ensures Live(b.outer) && (Room(b, |ys|) <==> Room(b.outer, 1))
    ensures Room(b, |ys|) ==> Add(b, ys) == Add(b.outer, [List(b.items + ys)])
  {
  }

  /** Fewer items stay in the list. */
  lemma {:induction false} AddStays(b: Builder, ys: seq<Item>)
    requires Live(b) && AllFit(b) && FitsAll(ys) && b.Open? && |ys| < b.pending
    ensures Room(b, |ys|) && Live(Add(b, ys)) && AllFit(Add(b, ys))
    ensures Buffer(Add(b, ys)) == Buffer(b) + EncodeAll(ys)
    ensures Stack(Add(b, ys)) == Stack(b.outer) + [(b.pending - |ys|, |Buffer(b.outer)|)]
  {
    BufferGrows(b, ys);
  }

  lemma {:induction false} BufferGrows(b: Builder, ys: seq<Item>)
    requires AllFit(b) && FitsAll(ys)
    ensures b.Open? ==>
      FitsAll(b.items + ys) && Buffer(b) + EncodeAll(ys) == Buffer(b.outer) + EncodeAll(b.items + ys)
    ensures b.Closed? ==>
      FitsAll(b.done + ys) && Buffer(b) + EncodeAll(ys) == EncodeAll(b.done + ys)
  {
    if b.Open? {
      EncodeAllConcat(b.items, ys);
      Assoc(Buffer(b.outer), EncodeAll(b.items), EncodeAll(ys));
    } else {
      EncodeAllConcat(b.done, ys);
    }
  }

  lemma {:induction false} ClosedList(xs: seq<Item>)
    requires FitsAll(xs) && |EncodeAll(xs)| < LENGTH_LIMIT
    ensures FitsAll([List(xs)])
    ensures EncodeAll([List(xs)]) == Header(|EncodeAll(xs)|, LIST_START) + EncodeAll(xs)
    ensures |EncodeAll([List(xs)])| <= |EncodeAll(xs)| + 9
  {
    EncodeSingle(List(xs));
    WidthOfLength(SizeAll(xs));
  }

  // ------------------------------------------------ the stream

  /** One byte written in front of a finished tail. */
  lemma {:induction false} PatchStep(buf: bytes, r: bytes, e: nat, x: byte)
    requires 0 < e <= |buf| && |r| == |buf| && r[..e] == buf[..e]
    ensures r[e - 1 := x][..e - 1] == buf[..e - 1] && r[e - 1 := x][e - 1..] == [x] + r[e..]
  {
  }

  /** Writes `v` big-endian so that its last byte lands on `end`. */
  method PatchInt(buf: bytes, end: nat, v: nat) returns (r: bytes)
    requires BigEndian.Width(v) <= end + 1 <= |buf|
    ensures r == buf[..end + 1 - BigEndian.Width(v)] + (BigEndian.Compact(v) + buf[end + 1..])
  {
    r := buf;
    var i, e := v, end + 1;
    ghost var goal := BigEndian.Compact(v) + buf[end + 1..];
    while i != 0
      invariant |r| == |buf| && BigEndian.Width(i) <= e <= end + 1
      invariant r[..e] == buf[..e]
      invariant goal == BigEndian.Compact(i) + r[e..]
      invariant e - BigEndian.Width(i) == end + 1 - BigEndian.Width(v)
      decreases i
    {
      PatchStep(buf, r, e, i % 256);
      Assoc(BigEndian.Compact(i / 256), [i % 256], r[e..]);
      r := r[e - 1 := i % 256];
      i, e := i / 256, e - 1;
    }
    assert r == r[..e] + r[e..];
  }

  class Stream {
    var out: bytes
    var listStack: seq<(nat, nat)>
    ghost var builder: Builder

    ghost predicate Valid()
      reads this
    {
      Live(builder) && AllFit(builder) && out == Buffer(builder) && listStack == Stack(builder)
    }

    /** The buffer with `extra` more bytes and all headers still fits in memory. */
    ghost predicate Capacity(extra: nat)
      reads this
    {
      |out| + extra + 9 * (|listStack| + 1) < LENGTH_LIMIT
    }

    constructor ()
      ensures Valid() && builder == Closed([])
    {
      out, listStack, builder := [], [], Closed([]);
    }

    /** Room for the headers of the open lists. */
    ghost predicate HeaderRoom()
      reads this
    {
      |out| + 9 * |listStack| < LENGTH_LIMIT
    }

    /** Moves the header of the finished list that starts at `p` in front of its payload. */
    method InsertHeader(p: nat)
      requires p <= |out| < LENGTH_LIMIT
      modifies this`out
      ensures out == old(out)[..p] + (Header(|old(out)| - p, LIST_START) + old(out)[p..])
    {
      var s := |out| - p;
      var brs := BigEndian.BytesRequired(s);
      WidthOfLength(s);
      if s < IMM_COUNT {
        Assoc(out[..p], [LIST_START + s], out[p..]);
        out := out[..p] + [LIST_START + s] + out[p..];
      } else {
        var moved := out[..p] + seq(1 + brs, _ => 0) + out[p..];
        moved := moved[p := LIST_IND_ZERO + brs];
        assert moved[..p + 1] == out[..p] + [LIST_IND_ZERO + brs];
        assert moved[p + brs + 1..] == out[p..];
        out := PatchInt(moved, p + brs, s);
        Assoc(old(out)[..p], [LIST_IND_ZERO + brs], BigEndian.Compact(s) + old(out)[p..]);
        Assoc([LIST_IND_ZERO + brs], BigEndian.Compact(s), old(out)[p..]);
      }
    }

    method CloseList(p: nat, ghost base: bytes, ghost xs: seq<Item>)
      requires FitsAll(xs) && p == |base| && out == base + EncodeAll(xs) && |out| < LENGTH_LIMIT
      modifies this`out
      ensures FitsAll([List(xs)]) && out == base + EncodeAll([List(xs)])
      ensures |out| <= |old(out)| + 9
    {
      SplitConcat(base, EncodeAll(xs));
      InsertHeader(p);
      ClosedList(xs);
    }

    /** Counts `itemCount` appended items, closing every list that this completes. */
    method NoteAppended(itemCount: nat, ghost xs: seq<Item>) returns (ok: bool)
      requires Live(builder) && AllFit(builder) && FitsAll(xs) && |xs| == itemCount
      requires out == Buffer(builder) + EncodeAll(xs) && listStack == Stack(builder) && HeaderRoom()
      requires itemCount > 0
      modifies this
      ensures ok <==> Room(old(builder), itemCount)
      ensures ok ==> Valid() && builder == Add(old(builder), xs)
    {
      var n := itemCount;
      ghost var b, ys := builder, xs;
      while listStack != []
        invariant Live(b) && AllFit(b) && FitsAll(ys) && n == |ys| > 0
        invariant out == Buffer(b) + EncodeAll(ys) && listStack == Stack(b) && HeaderRoom()
        invariant Room(b, n) <==> Room(old(builder), itemCount)
        invariant Room(b, n) ==> Add(b, ys) == Add(old(builder), xs)
        decreases |listStack|
      {
        var last := |listStack| - 1;
        var (pending, p) := listStack[last];
        StackTop(b);
        BufferGrows(b, ys);
        if pending < n {
          return false;
        }
        if pending > n {
          AddStays(b, ys);
          listStack := listStack[..last] + [(pending - n, p)];
          builder := Add(b, ys);
          return true;
        }
        listStack := listStack[..last];
        AddCloses(b, ys);
        CloseList(p, Buffer(b.outer), b.items + ys);
        b, ys := b.outer, [List(b.items + ys)];
        n := 1;
      }
      BufferGrows(b, ys);
      builder := Add(b, ys);
      return true;
    }

    /** Appends bytes that already are the encodings of `itemCount` items. */
    method AppendRaw(s: bytes, itemCount: nat, ghost xs: seq<Item>) returns (ok: bool)
      requires Valid() && Capacity(|s|)
      requires FitsAll(xs) && |xs| == itemCount > 0 && s == EncodeAll(xs)
      modifies this
      ensures ok <==> Room(old(builder), itemCount)
      ensures ok ==> Valid() && builder == Add(old(builder), xs)
    {
      out := out + s;
      ok := NoteAppended(itemCount, xs);
    }

    method AppendList(items: nat)
      requires Valid() && Capacity(1)
      modifies this
      ensures Valid() && builder == Begin(old(builder), items)
    {
      if items != 0 {
        listStack := listStack + [(items, |out|)];
        builder := Open(builder, items, []);
      } else {
        EncodeSingle(List([]));
        out := out + [LIST_START];
        var _ := NoteAppended(1, [List([])]);
      }
    }

    /** The header byte of a long string, followed by its length. */
    method PushCount(count: nat, base: byte)
      requires BigEndian.Width(count) <= 8 && base <= LIST_IND_ZERO
      modifies this`out
      ensures out == old(out) + [base + BigEndian.Width(count)] + BigEndian.Compact(count)
    {
      var br := BigEndian.BytesRequired(count);
      out := out + [base + br];
      PushInt(count, br);
    }

    method PushInt(v: nat, br: nat)
      requires br == BigEndian.Width(v)
      modifies this`out
      ensures out == old(out) + BigEndian.Compact(v)
    {
      if br > 0 {
        var grown := out + seq(br, _ => 0);
        assert grown[..|out|] == out;
        out := PatchInt(grown, |grown| - 1, v);
      }
    }

    /** Appends a string; `compact` drops its leading zeros. */
    method Append(s: bytes, compact: bool)
      requires Valid() && Capacity(|s|)
      modifies this
      ensures Valid() && builder == Add(old(builder), [Data(if compact then Stripped(s) else s)])
    {
      var d := s;
      if compact {
        var i := 0;
        while i < |s| && s[i] == 0
          invariant i <= |s| && Stripped(s[i..]) == Stripped(s)
        {
          assert s[i..][1..] == s[i + 1..];
          i := i + 1;
        }
        d := s[i..];
        assert d == Stripped(s);
      }
      StrippedShorter(s);
      AppendWhole(d);
    }

    method AppendWhole(d: bytes)
      requires Valid() && Capacity(|d|)
      modifies this
      ensures Valid() && builder == Add(old(builder), [Data(d)])
    {
      PutData(d);
      EncodeSingle(Data(d));
      WidthOfLength(|d|);
      var _ := NoteAppended(1, [Data(d)]);
    }

    method PutData(d: bytes)
      requires |d| < LENGTH_LIMIT
      modifies this`out
      ensures out == old(out) + EncodeData(d)
    {
      WidthOfLength(|d|);
      if |d| == 1 && d[0] < DATA_START {
        out := out + [d[0]];
      } else {
        if |d| < IMM_COUNT {
          out := out + [DATA_START + |d|];
        } else {
          PushCount(|d|, DATA_IND_ZERO);
        }
        out := out + d;
      }
    }

    /** Appends a number as its bytes without leading zeros. */
    method AppendInt(i: nat)
      requires Valid() && Capacity(BigEndian.Width(i))
      modifies this
      ensures Valid() && builder == Add(old(builder), [Data(BigEndian.Compact(i))])
    {
      ghost var d := BigEndian.Compact(i);
      PutInt(i);
      EncodeSingle(Data(d));
      WidthOfLength(|d|);
      var _ := NoteAppended(1, [Data(d)]);
    }

    method PutInt(i: nat)
      requires BigEndian.Width(i) < LENGTH_LIMIT
      modifies this`out
      ensures out == old(out) + EncodeData(BigEndian.Compact(i))
    {
      if i == 0 {
        out := out + [DATA_START];
      } else if i < DATA_START {
        assert BigEndian.Compact(i / 256) == [];
        out := out + [i];
      } else {
        CompactIsLong(i);
        var br := BigEndian.BytesRequired(i);
        WidthOfLength(br);
        if br < IMM_COUNT {
          out := out + [DATA_START + br];
        } else {
          var brbr := BigEndian.BytesRequired(br);
          out := out + [DATA_IND_ZERO + brbr];
          PushInt(br, brbr);
          Assoc(old(out), [DATA_IND_ZERO + brbr], BigEndian.Compact(br));
        }
        PushInt(i, br);
        Assoc(old(out), Header(br, DATA_START), BigEndian.Compact(i));
      }
    }

    /** The finished bytes; an error while a list is still open. */
    method Out() returns (ok: bool, r: bytes)
      requires Valid()
      ensures ok <==> builder.Closed?
      ensures ok ==> FitsAll(builder.done) && r == EncodeAll(builder.done)
    {
      ok := listStack == [];
      r := out;
    }
  }

  function Stripped(s: bytes): bytes {
    if s != [] && s[0] == 0 then Stripped(s[1..]) else s
  }

  lemma StrippedShorter(s: bytes)
    ensures |Stripped(s)| <= |s|
  {
  }

  lemma {:induction false} CompactIsLong(i: nat)
    requires i >= 0x80
    ensures !OneByte(BigEndian.Compact(i))
  {
    if i < 256 { assert BigEndian.Compact(i / 256) == []; }
  }

  // ------------------------------------------------------------ whole runs

  /** The most bytes that calls add to the buffer, headers included. */
  function Cost(cs: seq<Call>): nat {
    if cs == [] then 0 else (if cs[0].AppendData? then |cs[0].payload| + 9 else 10) + Cost(cs[1..])
  }

  /** The buffer's bytes and the headers that its open lists will need at most. */
  ghost function Reserved(b: Builder): nat
    requires AllFit(b)
  {
    |Buffer(b)| + 9 * |Stack(b)|
  }

  lemma {:induction false} AddReserves(b: Builder, ys: seq<Item>)
    requires Live(b) && Room(b, |ys|) && AllFit(b) && FitsAll(ys) && AllFit(Add(b, ys))
    requires Reserved(b) + |EncodeAll(ys)| < LENGTH_LIMIT
    ensures Reserved(Add(b, ys)) <= Reserved(b) + |EncodeAll(ys)|
  {
    match b
    case Closed(done) => EncodeAllConcat(done, ys);
    case Open(outer, pending, items) =>
      EncodeAllConcat(items, ys);
      if |ys| == pending {
        ClosedList(items + ys);
        AddReserves(outer, [List(items + ys)]);
      }
  }

  /** Any run of calls: it leaves bytes behind exactly when it is balanced, and they encode its items. */
  method Write(cs: seq<Call>) returns (ok: bool, r: bytes)
    requires Cost(cs) < LENGTH_LIMIT
    ensures ok <==> RunCalls(Closed([]), cs).Closed?
    ensures ok ==> var xs := RunCalls(Closed([]), cs).done; FitsAll(xs) && r == EncodeAll(xs)
  {
    var s := new Stream();
    var i := 0;
    assert cs[0..] == cs;
    while i < |cs|
      invariant i <= |cs| && s.Valid() && fresh(s)
      invariant RunCalls(s.builder, cs[i..]) == RunCalls(Closed([]), cs)
      invariant Reserved(s.builder) + Cost(cs[i..]) < LENGTH_LIMIT
    {
      assert cs[i..][0] == cs[i] && cs[i..][1..] == cs[i + 1..];
      WriteOne(s, cs[i]);
      i := i + 1;
    }
    assert cs[|cs|..] == [];
    ok, r := s.Out();
  }

  method WriteOne(s: Stream, c: Call)
    requires s.Valid() && Reserved(s.builder) + Cost([c]) < LENGTH_LIMIT
    modifies s
    ensures s.Valid() && s.builder == Step(old(s.builder), c)
    ensures Reserved(s.builder) <= old(Reserved(s.builder)) + Cost([c])
  {
    ghost var b := s.builder;
    assert [c][1..] == [];
    match c
    case AppendData(p) =>
      s.Append(p, false);
      EncodeSingle(Data(p));
      if |p| >= IMM_COUNT { WidthOfLength(|p|); }
      AddReserves(b, [Data(p)]);
    case AppendList(n) =>
      s.AppendList(n);
      if n == 0 {
        ClosedList([]);
        AddReserves(b, [List([])]);
      }
  }

  /** Writing a tree and reading it back gives the tree. */
  method WriteTree(it: Item) returns (r: bytes)
    requires Cost(Calls(it)) < LENGTH_LIMIT
    ensures Fits(it) && r == Encode(it) && Parse(r) == Ok(it)
  {
    CallsSingle(it);
    BalancedRuns(Calls(it), [it]);
    var ok;
    ok, r := Write(Calls(it));
    EncodeSingle(it);
    RoundTrip(it);
  }
}
