/**
 Reading numbers and lists out of RLP strings: `toInt`, the cached subscript
 operator, the item iterator and the item count.
 */
module RlpReader {
  import opened Bytes
  import opened Rlp
  import BigEndian

  // -------------------------------------------------------------- numbers

  /** Whether an item is a number: a string that does not start with a zero byte. */
  function IsInt(d: bytes): Read<bool> {
    if d == [] then Ok(false)
    else if !Good(d) then Fail(BadRlp)
    else
      var n := d[0];
      if n < DATA_START then Ok(n != 0)
      else if n == DATA_START then Ok(true)
      else if n <= DATA_IND_ZERO then
        if |d| <= 1 then Fail(BadRlp) else Ok(d[1] != 0)
      else if n < LIST_START then
        if |d| <= 1 + n - DATA_IND_ZERO then Fail(BadRlp) else Ok(d[1 + n - DATA_IND_ZERO] != 0)
      else Ok(false)
  }

  /** The number in an item of at most `maxSize` bytes, read strictly. */
  function ToInt(d: bytes, maxSize: nat): Read<nat> {
    if !Good(d) then Fail(BadRlp)
    else
      var isInt :- IsInt(d);
      if !isInt || d[0] >= LIST_START then Fail(BadCast)
      else
        var p :- Payload(d);
        if |p| > maxSize then Fail(BadCast) else Ok(BigEndian.Value(p))
  }

  /** A string that starts with a non-zero byte, or is empty, is what counts as a number. */
  lemma {:induction false} IntPayload(p: bytes)
    requires |p| < LENGTH_LIMIT
    ensures IsInt(EncodeData(p)) == Ok(p == [] || p[0] != 0)
    ensures Payload(EncodeData(p)) == Ok(p) && Good(EncodeData(p)) && EncodeData(p)[0] < LIST_START
  {
    var d := EncodeData(p);
    if OneByte(p) {
      assert d[0..1] == p;
    } else {
      assert d + [] == d && Header(|p|, DATA_START) + p + [] == d;
      HeadedReads(p, DATA_START, []);
      HeaderReads(|p|, DATA_START, p);
      assert p != [] ==> d[PayloadOffset(d)] == p[0];
    }
  }

  /** Of exactly sized strings, a number is read from its own minimal encoding and from nothing else. */
  lemma {:induction false} ToIntExact(d: bytes, maxSize: nat, v: nat)
    requires ActualSize(d) == Ok(|d|)
    ensures ToInt(d, maxSize) == Ok(v) <==>
      BigEndian.Width(v) < LENGTH_LIMIT && d == EncodeData(BigEndian.Compact(v)) && BigEndian.Width(v) <= maxSize
  {
    if ToInt(d, maxSize) == Ok(v) {
      var p := Payload(d).value;
      if d[0] < DATA_START {
        assert d[0..1] == d;
      } else {
        PayloadCanonical(d);
      }
      IntPayload(p);
      BigEndian.CompactOfValue(p);
    }
    if BigEndian.Width(v) < LENGTH_LIMIT && d == EncodeData(BigEndian.Compact(v)) && BigEndian.Width(v) <= maxSize {
      IntPayload(BigEndian.Compact(v));
      BigEndian.ValueOfCompact(v);
    }
  }

  // ---------------------------------------------------------------- lists

  /** The items of a list payload, found by one scan from its start. */
  function Split(p: bytes): Read<seq<bytes>>
    decreases |p|
  {
    if p == [] then Ok([])
    else
      var s :- SizeAsEncoded(p);
      var rest :- Split(p[s..]);
      Ok([p[..s]] + rest)
  }

  /** Scanning a written list finds the encodings of its items. */
  lemma {:induction false} SplitEncoded(xs: seq<Item>)
    requires FitsAll(xs)
    ensures Split(EncodeAll(xs)).Ok? && |Split(EncodeAll(xs)).value| == |xs|
    ensures forall i :: 0 <= i < |xs| ==> Fits(xs[i]) && Split(EncodeAll(xs)).value[i] == Encode(xs[i])
  {
    if xs != [] {
      var e, rest := Encode(xs[0]), EncodeAll(xs[1..]);
      EncodingReads(xs[0], rest);
      SplitConcat(e, rest);
      SplitEncoded(xs[1..]);
      assert Split(e + rest).value == [e] + Split(rest).value;
      forall i | 0 < i < |xs| ensures Fits(xs[i]) && Split(e + rest).value[i] == Encode(xs[i]) {
        assert xs[i] == xs[1..][i - 1];
      }
    }
  }

  /** Where item `i` of `cs` starts when they stand one behind the other. */
  ghost function Offset(cs: seq<bytes>, i: nat): nat
    requires i <= |cs|
  {
    if i == 0 then 0 else Offset(cs, i - 1) + |cs[i - 1]|
  }

  /** Item `i` stands at its offset in `p` and is measured there. */
  ghost predicate ItemAt(p: bytes, cs: seq<bytes>, i: nat)
    requires i < |cs|
  {
    var o := Offset(cs, i);
    cs[i] != [] && o + |cs[i]| <= |p| && cs[i] == p[o..o + |cs[i]|] && SizeAsEncoded(p[o..]) == Ok(|cs[i]|)
  }

  ghost predicate IsScan(p: bytes, cs: seq<bytes>) {
    Offset(cs, |cs|) == |p| && forall i: nat :: i < |cs| ==> ItemAt(p, cs, i)
  }

  lemma {:induction false} OffsetShift(c: bytes, cs: seq<bytes>, i: nat)
    requires i <= |cs|
    ensures Offset([c] + cs, i + 1) == |c| + Offset(cs, i)
    decreases i
  {
    if i > 0 { OffsetShift(c, cs, i - 1); }
  }

  lemma {:induction false} ItemShift(p: bytes, s: nat, cs: seq<bytes>, i: nat)
    requires s <= |p| && i < |cs| && ItemAt(p[s..], cs, i)
    ensures ItemAt(p, [p[..s]] + cs, i + 1)
  {
    OffsetShift(p[..s], cs, i);
    var o := Offset(cs, i);
    assert p[s..][o..] == p[s + o..];
    assert p[s..][o..o + |cs[i]|] == p[s + o..s + o + |cs[i]|];
  }

  lemma {:induction false} ItemFront(p: bytes, s: nat, cs: seq<bytes>)
    requires 0 < s <= |p| && SizeAsEncoded(p) == Ok(s)
    ensures ItemAt(p, [p[..s]] + cs, 0)
  {
    assert p[0..] == p;
  }

  lemma {:induction false} SplitIsScan(p: bytes)
    requires Split(p).Ok?
    ensures IsScan(p, Split(p).value)
    decreases |p|
  {
    if p != [] {
      var s := SizeAsEncoded(p).value;
      var rest := Split(p[s..]).value;
      SplitIsScan(p[s..]);
      var cs := [p[..s]] + rest;
      ItemFront(p, s, rest);
      forall i: nat | 0 < i < |cs| ensures ItemAt(p, cs, i) { ItemShift(p, s, rest, i - 1); }
      OffsetShift(p[..s], rest, |rest|);
    }
  }

  /** The item that starts where item `i` should: item `i`, or nothing behind the last one. */
  method Front(p: bytes, at: nat, ghost cs: seq<bytes>, ghost i: nat) returns (item: bytes)
    requires IsScan(p, cs) && i <= |cs| && at == Offset(cs, i)
    ensures item == Nth(cs, i) && at + |item| <= |p| && (item == [] <==> i == |cs|)
    ensures i < |cs| ==> at + |item| == Offset(cs, i + 1)
  {
    assert i < |cs| ==> ItemAt(p, cs, i);
    var rest := p[at..];
    var n := SizeAsEncoded(rest).value;
    item := Cropped(rest, 0, n);
    assert item == p[at..at + n];
  }

  /** A list that is exactly sized and can be scanned. */
  ghost predicate GoodList(d: bytes) {
    && d != [] && d[0] >= LIST_START && ActualSize(d) == Ok(|d|)
    && Payload(d).Ok? && Split(Payload(d).value).Ok?
  }

  /** What one fresh scan of a list finds. */
  ghost function Children(d: bytes): seq<bytes>
    requires GoodList(d)
  {
    Split(Payload(d).value).value
  }

  /** Item `i` of a list of items: nothing past the end. */
  function Nth(cs: seq<bytes>, i: nat): bytes {
    if i < |cs| then cs[i] else []
  }

  /** The number of items, none for what is no list, or the error the scan runs into. */
  method Items(d: bytes) returns (r: Read<nat>)
    ensures d == [] || d[0] < LIST_START ==> r == Ok(0)
    ensures d != [] && d[0] >= LIST_START ==>
      match Payload(d)
      case Fail(e) => r == Fail(e)
      case Ok(p) => match Split(p) { case Ok(cs) => r == Ok(|cs|) case Fail(e) => r == Fail(e) }
  {
    if d == [] || d[0] < LIST_START {
      return Ok(0);
    }
    var payload := Payload(d);
    if payload.Fail? {
      return Fail(payload.error);
    }
    var p := payload.value;
    var i := 0;
    ghost var whole := Split(p);
    while p != []
      invariant Split(p).Fail? ==> whole == Fail(Split(p).error)
      invariant Split(p).Ok? ==> whole.Ok? && |whole.value| == i + |Split(p).value|
      decreases |p|
    {
      var s := SizeAsEncoded(p);
      if s.Fail? { return Fail(s.error); }
      p := p[s.value..];
      i := i + 1;
    }
    return Ok(i);
  }

  const NO_INDEX: nat := 0xFFFF_FFFF_FFFF_FFFF

  /** A list with the cache of the subscript operator. */
  class CachedList {
    const payload: bytes
    var lastIndex: nat
    var lastEnd: nat
    var lastItem: bytes
    ghost const children: seq<bytes>

    ghost predicate Valid()
      reads this
    {
      IsScan(payload, children) && |children| < NO_INDEX &&
      if lastIndex > |children| then lastIndex == NO_INDEX && lastItem == []
      else
        lastItem == Nth(children, lastIndex) &&
        lastEnd == Offset(children, if lastIndex < |children| then lastIndex + 1 else lastIndex)
    }

    constructor (d: bytes)
      requires GoodList(d) && |d| < NO_INDEX
      ensures Valid() && children == Children(d)
    {
      payload := Payload(d).value;
      lastIndex, lastEnd, lastItem := NO_INDEX, 0, [];
      FewerThanBytes(Payload(d).value);
      children := Children(d);
      SplitIsScan(Payload(d).value);
    }

    /** Item `i`, whatever was asked for before. */
    method At(i: nat) returns (r: bytes)
      requires Valid() && i <= NO_INDEX
      modifies this
      ensures Valid() && r == Nth(children, i)
    {
      if i < lastIndex {
        lastItem := Front(payload, 0, children, 0);
        lastEnd := |lastItem|;
        lastIndex := 0;
      }
      while lastIndex < i && lastItem != []
        invariant Valid() && lastIndex <= i
        decreases i - lastIndex
      {
        lastItem := Front(payload, lastEnd, children, lastIndex + 1);
        lastEnd := lastEnd + |lastItem|;
        lastIndex := lastIndex + 1;
      }
      assert lastIndex < |children| ==> ItemAt(payload, children, lastIndex);
      r := lastItem;
    }
  }

  lemma {:induction false} FewerThanBytes(p: bytes)
    requires Split(p).Ok?
    ensures |Split(p).value| <= |p|
    decreases |p|
  {
    if p != [] { FewerThanBytes(p[SizeAsEncoded(p).value..]); }
  }

  /** A position in the items of a list: the current item and how many bytes follow it. */
  class ItemIterator {
    const payload: bytes
    var start: nat
    var size: nat
    var remaining: nat
    ghost const children: seq<bytes>
    ghost var index: nat

    ghost predicate Valid()
      reads this
    {
      && IsScan(payload, children) && index <= |children|
      && start == Offset(children, index) && size == |Nth(children, index)|
      && start + size + remaining == |payload|
    }

    /** Equality with the end iterator: an empty item behind the last byte. */
    predicate AtEnd()
      reads this
    {
      start == |payload| && size == 0
    }

    constructor Begin(d: bytes)
      requires GoodList(d)
      ensures Valid() && index == 0 && children == Children(d)
    {
      var p := Payload(d).value;
      payload := p;
      children := Children(d);
      SplitIsScan(p);
      var item := Front(p, 0, Children(d), 0);
      start, size, remaining, index := 0, |item|, |p| - |item|, 0;
    }

    method Current() returns (item: bytes)
      requires Valid()
      ensures item == Nth(children, index)
      ensures AtEnd() <==> index == |children|
    {
      assert index < |children| ==> ItemAt(payload, children, index);
      item := payload[start..start + size];
    }

    method Advance()
      requires Valid()
      modifies this
      ensures Valid()
      ensures index == if old(index) < |children| then old(index) + 1 else old(index)
    {
      start := start + size;
      if index < |children| { index := index + 1; }
      if remaining != 0 {
        assert payload[start..start + remaining] == payload[start..];
        var item := Front(payload, start, children, index);
        size := |item|;
        remaining := remaining - (if remaining < size then remaining else size);
      } else {
        assert index < |children| ==> ItemAt(payload, children, index);
        size := 0;
      }
    }
  }

  /** Walking the iterator to its end collects what one scan finds. */
  method ToList(d: bytes) returns (r: seq<bytes>)
    requires GoodList(d)
    ensures r == Children(d)
  {
    var it := new ItemIterator.Begin(d);
    r := [];
    var item := it.Current();
    while !it.AtEnd()
      invariant it.Valid() && fresh(it)
      invariant r == it.children[..it.index] && item == Nth(it.children, it.index)
      invariant it.AtEnd() <==> it.index == |it.children|
      decreases |it.children| - it.index
    {
      r := r + [item];
      it.Advance();
      item := it.Current();
    }
  }
}
