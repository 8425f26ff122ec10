/**
 Recursive Length Prefix (Appendix B of the Ethereum Yellow Paper): items, their
 encoding, and the strict reader of byte strings.
 */
module Rlp {
  import opened Bytes
  import BigEndian

  const DATA_START: byte := 0x80
  const LIST_START: byte := 0xc0
  const IMM_COUNT: nat := 56
  const DATA_IND_ZERO: byte := 0xb7
  const LIST_IND_ZERO: byte := 0xf7

  /** Lengths from here on are refused by the reader: `size_t` less room for a header. */
  const LENGTH_LIMIT: nat := 0xFFFF_FFFF_FFFF_FEFF

  datatype Item = Data(payload: bytes) | List(items: seq<Item>)

  // ------------------------------------------------------------------ encoding

  function HeaderSize(len: nat): nat {
    if len < IMM_COUNT then 1 else 1 + BigEndian.Width(len)
  }

  predicate OneByte(b: bytes) {
    |b| == 1 && b[0] < DATA_START
  }

  /** The number of bytes of the encoding. */
  function Size(it: Item): (n: nat)
    ensures n > 0
    decreases it, 0
  {
    match it
    case Data(b) => if OneByte(b) then 1 else HeaderSize(|b|) + |b|
    case List(xs) => HeaderSize(SizeAll(xs)) + SizeAll(xs)
  }

  function SizeAll(xs: seq<Item>): (n: nat)
    decreases xs, 0
  {
    if xs == [] then 0 else Size(xs[0]) + SizeAll(xs[1..])
  }

  /** Every length in the item is one the reader accepts. */
  predicate Fits(it: Item)
    decreases it, 0
  {
    match it
    case Data(b) => |b| < LENGTH_LIMIT
    case List(xs) => SizeAll(xs) < LENGTH_LIMIT && FitsAll(xs)
  }

  predicate FitsAll(xs: seq<Item>)
    decreases xs, 0
  {
    xs == [] || (Fits(xs[0]) && FitsAll(xs[1..]))
  }

  lemma {:induction false} WidthOfLength(len: nat)
    requires len < LENGTH_LIMIT
    ensures BigEndian.Width(len) <= 8
  {
    assert BigEndian.Pow256(8) == 0x1_0000_0000_0000_0000;
    BigEndian.WidthBound(len, 8);
  }

  function Header(len: nat, start: byte): (h: bytes)
    requires len < LENGTH_LIMIT && (start == DATA_START || start == LIST_START)
    ensures |h| == HeaderSize(len)
  {
    if len < IMM_COUNT then [start + len]
    else
      WidthOfLength(len);
      [start + 55 + BigEndian.Width(len)] + BigEndian.Compact(len)
  }

  function EncodeData(b: bytes): (r: bytes)
    requires |b| < LENGTH_LIMIT
    ensures |r| == if OneByte(b) then 1 else HeaderSize(|b|) + |b|
  {
    if OneByte(b) then b else Header(|b|, DATA_START) + b
  }

  function Encode(it: Item): (r: bytes)
    requires Fits(it)
    ensures |r| == Size(it)
    decreases it, 0
  {
    match it
    case Data(b) => EncodeData(b)
    case List(xs) => Header(SizeAll(xs), LIST_START) + EncodeAll(xs)
  }

  function EncodeAll(xs: seq<Item>): (r: bytes)
    requires FitsAll(xs)
    ensures |r| == SizeAll(xs)
    decreases xs, 0
  {
    if xs == [] then [] else Encode(xs[0]) + EncodeAll(xs[1..])
  }

  // -------------------------------------------------------------------- reader

  datatype RlpError = BadRlp | OversizeRlp | UndersizeRlp | BadCast

  datatype Read<+T> = Ok(value: T) | Fail(error: RlpError) {
    predicate IsFailure() { Fail? }
    function PropagateFailure<U>(): Read<U>
      requires Fail?
    {
      Fail(error)
    }
    function Extract(): T
      requires Ok?
    {
      value
    }
  }

  /** The part of `d` from `begin` of length `count`, empty when it does not lie in `d`. */
  function Cropped(d: bytes, begin: nat, count: nat): bytes {
    if begin + count <= |d| then d[begin..begin + count] else []
  }

  /** False for one byte encoded in two where one would do. */
  predicate Good(d: bytes) {
    d != [] && (d[0] == DATA_START + 1 ==> |d| >= 2 && d[1] >= DATA_START)
  }

  /** A length given by its own `width` bytes after the first one. */
  function IndirectLength(d: bytes, width: nat): Read<nat>
    requires d != [] && width >= 1
  {
    if |d| <= width then Fail(BadRlp)
    else if d[1] == 0 then Fail(BadRlp)
    else
      var len := BigEndian.Value(d[1..1 + width]);
      if len < IMM_COUNT then Fail(BadRlp)
      else if len >= LENGTH_LIMIT then Fail(UndersizeRlp)
      else Ok(len)
  }

  function Length(d: bytes): Read<nat> {
    if d == [] then Ok(0)
    else if !Good(d) then Fail(BadRlp)
    else
      var n := d[0];
      if n < DATA_START then Ok(1)
      else if n <= DATA_IND_ZERO then Ok(n - DATA_START)
      else if n < LIST_START then IndirectLength(d, n - DATA_IND_ZERO)
      else if n <= LIST_IND_ZERO then Ok(n - LIST_START)
      else IndirectLength(d, n - LIST_IND_ZERO)
  }

  function PayloadOffset(d: bytes): nat
    requires d != []
  {
    var n := d[0];
    if n < DATA_START then 0
    else if n <= DATA_IND_ZERO then 1
    else if n < LIST_START then 1 + (n - DATA_IND_ZERO)
    else if n <= LIST_IND_ZERO then 1
    else 1 + (n - LIST_IND_ZERO)
  }

  function ActualSize(d: bytes): Read<nat> {
    if d == [] then Ok(0)
    else if d[0] < DATA_START then Ok(1)
    else
      var len :- Length(d);
      Ok(PayloadOffset(d) + len)
  }

  /** The size that `d` starts with an item of, an error when `d` is too short for it. */
  function SizeAsEncoded(d: bytes): (r: Read<nat>)
    ensures r.Ok? ==> r.value <= |d| && (d != [] ==> r.value > 0)
  {
    var s :- ActualSize(d);
    if s > |d| then Fail(UndersizeRlp) else Ok(s)
  }

  /** Opening a string that must be one item and nothing else. */
  function OpenStrict(d: bytes): (r: Read<bytes>)
    ensures r.Ok? <==> ActualSize(d) == Ok(|d|)
    ensures r.Ok? ==> r.value == d
  {
    var s :- ActualSize(d);
    if s < |d| then Fail(OversizeRlp) else if s > |d| then Fail(UndersizeRlp) else Ok(d)
  }

  function Payload(d: bytes): (r: Read<bytes>)
    requires d != []
    ensures r.Ok? ==> |r.value| <= |d| && (d[0] >= DATA_START ==> |r.value| < |d|)
  {
    var len :- Length(d);
    if len > |d| then Fail(BadRlp) else Ok(Cropped(d, PayloadOffset(d), len))
  }

  /** Reads one item strictly, all the way down its lists. */
  function Parse(d: bytes): (r: Read<Item>)
    decreases |d|, 0
  {
    var whole :- OpenStrict(d);
    if whole == [] then Fail(BadRlp)
    else
      var p :- Payload(whole);
      if whole[0] < LIST_START then Ok(Data(p))
      else
        var xs :- ParseAll(p);
        Ok(List(xs))
  }

  function ParseAll(p: bytes): (r: Read<seq<Item>>)
    decreases |p|, 1
  {
    if p == [] then Ok([])
    else
      var s :- SizeAsEncoded(p);
      var x :- Parse(p[..s]);
      var xs :- ParseAll(p[s..]);
      Ok([x] + xs)
  }

  // ------------------------------------------------- the numbers of Appendix B

  /** Strings and lists as Appendix B writes them down. */
  lemma {:induction false} EncodeNumerals(it: Item)
    requires Fits(it)
    ensures it.Data? && |it.payload| == 1 && it.payload[0] < 128 ==> Encode(it) == it.payload
    ensures it.Data? && |it.payload| <= 55 && !(|it.payload| == 1 && it.payload[0] < 128) ==>
      Encode(it) == [128 + |it.payload|] + it.payload
    ensures it.Data? && |it.payload| >= 56 ==>
      var len := BigEndian.Compact(|it.payload|);
      |len| <= 8 && Encode(it) == [183 + |len|] + len + it.payload
    ensures it.List? && |EncodeAll(it.items)| <= 55 ==>
      Encode(it) == [192 + |EncodeAll(it.items)|] + EncodeAll(it.items)
    ensures it.List? && |EncodeAll(it.items)| >= 56 ==>
      var len := BigEndian.Compact(|EncodeAll(it.items)|);
      |len| <= 8 && Encode(it) == [247 + |len|] + len + EncodeAll(it.items)
  {
    if it.Data? { WidthOfLength(|it.payload|); } else { WidthOfLength(|EncodeAll(it.items)|); }
  }

  lemma {:induction false} EncodeAllPair(x: Item, y: Item)
    requires Fits(x) && Fits(y)
    ensures FitsAll([x, y]) && EncodeAll([x, y]) == Encode(x) + Encode(y)
  {
    assert [x, y][1..] == [y] && [y][1..] == [];
    assert EncodeAll([y]) == Encode(y) + [];
  }

  /** "dog", the empty string and list, 15 and 1024 as strings. */
  lemma {:induction false} EncodeExamples()
    ensures Encode(Data([100, 111, 103])) == [0x83, 100, 111, 103]
    ensures Encode(Data([])) == [0x80] && Fits(List([])) && Encode(List([])) == [0xc0]
    ensures Encode(Data([0x04, 0x00])) == [0x82, 0x04, 0x00] && Encode(Data([0x0f])) == [0x0f]
  {
  }

  /** The list of "cat" and "dog". */
  lemma {:induction false} EncodeListExample()
    ensures
      var pair := List([Data([99, 97, 116]), Data([100, 111, 103])]);
      Fits(pair) && Encode(pair) == [0xc8, 0x83, 99, 97, 116, 0x83, 100, 111, 103]
  {
    var cat, dog := Data([99, 97, 116]), Data([100, 111, 103]);
    assert Encode(cat) == [0x83, 99, 97, 116] && Encode(dog) == [0x83, 100, 111, 103];
    EncodeAllPair(cat, dog);
    assert SizeAll([cat, dog]) == |EncodeAll([cat, dog])| == 8;
    EncodeNumerals(List([cat, dog]));
  }

  /**
   A length of its own in up to eight bytes, the first not zero, and of 56 or more:
   it is read exactly if it is below the greatest 64-bit number less 256.
   */
  lemma {:induction false} LongLengthExactly(d: bytes, width: nat)
    requires 1 <= width <= 8 && |d| > width && (d[0] == 183 + width || d[0] == 247 + width) && d[1] != 0
    requires BigEndian.Value(d[1..1 + width]) >= 56
    ensures
      var len := BigEndian.Value(d[1..1 + width]);
      Length(d) == if len < 18446744073709551359 then Ok(len) else Fail(UndersizeRlp)
  {
  }

  // --------------------------------------------- reading back what was written

  /** A header followed by enough bytes is read as the length it was made from. */
  lemma {:induction false} HeaderReads(len: nat, start: byte, tail: bytes)
    requires len < LENGTH_LIMIT && (start == DATA_START || start == LIST_START)
    requires |tail| >= len
    requires start == DATA_START && len == 1 ==> tail[0] >= DATA_START
    ensures
      var d := Header(len, start) + tail;
      d[0] >= start && (d[0] < LIST_START <==> start == DATA_START) &&
      Length(d) == Ok(len) && PayloadOffset(d) == HeaderSize(len)
  {
    var h := Header(len, start);
    var d := h + tail;
    if len >= IMM_COUNT {
      WidthOfLength(len);
      var w := BigEndian.Width(len);
      assert d[1..1 + w] == BigEndian.Compact(len);
      assert d[1] == BigEndian.Compact(len)[0];
      BigEndian.ValueOfCompact(len);
    }
  }

  /** A body behind its header is measured and cut out, whatever follows it. */
  lemma {:induction false} HeadedReads(body: bytes, start: byte, rest: bytes)
    requires |body| < LENGTH_LIMIT && (start == DATA_START || start == LIST_START)
    requires start == DATA_START ==> !OneByte(body)
    ensures
      var d := Header(|body|, start) + body + rest;
      ActualSize(d) == Ok(HeaderSize(|body|) + |body|) && Payload(d) == Ok(body) &&
      (d[0] < LIST_START <==> start == DATA_START)
  {
    var h := Header(|body|, start);
    var d := h + body + rest;
    assert d == h + (body + rest);
    HeaderReads(|body|, start, body + rest);
    assert d[|h|..|h| + |body|] == body;
  }

  /** The encoding of an item at the front of a string is found, measured and cut out. */
  lemma {:induction false} EncodingReads(it: Item, rest: bytes)
    requires Fits(it)
    ensures
      var d := Encode(it) + rest;
      ActualSize(d) == Ok(Size(it)) && SizeAsEncoded(d) == Ok(Size(it)) &&
      (d[0] < LIST_START <==> it.Data?) &&
      Payload(d) == Ok(if it.Data? then it.payload else EncodeAll(it.items))
  {
    match it
    case Data(b) =>
      if OneByte(b) { assert (b + rest)[0..1] == b; } else { HeadedReads(b, DATA_START, rest); }
    case List(xs) =>
      HeadedReads(EncodeAll(xs), LIST_START, rest);
  }

  /** Reading an encoding returns the item, at any nesting depth. */
  lemma {:induction false} RoundTrip(it: Item)
    requires Fits(it)
    ensures Parse(Encode(it)) == Ok(it)
    decreases it, 0
  {
    assert Encode(it) + [] == Encode(it);
    EncodingReads(it, []);
    if it.List? { RoundTripAll(it.items); }
  }

  lemma {:induction false} RoundTripAll(xs: seq<Item>)
    requires FitsAll(xs)
    ensures ParseAll(EncodeAll(xs)) == Ok(xs)
    decreases xs, 0
  {
    if xs != [] {
      var e, rest := Encode(xs[0]), EncodeAll(xs[1..]);
      EncodingReads(xs[0], rest);
      SplitConcat(e, rest);
      RoundTrip(xs[0]);
      RoundTripAll(xs[1..]);
      ParseAllStep(e + rest, |e|, xs[0], xs[1..]);
      HeadTail(xs);
    }
  }

  lemma {:induction false} ParseAllStep(p: bytes, s: nat, x: Item, xs: seq<Item>)
    requires p != [] && SizeAsEncoded(p) == Ok(s) && Parse(p[..s]) == Ok(x) && ParseAll(p[s..]) == Ok(xs)
    ensures ParseAll(p) == Ok([x] + xs)
  {
  }

  // --------------------------------------------- the reader accepts one spelling

  /** An accepted header is the one the writer makes. */
  lemma {:induction false} HeaderCanonical(d: bytes, len: nat)
    requires d != [] && d[0] >= DATA_START && Length(d) == Ok(len) && PayloadOffset(d) + len == |d|
    ensures len < LENGTH_LIMIT
    ensures d[..PayloadOffset(d)] == Header(len, if d[0] < LIST_START then DATA_START else LIST_START)
    ensures d[0] < LIST_START && len == 1 ==> d[PayloadOffset(d)] >= DATA_START
  {
    var start := if d[0] < LIST_START then DATA_START else LIST_START;
    if d[0] - start > 55 {
      LongHeaderCanonical(d, d[0] - start - 55, len, start);
    } else {
      assert d[..1] == [d[0]];
    }
  }

  lemma {:induction false} LongHeaderCanonical(d: bytes, w: nat, len: nat, start: byte)
    requires 1 <= w < |d| && d[1] != 0 && len == BigEndian.Value(d[1..1 + w]) && IMM_COUNT <= len < LENGTH_LIMIT
    requires (start == DATA_START || start == LIST_START) && d[0] == start + 55 + w
    ensures d[..1 + w] == Header(len, start)
  {
    var b := d[1..1 + w];
    assert b[0] == d[1];
    BigEndian.CompactOfValue(b);
    assert d[..1 + w] == [d[0]] + b;
  }

  lemma {:induction false} ConsEncode(x: Item, xs: seq<Item>)
    requires Fits(x) && FitsAll(xs)
    ensures FitsAll([x] + xs) && EncodeAll([x] + xs) == Encode(x) + EncodeAll(xs)
  {
    assert ([x] + xs)[0] == x && ([x] + xs)[1..] == xs;
  }

  /** The payload of an exactly sized string is all that follows its header. */
  lemma {:induction false} ExactPayload(d: bytes, len: nat)
    requires d != [] && Length(d) == Ok(len) && PayloadOffset(d) + len == |d|
    ensures Payload(d) == Ok(d[PayloadOffset(d)..])
  {
    var o := PayloadOffset(d);
    assert d[o..o + len] == d[o..];
  }

  /** An exactly sized string is its header and its payload. */
  lemma {:induction false} PayloadCanonical(d: bytes)
    requires d != [] && d[0] >= DATA_START && ActualSize(d) == Ok(|d|)
    ensures Payload(d).Ok? && |Payload(d).value| < LENGTH_LIMIT
    ensures
      var p := Payload(d).value;
      if d[0] < LIST_START then d == EncodeData(p) else d == Header(|p|, LIST_START) + p
  {
    var len, o := Length(d).value, PayloadOffset(d);
    ExactPayload(d, len);
    HeaderCanonical(d, len);
    CutAt(d, o);
    if d[0] < LIST_START {
      assert !OneByte(d[o..]) by { if len == 1 { assert d[o..][0] == d[o]; } }
    }
  }

  lemma {:induction false} CutAt(d: bytes, o: nat)
    requires o <= |d|
    ensures d == d[..o] + d[o..]
  {
  }

  /** Whatever the strict reader accepts is the encoding of what it returns. */
  lemma {:induction false} ParseCanonical(d: bytes)
    requires Parse(d).Ok?
    ensures Fits(Parse(d).value) && Encode(Parse(d).value) == d
    decreases |d|, 0
  {
    if d[0] < DATA_START {
      assert d[0..1] == d;
      assert Parse(d) == Ok(Data(d));
    } else {
      PayloadCanonical(d);
      if d[0] >= LIST_START { ParseAllCanonical(Payload(d).value); }
    }
  }

  lemma {:induction false} ParseAllCanonical(p: bytes)
    requires ParseAll(p).Ok?
    ensures FitsAll(ParseAll(p).value) && EncodeAll(ParseAll(p).value) == p
    decreases |p|, 1
  {
    if p != [] {
      var s := ParseAllSplits(p);
      ParseCanonical(p[..s]);
      ParseAllCanonical(p[s..]);
      ConsEncode(Parse(p[..s]).value, ParseAll(p[s..]).value);
    }
  }

  lemma {:induction false} ParseAllSplits(p: bytes) returns (s: nat)
    requires ParseAll(p).Ok? && p != []
    ensures 0 < s <= |p| && p == p[..s] + p[s..] && Parse(p[..s]).Ok? && ParseAll(p[s..]).Ok?
    ensures ParseAll(p).value == [Parse(p[..s]).value] + ParseAll(p[s..]).value
  {
    s := SizeAsEncoded(p).value;
  }

  /** No two accepted strings denote the same tree. */
  lemma {:induction false} ParseInjective(a: bytes, b: bytes)
    requires Parse(a).Ok? && Parse(a) == Parse(b)
    ensures a == b
  {
    ParseCanonical(a);
    ParseCanonical(b);
  }

  /** No two trees have the same encoding. */
  lemma {:induction false} EncodeInjective(x: Item, y: Item)
    requires Fits(x) && Fits(y) && Encode(x) == Encode(y)
    ensures x == y
  {
    RoundTrip(x);
    RoundTrip(y);
  }
}
