/**
 Hex-prefix encoding of nibble sequences (Appendix C of the Ethereum Yellow
 Paper), the loops that produce it, and slices of byte strings read as nibbles.
 */
module HexPrefix {
  import opened Bytes

  /** The nibble at position `i` of a byte string. */
  function NibbleAt(data: bytes, i: nat): nibble
    requires i < 2 * |data|
  {
    if i % 2 == 1 then data[i / 2] % 16 else data[i / 2] / 16
  }

  function Byte(hi: nibble, lo: nibble): byte {
    16 * hi + lo
  }

  /** All nibbles of a byte string. */
  function AsNibbles(data: bytes): (ns: Nibbles)
    ensures |ns| == 2 * |data|
  {
    if data == [] then [] else [data[0] / 16, data[0] % 16] + AsNibbles(data[1..])
  }

  lemma {:induction false} ByteHalves(hi: nibble, lo: nibble)
    ensures Byte(hi, lo) / 16 == hi && Byte(hi, lo) % 16 == lo
  {
  }

  lemma {:induction false} AsNibblesCons(b: byte, rest: bytes)
    ensures AsNibbles([b] + rest) == [b / 16, b % 16] + AsNibbles(rest)
  {
    assert ([b] + rest)[1..] == rest;
  }

  lemma {:induction false} AsNibblesAt(data: bytes, i: nat)
    requires i < 2 * |data|
    ensures AsNibbles(data)[i] == NibbleAt(data, i)
  {
    if i >= 2 {
      AsNibblesAt(data[1..], i - 2);
      assert (i - 2) / 2 == i / 2 - 1;
    }
  }

  /** Pairs of nibbles as bytes; a nibble without a partner is the upper half of the last byte. */
  function Pack(ns: Nibbles): (b: bytes) {
    if ns == [] then []
    else if |ns| == 1 then [Byte(ns[0], 0)]
    else [Byte(ns[0], ns[1])] + Pack(ns[2..])
  }

  lemma {:induction false} PackConcat(a: Nibbles, b: Nibbles, half: nat)
    requires |a| == 2 * half
    ensures Pack(a + b) == Pack(a) + Pack(b)
    decreases half
  {
    if half == 0 {
      assert a + b == b;
    } else {
      assert (a + b)[0] == a[0] && (a + b)[1] == a[1] && (a + b)[2..] == a[2..] + b;
      PackConcat(a[2..], b, half - 1);
      Assoc([Byte(a[0], a[1])], Pack(a[2..]), Pack(b));
    }
  }

  /** A nibble behind whole bytes is a new byte. */
  lemma {:induction false} PackOneMore(ns: Nibbles, n: nibble, half: nat)
    requires |ns| == 2 * half
    ensures Pack(ns + [n]) == Pack(ns) + [Byte(n, 0)]
  {
    PackConcat(ns, [n], half);
  }

  /** A nibble behind half a byte completes it. */
  lemma {:induction false} PackPartner(ns: Nibbles, n: nibble, half: nat)
    requires |ns| == 2 * half + 1
    ensures Pack(ns) == Pack(ns[..2 * half]) + [Byte(ns[2 * half], 0)]
    ensures Pack(ns + [n]) == Pack(ns[..2 * half]) + [Byte(ns[2 * half], n)]
  {
    var whole, last := ns[..2 * half], ns[2 * half];
    assert ns == whole + [last] && ns + [n] == whole + [last, n];
    PackConcat(whole, [last], half);
    PackConcat(whole, [last, n], half);
    PackPair(last, n);
  }

  lemma {:induction false} PackPair(hi: nibble, lo: nibble)
    ensures Pack([hi, lo]) == [Byte(hi, lo)]
  {
    assert [hi, lo][2..] == [];
  }

  lemma {:induction false} PackInverts(ns: Nibbles, half: nat)
    requires |ns| == 2 * half
    ensures AsNibbles(Pack(ns)) == ns
    decreases half
  {
    if half > 0 {
      PackInverts(ns[2..], half - 1);
      AsNibblesCons(Byte(ns[0], ns[1]), Pack(ns[2..]));
      ByteHalves(ns[0], ns[1]);
      assert ns == [ns[0], ns[1]] + ns[2..];
    }
  }

  /** The encoding: a flag nibble for "leaf" and "odd", then the nibbles, aligned to bytes. */
  function Encode(ns: Nibbles, leaf: bool): (h: bytes) {
    var flag := if leaf then 2 else 0;
    if |ns| % 2 == 0 then [Byte(flag, 0)] + Pack(ns) else [Byte(flag + 1, ns[0])] + Pack(ns[1..])
  }

  /** The key in an encoding, and whether it is marked as a leaf's. */
  function KeyOf(h: bytes): Nibbles {
    if h == [] then []
    else if h[0] / 16 % 2 == 1 then AsNibbles(h)[1..]
    else AsNibbles(h)[2..]
  }

  predicate IsLeaf(h: bytes)
    requires h != []
  {
    h[0] / 32 % 2 == 1
  }

  /** The flag nibbles in front of a key of the given parity. */
  function Flags(odd: bool, leaf: bool): Nibbles {
    var flag := if leaf then 2 else 0;
    if odd then [flag + 1] else [flag, 0]
  }

  /** The same encoding with flags and key packed as one sequence. */
  lemma {:induction false} EncodeIsPacked(ns: Nibbles, leaf: bool)
    ensures Encode(ns, leaf) == Pack(Flags(|ns| % 2 == 1, leaf) + ns)
  {
    var fl := Flags(|ns| % 2 == 1, leaf);
    if |ns| % 2 == 0 {
      assert (fl + ns)[2..] == ns;
    } else {
      assert (fl + ns)[2..] == ns[1..];
    }
  }

  /** Key and leaf flag come back, for either parity. */
  lemma {:induction false} EncodeInverts(ns: Nibbles, leaf: bool)
    ensures Encode(ns, leaf) != []
    ensures KeyOf(Encode(ns, leaf)) == ns && IsLeaf(Encode(ns, leaf)) == leaf
  {
    EncodeIsPacked(ns, leaf);
    var fl := Flags(|ns| % 2 == 1, leaf);
    PackInverts(fl + ns, (|ns| + 2) / 2);
    SplitConcat(fl, ns);
  }

  /**
   The nibbles of Appendix C: 2 for a leaf plus 1 for an odd length, a zero nibble
   exactly for an even length, then the key.
   */
  lemma {:induction false} EncodeNibbles(ns: Nibbles, leaf: bool)
    ensures |ns| % 2 == 0 ==> AsNibbles(Encode(ns, leaf)) == [if leaf then 2 else 0, 0] + ns
    ensures |ns| % 2 == 1 ==> AsNibbles(Encode(ns, leaf)) == [if leaf then 3 else 1] + ns
  {
    EncodeIsPacked(ns, leaf);
    PackInverts(Flags(|ns| % 2 == 1, leaf) + ns, (|ns| + 2) / 2);
  }

  /** The same in bytes: two nibbles each, the first one in the upper half. */
  lemma {:induction false} EncodeEvenBytes(ns: Nibbles, half: nat, leaf: bool)
    requires |ns| == 2 * half
    ensures |Encode(ns, leaf)| == half + 1 && Encode(ns, leaf)[0] == if leaf then 32 else 0
    ensures forall i :: 0 <= i < half ==>
      Encode(ns, leaf)[1 + i] as int == 16 * ns[2 * i] as int + ns[2 * i + 1] as int
  {
    PackAt(ns, half);
  }

  lemma {:induction false} EncodeOddBytes(ns: Nibbles, half: nat, leaf: bool)
    requires |ns| == 2 * half + 1
    ensures |Encode(ns, leaf)| == half + 1 && Encode(ns, leaf)[0] as int == (if leaf then 48 else 16) + ns[0] as int
    ensures forall i :: 0 <= i < half ==>
      Encode(ns, leaf)[1 + i] as int == 16 * ns[2 * i + 1] as int + ns[2 * i + 2] as int
  {
    PackAt(ns[1..], half);
    assert forall i :: 0 <= i < half ==> ns[1..][2 * i] == ns[2 * i + 1] && ns[1..][2 * i + 1] == ns[2 * i + 2];
  }

  lemma {:induction false} EncodeLength(ns: Nibbles, leaf: bool)
    ensures |Encode(ns, leaf)| == |ns| / 2 + 1
  {
    if |ns| % 2 == 0 { EncodeEvenBytes(ns, |ns| / 2, leaf); } else { EncodeOddBytes(ns, |ns| / 2, leaf); }
  }

  lemma {:induction false} PackAt(ns: Nibbles, half: nat)
    requires |ns| == 2 * half
    ensures |Pack(ns)| == half
    ensures forall i :: 0 <= i < half ==> Pack(ns)[i] as int == 16 * ns[2 * i] as int + ns[2 * i + 1] as int
    decreases half
  {
    if half > 0 {
      var tail := ns[2..];
      PackAt(tail, half - 1);
      forall i | 0 < i < half ensures Pack(ns)[i] as int == 16 * ns[2 * i] as int + ns[2 * i + 1] as int {
        assert Pack(ns)[i] == Pack(tail)[i - 1];
        assert tail[2 * (i - 1)] == ns[2 * i] && tail[2 * (i - 1) + 1] == ns[2 * i + 1];
      }
    }
  }

  /** What is read from any bytes: bit 5 of the first one marks a leaf, bit 4 says where the key begins. */
  lemma {:induction false} ReadsBits(h: bytes)
    requires h != []
    ensures IsLeaf(h) <==> h[0] % 64 >= 32
    ensures KeyOf(h) == if h[0] % 32 >= 16 then AsNibbles(h)[1..] else AsNibbles(h)[2..]
  {
    Bits(h[0]);
  }

  lemma {:induction false} Bits(b: byte)
    ensures b / 32 % 2 == 1 <==> b % 64 >= 32
    ensures b / 16 % 2 == 1 <==> b % 32 >= 16
  {
  }

  /** The upper half of each byte comes first. */
  lemma {:induction false} NibblesOfBytes(data: bytes, i: nat)
    requires i < |data|
    ensures AsNibbles(data)[2 * i] == data[i] / 16 && AsNibbles(data)[2 * i + 1] == data[i] % 16
  {
    if i > 0 { NibblesOfBytes(data[1..], i - 1); }
  }

  lemma {:induction false} EncodeExamples()
    ensures Encode([1, 2], true) == [0x20, 0x12] && Encode([1, 2], false) == [0x00, 0x12]
    ensures Encode([1, 2, 3], true) == [0x31, 0x23] && Encode([1, 2, 3], false) == [0x11, 0x23]
  {
    EncodeEvenBytes([1, 2], 1, true);
    EncodeEvenBytes([1, 2], 1, false);
    EncodeOddBytes([1, 2, 3], 1, true);
    EncodeOddBytes([1, 2, 3], 1, false);
  }

  lemma {:induction false} EncodeInjective(a: Nibbles, la: bool, b: Nibbles, lb: bool)
    requires Encode(a, la) == Encode(b, lb)
    ensures a == b && la == lb
  {
    EncodeInverts(a, la);
    EncodeInverts(b, lb);
  }

  // ---------------------------------------------------------- the three loops

  /** Puts the next nibble behind `ret`: into the empty lower half of its last byte, or as a new byte. */
  method PutNibble(ret: bytes, d: nat, n: nibble, ghost all: Nibbles) returns (r: bytes)
    requires ret == Pack(all) && d == |all|
    ensures r == Pack(all + [n])
  {
    if d % 2 == 1 {
      PackPartner(all, n, |all| / 2);
      r := ret[|ret| - 1 := ret[|ret| - 1] + n];
    } else {
      PackOneMore(all, n, |all| / 2);
      r := ret + [Byte(n, 0)];
    }
  }

  /** The first byte of an encoding before any nibble of the key is in it. */
  function FirstByte(odd: bool, leaf: bool): byte {
    Byte((if leaf then 2 else 0) + if odd then 1 else 0, 0)
  }

  lemma {:induction false} PackFlags(odd: bool, leaf: bool)
    ensures Pack(Flags(odd, leaf)) == [FirstByte(odd, leaf)]
  {
  }

  /** From a vector of nibbles, two at a time. */
  method EncodeVector(hexVector: Nibbles, leaf: bool, begin: nat, end: int) returns (ret: bytes)
    requires begin <= (if end < 0 then |hexVector| + 1 + end else end) <= |hexVector|
    ensures ret == Encode(hexVector[begin..if end < 0 then |hexVector| + 1 + end else end], leaf)
  {
    var b, e := begin, if end < 0 then |hexVector| + 1 + end else end;
    var odd := (e - b) % 2 != 0;
    ghost var ns := hexVector[b..e];
    ret := [FirstByte(odd, leaf)];
    if odd {
      ret := [ret[0] + hexVector[b]];
      b := b + 1;
      assert ns[1..] == hexVector[b..e];
    }
    ret := PutPairs(ret, hexVector, b, e);
  }

  method PutPairs(head: bytes, hexVector: Nibbles, b: nat, e: nat) returns (ret: bytes)
    requires b <= e <= |hexVector| && (e - b) % 2 == 0
    ensures ret == head + Pack(hexVector[b..e])
  {
    ret := head;
    var i := b;
    ghost var half, total, ns := 0, (e - b) / 2, [];
    assert e == b + 2 * total;
    while i < e
      invariant i == b + 2 * half && half <= total
      invariant ns == hexVector[b..i] && ret == head + Pack(ns)
      decreases e - i
    {
      var hi, lo := hexVector[i], hexVector[i + 1];
      PackConcat(ns, [hi, lo], half);
      PackPair(hi, lo);
      Assoc(head, Pack(ns), [Byte(hi, lo)]);
      ret := ret + [Byte(hi, lo)];
      ns, half := ns + [hi, lo], half + 1;
      i := i + 2;
    }
  }

  /** From part of a byte string, nibble by nibble, counted from `offset` on. */
  method EncodeSlice(data: bytes, leaf: bool, beginNibble: nat, endNibble: int, offset: nat) returns (ret: bytes)
    requires offset <= 2 * |data|
    requires beginNibble <= (if endNibble < 0 then 2 * |data| - offset + 1 + endNibble
      else endNibble) <= 2 * |data| - offset
    ensures
      var e := if endNibble < 0 then 2 * |data| - offset + 1 + endNibble else endNibble;
      ret == Encode(AsNibbles(data)[offset..][beginNibble..e], leaf)
  {
    var e := if endNibble < 0 then 2 * |data| - offset + 1 + endNibble else endNibble;
    SliceOfDrop(AsNibbles(data), offset, beginNibble, e);
    ret := EncodeRange(data, leaf, offset + beginNibble, offset + e);
  }

  method EncodeRange(data: bytes, leaf: bool, begin: nat, end: nat) returns (ret: bytes)
    requires begin <= end <= 2 * |data|
    ensures ret == Encode(AsNibbles(data)[begin..end], leaf)
  {
    ghost var ns := AsNibbles(data)[begin..end];
    EncodeIsPacked(ns, leaf);
    var odd := (end - begin) % 2 == 1;
    PackFlags(odd, leaf);
    ret := [FirstByte(odd, leaf)];
    ret := PutRange(ret, data, begin, end, if odd then 1 else 2, Flags(odd, leaf));
  }

  /** The shared loop: appends the nibbles of `data` from `begin` to `end`. */
  method PutRange(start: bytes, data: bytes, begin: nat, end: nat, count: nat, ghost before: Nibbles)
    returns (ret: bytes)
    requires begin <= end <= 2 * |data|
    requires start == Pack(before) && count == |before|
    ensures ret == Pack(before + AsNibbles(data)[begin..end])
  {
    ret := start;
    ghost var all := AsNibbles(data);
    ghost var acc := before;
    assert all[begin..begin] == [];
    var d := count;
    for i := begin to end
      invariant ret == Pack(acc) && acc == before + all[begin..i]
      invariant d == |acc|
    {
      var n := NibbleAt(data, i);
      AsNibblesAt(data, i);
      ret := PutNibble(ret, d, n, acc);
      Assoc(before, all[begin..i], [n]);
      assert all[begin..i + 1] == all[begin..i] + [n];
      acc := acc + [n];
      d := d + 1;
    }
  }

  lemma {:induction false} DropIsSlice(ns: Nibbles, o: nat)
    requires o <= |ns|
    ensures ns[o..|ns|] == ns[o..]
  {
  }

  /** From two byte strings, each from its own offset on. */
  method EncodePair(d1: bytes, o1: nat, d2: bytes, o2: nat, leaf: bool) returns (ret: bytes)
    requires o1 <= 2 * |d1| && o2 <= 2 * |d2|
    ensures ret == Encode(AsNibbles(d1)[o1..] + AsNibbles(d2)[o2..], leaf)
  {
    var end1, end2 := 2 * |d1|, 2 * |d2|;
    ghost var a, b := AsNibbles(d1)[o1..], AsNibbles(d2)[o2..];
    DropIsSlice(AsNibbles(d1), o1);
    DropIsSlice(AsNibbles(d2), o2);
    EncodeIsPacked(a + b, leaf);
    var odd := (end1 - o1 + end2 - o2) % 2 == 1;
    ghost var fl := Flags(odd, leaf);
    PackFlags(odd, leaf);
    ret := [FirstByte(odd, leaf)];
    var d := if odd then 1 else 2;
    ret := PutRange(ret, d1, o1, end1, d, fl);
    ret := PutRange(ret, d2, o2, end2, d + (end1 - o1), fl + a);
    Assoc(fl, a, b);
  }

  // ------------------------------------------------------------------- slices

  /** `a` sorts before every key that starts with `b`. */
  predicate Earlier(a: Nibbles, b: Nibbles) {
    var n := Shared(a, b);
    n < |b| && (n < |a| ==> a[n] < b[n])
  }

  /** A byte string read as nibbles from an offset on. */
  datatype NibbleSlice = NibbleSlice(data: bytes, offset: nat) {
    predicate Valid() {
      offset <= 2 * |data|
    }

    function Size(): nat
      requires Valid()
    {
      2 * |data| - offset
    }

    function At(i: nat): nibble
      requires Valid() && i < Size()
    {
      NibbleAt(data, offset + i)
    }

    ghost function View(): Nibbles
      requires Valid()
    {
      AsNibbles(data)[offset..]
    }

    lemma ViewAt(i: nat)
      requires Valid() && i < Size()
      ensures View()[i] == At(i)
    {
      AsNibblesAt(data, offset + i);
    }

    method CountShared(k: NibbleSlice) returns (ret: nat)
      requires Valid() && k.Valid()
      ensures ret == Shared(View(), k.View())
    {
      ret := 0;
      while ret < Size() && ret < k.Size() && At(ret) == k.At(ret)
        invariant ret <= Size() && ret <= k.Size()
        invariant forall j :: 0 <= j < ret ==> View()[j] == k.View()[j]
        decreases Size() - ret
      {
        ViewAt(ret);
        k.ViewAt(ret);
        ret := ret + 1;
      }
      if ret < Size() && ret < k.Size() {
        ViewAt(ret);
        k.ViewAt(ret);
      }
      SharedIs(View(), k.View(), ret);
    }

    method IsEarlierThan(k: NibbleSlice) returns (r: bool)
      requires Valid() && k.Valid()
      ensures r <==> Earlier(View(), k.View())
    {
      var i := 0;
      while i < k.Size() && i < Size()
        invariant i <= k.Size() && i <= Size()
        invariant forall j :: 0 <= j < i ==> View()[j] == k.View()[j]
        decreases k.Size() - i
      {
        ViewAt(i);
        k.ViewAt(i);
        if At(i) < k.At(i) {
          SharedIs(View(), k.View(), i);
          return true;
        } else if At(i) > k.At(i) {
          SharedIs(View(), k.View(), i);
          return false;
        }
        i := i + 1;
      }
      SharedIs(View(), k.View(), i);
      return i < k.Size();
    }
  }

  /** The first place where two sequences part is how many elements they share. */
  lemma {:induction false} SharedIs(a: Nibbles, b: Nibbles, n: nat)
    requires n <= |a| && n <= |b|
    requires forall j :: 0 <= j < n ==> a[j] == b[j]
    requires n < |a| && n < |b| ==> a[n] != b[n]
    ensures Shared(a, b) == n
  {
    if n > 0 {
      SharedIs(a[1..], b[1..], n - 1);
    }
  }
}
