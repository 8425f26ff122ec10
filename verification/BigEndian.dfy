/** Big-endian byte strings of natural numbers, the integer layer under RLP. */
module BigEndian {
  import opened Bytes

  /** The bytes of `n`, most significant first, without leading zeros. */
  function Compact(n: nat): (b: bytes)
    ensures n > 0 ==> b != [] && b[0] != 0
    ensures n == 0 <==> b == []
  {
    if n == 0 then [] else Compact(n / 256) + [n % 256]
  }

  /** The number that a byte string denotes. */
  function Value(b: bytes): (n: nat) {
    if b == [] then 0 else Value(b[..|b| - 1]) * 256 + b[|b| - 1]
  }

  function Width(n: nat): (w: nat)
    ensures w == |Compact(n)|
  {
    if n == 0 then 0 else 1 + Width(n / 256)
  }

  function Pow256(w: nat): (p: nat)
    ensures p > 0
  {
    if w == 0 then 1 else 256 * Pow256(w - 1)
  }

  /** The `w` low bytes of `n`, with leading zeros where `n` is shorter. */
  function Padded(n: nat, w: nat): (b: bytes)
    ensures |b| == w
  {
    if w == 0 then [] else Padded(n / 256, w - 1) + [n % 256]
  }

  lemma {:induction false} ValueOfCompact(n: nat)
    ensures Value(Compact(n)) == n
  {
    if n > 0 {
      ValueOfCompact(n / 256);
      var b := Compact(n);
      assert b[..|b| - 1] == Compact(n / 256);
    }
  }

  /** A byte string without a leading zero is the compact form of its value. */
  lemma {:induction false} CompactOfValue(b: bytes)
    requires b == [] || b[0] != 0
    ensures Compact(Value(b)) == b
  {
    if b != [] {
      var h := b[..|b| - 1];
      CompactOfValue(h);
      assert b == h + [b[|b| - 1]];
      assert Value(b) / 256 == Value(h) && Value(b) % 256 == b[|b| - 1];
      if h == [] { assert Value(b) == b[0] > 0; } else { ValuePositive(h); }
    }
  }

  lemma {:induction false} ValuePositive(b: bytes)
    requires b != [] && b[0] != 0
    ensures Value(b) > 0
  {
    if |b| > 1 { ValuePositive(b[..|b| - 1]); }
  }

  lemma {:induction false} WidthBound(n: nat, w: nat)
    ensures Width(n) <= w <==> n < Pow256(w)
  {
    if n > 0 && w > 0 { WidthBound(n / 256, w - 1); }
  }

  /** Keeping `w` bytes keeps the value modulo 256 to the `w`. */
  lemma {:induction false} ValueOfPadded(n: nat, w: nat)
    ensures Value(Padded(n, w)) == n % Pow256(w)
    decreases w
  {
    if w > 0 {
      var b := Padded(n, w);
      assert b[..|b| - 1] == Padded(n / 256, w - 1);
      ValueOfPadded(n / 256, w - 1);
      ModSplit(n, Pow256(w - 1));
    }
  }

  lemma ModSplit(n: nat, p: nat)
    requires p > 0
    ensures n % (256 * p) == (n / 256 % p) * 256 + n % 256
  {
    var q, r := n / 256, n % 256;
    var a, b := q / p, q % p;
    assert n == 256 * q + r && q == p * a + b;
    assert n == (256 * p) * a + (256 * b + r) by {
      assert 256 * (p * a) == (256 * p) * a;
    }
    assert 0 <= 256 * b + r < 256 * p;
    DivModUnique(n, 256 * p, a, 256 * b + r);
  }

  lemma MulMonotone(d: nat, a: nat, b: nat)
    requires a <= b
    ensures d * a <= d * b
  {
  }

  lemma DivModUnique(n: nat, d: nat, q: nat, r: nat)
    requires d > 0 && n == d * q + r && r < d
    ensures n / d == q && n % d == r
  {
    var q', r' := n / d, n % d;
    assert n == d * q' + r';
    if q' < q { MulMonotone(d, q' + 1, q); }
    if q < q' { MulMonotone(d, q + 1, q'); }
  }

  // --------------------------------------------- the loops of the source

  method BytesRequired(n: nat) returns (i: nat)
    ensures i == Width(n)
  {
    i := 0;
    var v := n;
    while v != 0
      invariant i + Width(v) == Width(n)
      decreases v
    {
      i, v := i + 1, v / 256;
    }
  }

  method FromBigEndian(b: bytes) returns (ret: nat)
    ensures ret == Value(b)
  {
    ret := 0;
    for i := 0 to |b|
      invariant ret == Value(b[..i])
    {
      ret := ret * 256 + b[i];
      assert b[..i + 1][..i] == b[..i];
    }
    assert b[..|b|] == b;
  }

  method ToBigEndian(n: nat, out: array<byte>)
    modifies out
    ensures out[..] == Padded(n, out.Length)
  {
    var v, i := n, out.Length;
    assert Padded(v, i) + out[i..] == Padded(v, i);
    while i != 0
      invariant 0 <= i <= out.Length
      invariant Padded(n, out.Length) == Padded(v, i) + out[i..]
    {
      ghost var tail := out[i..];
      out[i - 1] := v % 256;
      assert out[i - 1..] == [v % 256] + tail;
      assert Padded(v, i) + tail == Padded(v / 256, i - 1) + ([v % 256] + tail);
      v, i := v / 256, i - 1;
    }
  }

  lemma {:induction false} PaddedIsCompact(n: nat, w: nat)
    requires w == Width(n)
    ensures Padded(n, w) == Compact(n)
  {
    if n > 0 { PaddedIsCompact(n / 256, w - 1); }
  }

  lemma PaddedKeepsValue(n: nat, w: nat)
    requires Width(n) <= w
    ensures Value(Padded(n, w)) == n
  {
    WidthBound(n, w);
    ValueOfPadded(n, w);
    DivModUnique(n, Pow256(w), 0, n);
  }

  method ToCompactBigEndian(n: nat, min: nat) returns (ret: bytes)
    ensures Value(ret) == n
    ensures min <= Width(n) ==> ret == Compact(n)
    ensures |ret| == if min < Width(n) then Width(n) else min
  {
    var i := BytesRequired(n);
    var out := new byte[if min < i then i else min];
    ToBigEndian(n, out);
    ret := out[..];
    PaddedKeepsValue(n, out.Length);
    if min <= i { PaddedIsCompact(n, i); }
  }
}
