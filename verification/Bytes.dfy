/** Bytes, nibbles and byte strings, the vocabulary shared by every module. */
module Bytes {

  type byte = x: int | 0 <= x < 256
  type nibble = x: int | 0 <= x < 16

  type bytes = seq<byte>
  type Nibbles = seq<nibble>

  /** `p` is a prefix of `k` and shorter than it. */
  predicate ProperPrefix<T(==)>(p: seq<T>, k: seq<T>) {
    |p| < |k| && p == k[..|p|]
  }

  /** The number of leading elements that `a` and `b` share. */
  function Shared<T(==)>(a: seq<T>, b: seq<T>): (n: nat)
    ensures n <= |a| && n <= |b|
    ensures a[..n] == b[..n]
    ensures n < |a| && n < |b| ==> a[n] != b[n]
  {
    if a != [] && b != [] && a[0] == b[0] then
      var n := 1 + Shared(a[1..], b[1..]);
      assert a[..n] == [a[0]] + a[1..][..n - 1];
      assert b[..n] == [b[0]] + b[1..][..n - 1];
      n
    else 0
  }

  /** Lexicographic order of byte strings. */
  predicate Precedes(a: bytes, b: bytes) {
    var n := Shared(a, b);
    n < |b| && (n < |a| ==> a[n] < b[n])
  }

  /** The first letters decide, where they are the same the rest does, and a prefix comes first. */
  lemma {:induction false} PrecedesByLetters(a: bytes, b: bytes)
    ensures Precedes(a, b) <==> b != [] && (a == [] || a[0] < b[0] || (a[0] == b[0] && Precedes(a[1..], b[1..])))
  {
  }

  lemma HeadTail<T>(s: seq<T>)
    requires s != []
    ensures s == [s[0]] + s[1..]
  {
  }

  lemma Assoc<T>(a: seq<T>, b: seq<T>, c: seq<T>)
    ensures a + b + c == a + (b + c)
  {
  }

  lemma SplitConcat<T>(a: seq<T>, b: seq<T>)
    ensures (a + b)[..|a|] == a && (a + b)[|a|..] == b
  {
  }

  lemma SliceOfDrop<T>(s: seq<T>, o: nat, b: nat, e: nat)
    requires o + e <= |s| && b <= e
    ensures s[o..][b..e] == s[o + b..o + e]
  {
  }

  lemma SpliceUpdate<T>(s: seq<T>, b: nat, x: T)
    requires b < |s|
    ensures [] + s[0..b] + [x] + s[b + 1..|s|] == s[b := x]
  {
  }
}
