/** Small nodes, byte by byte. */
module TrieBytes {
  import opened Bytes
  import opened Rlp
  import opened RlpStream
  import opened TrieNode
  import opened TrieItem
  import HexPrefix

  /** A list of two items whose encodings are short. */
  lemma {:induction false} ShortPair(x: Item, y: Item)
    requires Fits(x) && Fits(y) && |Rlp.Encode(x)| + |Rlp.Encode(y)| <= 55
    ensures Fits(List([x, y]))
    ensures Rlp.Encode(List([x, y])) ==
      [192 + |Rlp.Encode(x)| + |Rlp.Encode(y)|] + (Rlp.Encode(x) + Rlp.Encode(y))
  {
    EncodeAllPair(x, y);
    assert SizeAll([x, y]) == |EncodeAll([x, y])|;
    EncodeNumerals(List([x, y]));
  }

  const SMALL: Node := Leaf([1], [0x78])

  /** A leaf with one nibble of a key and a value of one byte. */
  lemma {:induction false} SmallLeaf(h: Hasher)
    ensures
      var it := ItemOf(SMALL, h);
      Fits(it) && Rlp.Encode(it) == [0xc2, 0x31, 0x78] && Ref(SMALL, h) == it
  {
    HexPrefix.EncodeOddBytes([1], 0, true);
    var k, v := Data([0x31]), Data([0x78]);
    assert HexPrefix.Encode([1], true) == k.payload;
    EncodeNumerals(k);
    EncodeNumerals(v);
    ShortPair(k, v);
    RefByBytes(SMALL, h);
  }

  /** An extension with a leaf that is part of it. */
  lemma {:induction false} ExtensionExample(h: Hasher)
    ensures
      var it := ItemOf(Extension([6, 4], SMALL), h);
      Fits(it) && Rlp.Encode(it) == [0xc6, 0x82, 0x00, 0x64, 0xc2, 0x31, 0x78]
  {
    SmallLeaf(h);
    ExtensionKey();
    ShortPair(Data([0x00, 0x64]), ItemOf(SMALL, h));
  }

  lemma {:induction false} ExtensionKey()
    ensures HexPrefix.Encode([6, 4], false) == [0x00, 0x64]
    ensures Rlp.Encode(Data([0x00, 0x64])) == [0x82, 0x00, 0x64]
  {
    HexPrefix.EncodeEvenBytes([6, 4], 1, false);
    assert HexPrefix.Encode([6, 4], false)[1 + 0] == 0x64;
    EncodeNumerals(Data([0x00, 0x64]));
  }

  /** `n` times the byte of an empty string. */
  function Nulls(n: nat): (b: bytes)
    ensures |b| == n && forall i :: 0 <= i < n ==> b[i] == 0x80
  {
    if n == 0 then [] else [0x80] + Nulls(n - 1)
  }

  function Empties(n: nat): (ns: seq<Node>)
    ensures |ns| == n && forall i :: 0 <= i < n ==> ns[i] == Empty
  {
    if n == 0 then [] else [Empty] + Empties(n - 1)
  }

  lemma {:induction false} EmptiesBytes(n: nat, h: Hasher)
    ensures FitsAll(Refs(Empties(n), h)) && EncodeAll(Refs(Empties(n), h)) == Nulls(n)
  {
    if n > 0 {
      EmptiesBytes(n - 1, h);
      var rs := Refs(Empties(n), h);
      assert Empties(n)[1..] == Empties(n - 1);
      assert rs[0] == Ref(Empty, h) == NULL_ITEM && rs[1..] == Refs(Empties(n - 1), h);
      EncodeNumerals(NULL_ITEM);
    }
  }

  /** A branch with a leaf in slot 5 and a value: sixteen slots in order, then the value. */
  lemma {:induction false} BranchExample(h: Hasher)
    ensures
      var it := ItemOf(Branch(Empties(5) + [SMALL] + Empties(10), [0x79]), h);
      Fits(it) && Rlp.Encode(it) == [0xd3] + (Nulls(5) + [0xc2, 0x31, 0x78] + Nulls(10) + [0x79])
  {
    var items := Refs(Empties(5) + [SMALL] + Empties(10), h) + [Data([0x79])];
    BranchPayload(h);
    assert SizeAll(items) == |EncodeAll(items)| == 19;
    EncodeNumerals(List(items));
  }

  lemma {:induction false} BranchPayload(h: Hasher)
    ensures
      var items := Refs(Empties(5) + [SMALL] + Empties(10), h) + [Data([0x79])];
      FitsAll(items) && EncodeAll(items) == Nulls(5) + [0xc2, 0x31, 0x78] + Nulls(10) + [0x79]
  {
    var a, m, b, v := Refs(Empties(5), h), [Ref(SMALL, h)], Refs(Empties(10), h), [Data([0x79])];
    SmallLeaf(h);
    EmptiesBytes(5, h);
    EmptiesBytes(10, h);
    SingleBytes(Ref(SMALL, h));
    SingleBytes(Data([0x79]));
    RefsThree(Empties(5), SMALL, Empties(10), h);
    EncodeAllConcat(a, m);
    EncodeAllConcat(a + m, b);
    EncodeAllConcat(a + m + b, v);
  }

  lemma {:induction false} RefsThree(a: seq<Node>, n: Node, b: seq<Node>, h: Hasher)
    ensures Refs(a + [n] + b, h) == Refs(a, h) + [Ref(n, h)] + Refs(b, h)
  {
  }

  lemma {:induction false} SingleBytes(x: Item)
    requires Fits(x)
    ensures FitsAll([x]) && EncodeAll([x]) == Rlp.Encode(x)
  {
    assert [x][1..] == [];
  }
}
