/** 32-bit words as little-endian columns of four bytes. */
module Words {
  import opened Gf256
  import opened AesSpec

  function Pack(c: Col): bv32 {
    (c.b0 as bv32) | ((c.b1 as bv32) << 8) | ((c.b2 as bv32) << 16) | ((c.b3 as bv32) << 24)
  }

  /** The four bytes of a word, least significant first. */
  function Unpack(x: bv32): Col {
    Col((x & 0xff) as bv8, ((x >> 8) & 0xff) as bv8, ((x >> 16) & 0xff) as bv8, (x >> 24) as bv8)
  }

  function RotlByte(x: bv32): bv32 { (x << 8) | (x >> 24) }

  function RotlHalf(x: bv32): bv32 { (x << 16) | (x >> 16) }

  function RotrByte(x: bv32): bv32 { (x >> 8) | (x << 24) }

  lemma UnpackPack(c: Col)
    ensures Unpack(Pack(c)) == c
  {
  }

  lemma PackUnpack(x: bv32)
    ensures Pack(Unpack(x)) == x
  {
  }

  lemma PackXor(c: Col, k: Col)
    ensures Pack(c) ^ Pack(k) == Pack(Xor(c, k))
  {
  }

  function Xor2(x: bv32, y: bv32): bv32 { x ^ y }

  lemma PackXor2(c: Col, k: Col)
    ensures Xor2(Pack(c), Pack(k)) == Pack(Xor(c, k))
  {
    PackXor(c, k);
  }

  lemma UnpackXor(x: bv32, y: bv32)
    ensures Unpack(Xor2(x, y)) == Xor(Unpack(x), Unpack(y))
  {
    PackUnpack(x); PackUnpack(y);
    PackXor2(Unpack(x), Unpack(y));
    UnpackPack(Xor(Unpack(x), Unpack(y)));
  }

  lemma UnpackRotr(x: bv32)
    ensures Unpack(RotrByte(x)) == RotWord(Unpack(x))
  {
    PackUnpack(x);
    RotrPack(Unpack(x));
    UnpackPack(RotWord(Unpack(x)));
  }

  lemma RotlPack(c: Col)
    ensures RotlByte(Pack(c)) == Pack(Col(c.b3, c.b0, c.b1, c.b2))
  {
  }

  lemma RotrPack(c: Col)
    ensures RotrByte(Pack(c)) == Pack(RotWord(c))
  {
  }

  lemma RotlHalfPack(c: Col)
    ensures RotlHalf(Pack(c)) == Pack(Col(c.b2, c.b3, c.b0, c.b1))
  {
  }

  lemma AddChain(a: bv8, b: bv8, c: bv8, d: bv8)
    ensures Add(Add(Add(a, b), c), d) == Add4(a, b, c, d)
  {
    assert ((a ^ b) ^ c) ^ d == (a ^ b) ^ (c ^ d);
  }

  lemma Add4Rotate(a: bv8, b: bv8, c: bv8, d: bv8)
    ensures Add4(a, b, c, d) == Add4(b, c, d, a)
  {
    Add22Is(a, b, c, d); Add22Is(b, c, d, a);
    assert a ^ b ^ c ^ d == b ^ c ^ d ^ a;
  }

  function Xor4(a: bv32, b: bv32, c: bv32, d: bv32): bv32 { a ^ b ^ c ^ d }

  /** The sum of four packed columns, each row read from its own starting column. */
  lemma PackSum(a: Col, b: Col, c: Col, d: Col)
    ensures Xor4(Pack(a), Pack(b), Pack(c), Pack(d))
         == Pack(Col(Add4(a.b0, b.b0, c.b0, d.b0), Add4(b.b1, c.b1, d.b1, a.b1),
                     Add4(c.b2, d.b2, a.b2, b.b2), Add4(d.b3, a.b3, b.b3, c.b3)))
  {
    PackXor(a, b); PackXor(Xor(a, b), c); PackXor(Xor(Xor(a, b), c), d);
    AddChain(a.b0, b.b0, c.b0, d.b0);
    AddChain(a.b1, b.b1, c.b1, d.b1); Add4Rotate(a.b1, b.b1, c.b1, d.b1);
    AddChain(a.b2, b.b2, c.b2, d.b2); Add4Rotate(a.b2, b.b2, c.b2, d.b2); Add4Rotate(b.b2, c.b2, d.b2, a.b2);
    AddChain(a.b3, b.b3, c.b3, d.b3); Add4Rotate(d.b3, a.b3, b.b3, c.b3);
  }
}
