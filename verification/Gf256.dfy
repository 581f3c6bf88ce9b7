/** The field GF(2^8) of FIPS 197, section 4: bytes as polynomials over GF(2)
    modulo x^8 + x^4 + x^3 + x + 1, and the powers of its generator x + 1 = 3,
    on which the logarithm tables of the AES code are built. */
module Gf256 {

  function Add(a: bv8, b: bv8): bv8 { a ^ b }

  /** Multiplication by x (FIPS 197, section 4.2.1). */
  function XTime(a: bv8): bv8 {
    if a & 0x80 != 0 then (a << 1) ^ 0x1b else a << 1
  }

  /** The low n terms of the product: a * x^k for every set bit k < n of b. */
  function MulBits(n: nat, a: bv8, b: bv8): bv8 {
    if n == 0 then 0
    else if b & 1 != 0 then Add(a, MulBits(n - 1, XTime(a), b >> 1))
    else MulBits(n - 1, XTime(a), b >> 1)
  }

  /** Field multiplication (FIPS 197, section 4.2). */
  function Mul(a: bv8, b: bv8): bv8 { MulBits(8, a, b) }

  function Triple(a: bv8): bv8 { Add(a, XTime(a)) }

  /** 3^n. */
  function Power(n: nat): bv8 {
    if n == 0 then 1 else Triple(Power(n - 1))
  }

  lemma XTimeXor(a: bv8, b: bv8)
    ensures XTime(a ^ b) == XTime(a) ^ XTime(b)
  {
    if a & 0x80 != 0 {
      if b & 0x80 != 0 {} else {}
    } else if b & 0x80 != 0 {} else {}
  }

  lemma XTimeAdd(a: bv8, b: bv8)
    ensures XTime(Add(a, b)) == Add(XTime(a), XTime(b))
  {
    XTimeXor(a, b);
  }

  lemma AddSwap(a: bv8, b: bv8, c: bv8, d: bv8)
    ensures Add(Add(a, b), Add(c, d)) == Add(Add(a, c), Add(b, d))
  {
    assert (a ^ b) ^ (c ^ d) == (a ^ c) ^ (b ^ d);
  }

  lemma {:induction false} MulBitsXTime(n: nat, a: bv8, b: bv8)
    ensures MulBits(n, XTime(a), b) == XTime(MulBits(n, a, b))
  {
    if n > 0 {
      MulBitsXTime(n - 1, XTime(a), b >> 1);
      XTimeAdd(a, MulBits(n - 1, XTime(a), b >> 1));
    }
  }

  lemma {:induction false} MulBitsAdd(n: nat, a: bv8, c: bv8, b: bv8)
    ensures MulBits(n, Add(a, c), b) == Add(MulBits(n, a, b), MulBits(n, c, b))
  {
    if n > 0 {
      XTimeAdd(a, c);
      MulBitsAdd(n - 1, XTime(a), XTime(c), b >> 1);
      AddSwap(a, c, MulBits(n - 1, XTime(a), b >> 1), MulBits(n - 1, XTime(c), b >> 1));
    }
  }

  /** Multiplication distributes over addition. */
  lemma MulAdd(a: bv8, c: bv8, b: bv8)
    ensures Mul(Add(a, c), b) == Add(Mul(a, b), Mul(c, b))
  {
    MulBitsAdd(8, a, c, b);
  }

  lemma MulTriple(a: bv8, b: bv8)
    ensures Mul(Triple(a), b) == Triple(Mul(a, b))
  {
    MulBitsAdd(8, a, XTime(a), b);
    MulBitsXTime(8, a, b);
  }

  lemma MulOne(b: bv8)
    ensures Mul(1, b) == b
  {
    assert MulBits(1, 128, b >> 7) == b & 128;
    assert MulBits(2, 64, b >> 6) == b & 192;
    assert MulBits(3, 32, b >> 5) == b & 224;
    assert MulBits(4, 16, b >> 4) == b & 240;
    assert MulBits(5, 8, b >> 3) == b & 248;
    assert MulBits(6, 4, b >> 2) == b & 252;
    assert MulBits(7, 2, b >> 1) == b & 254;
  }

  /** Exponents add: the identity the logarithm tables rest on. */
  lemma {:induction false} PowerAdd(m: nat, n: nat)
    ensures Mul(Power(m), Power(n)) == Power(m + n)
  {
    if m == 0 {
      MulOne(Power(n));
    } else {
      PowerAdd(m - 1, n);
      MulTriple(Power(m - 1), Power(n));
    }
  }

  function Triple4(a: bv8): bv8 { Triple(Triple(Triple(Triple(a)))) }

  /** b is one of p, 3p, 9p and 27p. */
  predicate Near(b: bv8, p: bv8) {
    b == p || b == Triple(p) || b == Triple(Triple(p)) || b == Triple(Triple(Triple(p)))
  }

  lemma Row(b: bv8, n: nat, p: bv8)
    requires p == Power(n)
    ensures Power(n + 4) == Triple4(p)
    ensures Near(b, p) ==> exists k: nat :: k < n + 4 && b == Power(k)
  {
    assert Power(n + 1) == Triple(p);
    assert Power(n + 2) == Triple(Triple(p));
    assert Power(n + 3) == Triple(Triple(Triple(p)));
  }

  // The powers of 3, in four blocks of 64: each block lists every fourth power.

  predicate Block0(b: bv8) {
    Near(b, 0x01) || Near(b, 0x11) || Near(b, 0x1a) || Near(b, 0xa1) ||
    Near(b, 0x5f) || Near(b, 0xd8) || Near(b, 0xf7) || Near(b, 0x1e) ||
    Near(b, 0xe5) || Near(b, 0x37) || Near(b, 0x6a) || Near(b, 0x90) ||
    Near(b, 0x53) || Near(b, 0x14) || Near(b, 0x4f) || Near(b, 0xd3)
  }

  predicate Block1(b: bv8) {
    Near(b, 0x4c) || Near(b, 0xe0) || Near(b, 0x62) || Near(b, 0x18) ||
    Near(b, 0x83) || Near(b, 0x6b) || Near(b, 0x81) || Near(b, 0x49) ||
    Near(b, 0xb5) || Near(b, 0x10) || Near(b, 0x0b) || Near(b, 0xbb) ||
    Near(b, 0xfe) || Near(b, 0x87) || Near(b, 0x2f) || Near(b, 0xe9)
  }

  predicate Block2(b: bv8) {
    Near(b, 0xfb) || Near(b, 0xd2) || Near(b, 0x5d) || Near(b, 0xfa) ||
    Near(b, 0xc3) || Near(b, 0x47) || Near(b, 0x5b) || Near(b, 0x9c) ||
    Near(b, 0x9f) || Near(b, 0xac) || Near(b, 0x82) || Near(b, 0x7a) ||
    Near(b, 0x9b) || Near(b, 0xe8) || Near(b, 0xea) || Near(b, 0xc8)
  }

  predicate Block3(b: bv8) {
    Near(b, 0xfc) || Near(b, 0xa5) || Near(b, 0x1b) || Near(b, 0xb0) ||
    Near(b, 0x45) || Near(b, 0x79) || Near(b, 0xa8) || Near(b, 0xc6) ||
    Near(b, 0x12) || Near(b, 0x29) || Near(b, 0x8f) || Near(b, 0xa7) ||
    Near(b, 0x39) || Near(b, 0x84) || Near(b, 0x1c) || Near(b, 0xc7)
  }

  lemma Block0Powers(b: bv8)
    ensures Power(64) == 0x4c
    ensures Block0(b) ==> exists k: nat :: k < 256 && b == Power(k)
  {
    Row(b, 0, 0x01); Row(b, 4, 0x11); Row(b, 8, 0x1a); Row(b, 12, 0xa1);
    Row(b, 16, 0x5f); Row(b, 20, 0xd8); Row(b, 24, 0xf7); Row(b, 28, 0x1e);
    Row(b, 32, 0xe5); Row(b, 36, 0x37); Row(b, 40, 0x6a); Row(b, 44, 0x90);
    Row(b, 48, 0x53); Row(b, 52, 0x14); Row(b, 56, 0x4f); Row(b, 60, 0xd3);
  }

  lemma Block1Powers(b: bv8)
    requires Power(64) == 0x4c
    ensures Power(128) == 0xfb
    ensures Block1(b) ==> exists k: nat :: k < 256 && b == Power(k)
  {
    Row(b, 64, 0x4c); Row(b, 68, 0xe0); Row(b, 72, 0x62); Row(b, 76, 0x18);
    Row(b, 80, 0x83); Row(b, 84, 0x6b); Row(b, 88, 0x81); Row(b, 92, 0x49);
    Row(b, 96, 0xb5); Row(b, 100, 0x10); Row(b, 104, 0x0b); Row(b, 108, 0xbb);
    Row(b, 112, 0xfe); Row(b, 116, 0x87); Row(b, 120, 0x2f); Row(b, 124, 0xe9);
  }

  lemma Block2Powers(b: bv8)
    requires Power(128) == 0xfb
    ensures Power(192) == 0xfc
    ensures Block2(b) ==> exists k: nat :: k < 256 && b == Power(k)
  {
    Row(b, 128, 0xfb); Row(b, 132, 0xd2); Row(b, 136, 0x5d); Row(b, 140, 0xfa);
    Row(b, 144, 0xc3); Row(b, 148, 0x47); Row(b, 152, 0x5b); Row(b, 156, 0x9c);
    Row(b, 160, 0x9f); Row(b, 164, 0xac); Row(b, 168, 0x82); Row(b, 172, 0x7a);
    Row(b, 176, 0x9b); Row(b, 180, 0xe8); Row(b, 184, 0xea); Row(b, 188, 0xc8);
  }

  lemma Block3Powers(b: bv8)
    requires Power(192) == 0xfc
    ensures Power(252) == 0xc7
    ensures Block3(b) ==> exists k: nat :: k < 256 && b == Power(k)
  {
    Row(b, 192, 0xfc); Row(b, 196, 0xa5); Row(b, 200, 0x1b); Row(b, 204, 0xb0);
    Row(b, 208, 0x45); Row(b, 212, 0x79); Row(b, 216, 0xa8); Row(b, 220, 0xc6);
    Row(b, 224, 0x12); Row(b, 228, 0x29); Row(b, 232, 0x8f); Row(b, 236, 0xa7);
    Row(b, 240, 0x39); Row(b, 244, 0x84); Row(b, 248, 0x1c); Row(b, 252, 0xc7);
  }

  lemma Blocks(b: bv8)
    ensures Power(252) == 0xc7
    ensures Block0(b) || Block1(b) || Block2(b) || Block3(b) ==> exists k: nat :: k < 256 && b == Power(k)
  {
    Block0Powers(b); Block1Powers(b); Block2Powers(b); Block3Powers(b);
  }

  lemma SomeBlock(b: bv8)
    requires b != 0
    ensures Block0(b) || Block1(b) || Block2(b) || Block3(b)
  {
  }

  /** 3 generates the multiplicative group: every non-zero byte is a power of 3. */
  lemma Generator(b: bv8)
    requires b != 0
    ensures exists k: nat :: k < 256 && b == Power(k)
  {
    Blocks(b);
    SomeBlock(b);
  }

  lemma PowerOfOrder(b: bv8)
    ensures Power(255) == 1
  {
    Blocks(b);
    assert Power(254) == Triple(Triple(Power(252)));
  }

  /** The order of 3 divides 255. */
  lemma PowerCycle(n: nat)
    ensures Power(n + 255) == Power(n)
  {
    PowerOfOrder(0);
    PowerAdd(255, n);
    MulOne(Power(n));
  }

  /** The sum of two logarithms as the code forms it in one byte: the carry out of the byte
      is added back, which is reduction modulo 255. */
  function LogSum(i: nat, j: nat): nat
    requires i < 256 && j < 256
  {
    var c := if i + j < 256 then i + j else i + j - 256;
    if c < i then c + 1 else c
  }

  lemma ProductByLogs(i: nat, j: nat)
    requires i < 256 && j < 256
    ensures LogSum(i, j) < 256
    ensures Power(LogSum(i, j)) == Mul(Power(i), Power(j)) == Mul(Power(j), Power(i))
  {
    PowerAdd(i, j);
    PowerAdd(j, i);
    LogSumIs(i, j);
    if i + j >= 256 { PowerCycle(i + j - 255); }
  }

  lemma LogSumIs(i: nat, j: nat)
    requires i < 256 && j < 256
    ensures LogSum(i, j) == if i + j < 256 then i + j else i + j - 255
  {
  }

  /** Every non-zero byte has a multiplicative inverse. */
  lemma InverseExists(b: bv8)
    requires b != 0
    ensures exists p: bv8 :: Mul(b, p) == 1
  {
    Generator(b);
    var k: nat :| k < 256 && b == Power(k);
    PowerAdd(k, 255 * 2 - k);
    PowerCycle(255);
    PowerCycle(0);
    assert Mul(b, Power(510 - k)) == 1;
  }

  /** Multiplicative inverses are unique, on either side. */
  lemma InverseUnique(b: bv8, p: bv8, q: bv8)
    requires Mul(b, p) == 1
    requires Mul(b, q) == 1 || Mul(q, b) == 1
    ensures p == q
  {
    NonZero(b, p);
    NonZero(b, q);
    NonZero(q, b);
    Generator(b); Generator(p); Generator(q);
    var i: nat :| i < 256 && b == Power(i);
    var j: nat :| j < 256 && p == Power(j);
    var k: nat :| k < 256 && q == Power(k);
    PowerAdd(i, j); PowerAdd(i, k); PowerAdd(k, i);
    PowerAdd(k, i + j); PowerAdd(j, i + k);
    MulOneRight(p); MulOneRight(q);
  }

  lemma MulOneRight(a: bv8)
    ensures Mul(a, 1) == a
  {
    assert MulBits(7, XTime(a), 0) == 0 by { MulBitsZero(7, XTime(a)); }
    assert a ^ 0 == a;
  }

  lemma {:induction false} MulBitsZero(n: nat, a: bv8)
    ensures MulBits(n, a, 0) == 0
  {
    if n > 0 { MulBitsZero(n - 1, XTime(a)); }
  }

  lemma {:induction false} ZeroMulBits(n: nat, b: bv8)
    ensures MulBits(n, 0, b) == 0
  {
    if n > 0 { ZeroMulBits(n - 1, b >> 1); }
  }

  lemma NonZero(a: bv8, b: bv8)
    ensures Mul(a, b) == 1 ==> a != 0 && b != 0
  {
    ZeroMulBits(8, b);
    MulBitsZero(8, a);
  }
}
