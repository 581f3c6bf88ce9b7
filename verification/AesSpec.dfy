/** AES as FIPS 197 states it, byte by byte: SubBytes, ShiftRows, MixColumns, the key
    expansion, Cipher (section 5.1) and InvCipher (section 5.3). */
module AesSpec {
  import opened Gf256
  import opened RoundCipher

  /** One column of the state; b0 is row 0. */
  datatype Col = Col(b0: bv8, b1: bv8, b2: bv8, b3: bv8)

  datatype State = State(c0: Col, c1: Col, c2: Col, c3: Col)

  function Xor(a: Col, b: Col): Col {
    Col(Add(a.b0, b.b0), Add(a.b1, b.b1), Add(a.b2, b.b2), Add(a.b3, b.b3))
  }

  function AddRoundKey(s: State, k: State): State {
    State(Xor(s.c0, k.c0), Xor(s.c1, k.c1), Xor(s.c2, k.c2), Xor(s.c3, k.c3))
  }

  // ---- SubBytes (sections 5.1.1 and 5.3.2) ----

  ghost function Inverse(b: bv8): (p: bv8)
    ensures b != 0 ==> Mul(b, p) == 1
    ensures b == 0 ==> p == 0
  {
    if b == 0 then 0 else
      InverseExists(b);
      var p :| Mul(b, p) == 1; p
  }

  function Rotl8(p: bv8, n: nat): bv8
    requires n <= 8
  {
    (p << n) | (p >> (8 - n))
  }

  /** The affine map of section 5.1.1: bit i is b_i + b_(i+4) + b_(i+5) + b_(i+6) + b_(i+7) + c_i. */
  function Affine(p: bv8): bv8 {
    p ^ Rotl8(p, 1) ^ Rotl8(p, 2) ^ Rotl8(p, 3) ^ Rotl8(p, 4) ^ 0x63
  }

  function InvAffine(p: bv8): bv8 {
    Rotl8(p, 1) ^ Rotl8(p, 3) ^ Rotl8(p, 6) ^ 0x05
  }

  ghost function SubByte(b: bv8): bv8 { Affine(Inverse(b)) }

  ghost function InvSubByte(b: bv8): bv8 { Inverse(InvAffine(b)) }

  lemma InverseInvolution(b: bv8)
    ensures Inverse(Inverse(b)) == b
  {
    if b != 0 {
      NonZero(b, Inverse(b));
      InverseUnique(Inverse(b), Inverse(Inverse(b)), b);
    }
  }

  lemma InvAffineOfAffine(p: bv8)
    ensures InvAffine(Affine(p)) == p
  {
  }

  lemma AffineOfInvAffine(p: bv8)
    ensures Affine(InvAffine(p)) == p
  {
  }

  /** The S-box is a permutation. */
  lemma SubByteInverse(b: bv8)
    ensures InvSubByte(SubByte(b)) == b && SubByte(InvSubByte(b)) == b
  {
    InvAffineOfAffine(Inverse(b));
    AffineOfInvAffine(b);
    InverseInvolution(b);
    InverseInvolution(InvAffine(b));
  }

  ghost function SubWord(c: Col): Col {
    Col(SubByte(c.b0), SubByte(c.b1), SubByte(c.b2), SubByte(c.b3))
  }

  ghost function InvSubWord(c: Col): Col {
    Col(InvSubByte(c.b0), InvSubByte(c.b1), InvSubByte(c.b2), InvSubByte(c.b3))
  }

  ghost function SubBytes(s: State): State {
    State(SubWord(s.c0), SubWord(s.c1), SubWord(s.c2), SubWord(s.c3))
  }

  ghost function InvSubBytes(s: State): State {
    State(InvSubWord(s.c0), InvSubWord(s.c1), InvSubWord(s.c2), InvSubWord(s.c3))
  }

  // ---- ShiftRows (sections 5.1.2 and 5.3.1) ----

  function ShiftRows(s: State): State {
    State(Col(s.c0.b0, s.c1.b1, s.c2.b2, s.c3.b3), Col(s.c1.b0, s.c2.b1, s.c3.b2, s.c0.b3),
          Col(s.c2.b0, s.c3.b1, s.c0.b2, s.c1.b3), Col(s.c3.b0, s.c0.b1, s.c1.b2, s.c2.b3))
  }

  function InvShiftRows(s: State): State {
    State(Col(s.c0.b0, s.c3.b1, s.c2.b2, s.c1.b3), Col(s.c1.b0, s.c0.b1, s.c3.b2, s.c2.b3),
          Col(s.c2.b0, s.c1.b1, s.c0.b2, s.c3.b3), Col(s.c3.b0, s.c2.b1, s.c1.b2, s.c0.b3))
  }

  // ---- MixColumns (sections 5.1.3 and 5.3.3) ----

  function Add4(a: bv8, b: bv8, c: bv8, d: bv8): bv8 { Add(Add(a, b), Add(c, d)) }

  function MixRow(a: bv8, b: bv8, c: bv8, d: bv8): bv8 { Add4(Mul(a, 2), Mul(b, 3), c, d) }

  function InvMixRow(a: bv8, b: bv8, c: bv8, d: bv8): bv8 {
    Add4(Mul(a, 14), Mul(b, 11), Mul(c, 13), Mul(d, 9))
  }

  function MixColumn(c: Col): Col {
    Col(MixRow(c.b0, c.b1, c.b2, c.b3), MixRow(c.b1, c.b2, c.b3, c.b0),
        MixRow(c.b2, c.b3, c.b0, c.b1), MixRow(c.b3, c.b0, c.b1, c.b2))
  }

  function InvMixColumn(c: Col): Col {
    Col(InvMixRow(c.b0, c.b1, c.b2, c.b3), InvMixRow(c.b1, c.b2, c.b3, c.b0),
        InvMixRow(c.b2, c.b3, c.b0, c.b1), InvMixRow(c.b3, c.b0, c.b1, c.b2))
  }

  function MixColumns(s: State): State {
    State(MixColumn(s.c0), MixColumn(s.c1), MixColumn(s.c2), MixColumn(s.c3))
  }

  function InvMixColumns(s: State): State {
    State(InvMixColumn(s.c0), InvMixColumn(s.c1), InvMixColumn(s.c2), InvMixColumn(s.c3))
  }

  // ---- Key expansion (section 5.2) ----

  type Key = k: seq<Col> | |k| == 4 || |k| == 6 || |k| == 8 witness seq(4, _ => Col(0, 0, 0, 0))

  function RotWord(c: Col): Col { Col(c.b1, c.b2, c.b3, c.b0) }

  /** x^n. */
  function XPower(n: nat): bv8 { if n == 0 then 1 else XTime(XPower(n - 1)) }

  function Rcon(j: nat): Col
    requires j > 0
  {
    Col(XPower(j - 1), 0, 0, 0)
  }

  ghost function ExpandedWord(key: Key, i: nat): Col {
    if i < |key| then key[i] else
      var t := ExpandedWord(key, i - 1);
      Xor(if i % |key| == 0 then Xor(SubWord(RotWord(t)), Rcon(i / |key|))
          else if |key| > 6 && i % |key| == 4 then SubWord(t) else t,
          ExpandedWord(key, i - |key|))
  }

  ghost function RoundKey(key: Key, r: nat): State {
    State(ExpandedWord(key, 4 * r), ExpandedWord(key, 4 * r + 1),
          ExpandedWord(key, 4 * r + 2), ExpandedWord(key, 4 * r + 3))
  }

  /** ks holds the round keys of one key, in order. */
  ghost predicate IsKeySchedule(key: Key, ks: seq<State>) {
    |ks| == |key| + 7 && forall r: nat {:trigger KeyAt(key, ks, r)} :: r < |ks| ==> KeyAt(key, ks, r)
  }

  ghost predicate KeyAt(key: Key, ks: seq<State>, r: nat)
    requires r < |ks|
  {
    ks[r] == RoundKey(key, r)
  }

  ghost function KeySchedule(key: Key): (ks: seq<State>)
    ensures IsKeySchedule(key, ks)
  {
    seq(|key| + 7, r requires r >= 0 => RoundKey(key, r))
  }

  // ---- Every step of the cipher has its inverse ----

  lemma XorTwice(a: Col, k: Col)
    ensures Xor(Xor(a, k), k) == a
  {
  }

  lemma AddRoundKeyTwice(s: State, k: State)
    ensures AddRoundKey(AddRoundKey(s, k), k) == s
  {
    XorTwice(s.c0, k.c0); XorTwice(s.c1, k.c1); XorTwice(s.c2, k.c2); XorTwice(s.c3, k.c3);
  }

  lemma SubBytesInverse(s: State)
    ensures InvSubBytes(SubBytes(s)) == s && SubBytes(InvSubBytes(s)) == s
  {
    forall b: bv8 ensures InvSubByte(SubByte(b)) == b && SubByte(InvSubByte(b)) == b { SubByteInverse(b); }
  }

  /** Products by the constants of MixColumns and InvMixColumns, in terms of XTime. */
  lemma SmallProducts(s: bv8)
    ensures var x := XTime(s); var xx := XTime(x); var xxx := XTime(xx);
            Mul(s, 2) == x && Mul(s, 3) == Add(s, x) && Mul(s, 9) == Add(s, xxx) &&
            Mul(s, 11) == Add(s, Add(x, xxx)) && Mul(s, 13) == Add(s, Add(xx, xxx)) &&
            Mul(s, 14) == Add(x, Add(xx, xxx))
  {
    var x := XTime(s); var xx := XTime(x); var xxx := XTime(xx);
    MulBitsZero(6, xx); MulBitsZero(4, XTime(xxx));
    assert x ^ 0 == x && xxx ^ 0 == xxx;
    assert MulBits(5, xxx, 1) == xxx;
    assert MulBits(6, xx, 2) == xxx;
    assert MulBits(6, xx, 3) == Add(xx, xxx);
    assert MulBits(7, x, 1) == x;
    assert MulBits(7, x, 4) == xxx;
    assert MulBits(7, x, 5) == Add(x, xxx);
    assert MulBits(7, x, 6) == Add(xx, xxx);
    assert MulBits(7, x, 7) == Add(x, Add(xx, xxx));
  }

  lemma Add4Add(a: bv8, b: bv8, c: bv8, d: bv8, a': bv8, b': bv8, c': bv8, d': bv8)
    ensures Add4(Add(a, a'), Add(b, b'), Add(c, c'), Add(d, d')) == Add(Add4(a, b, c, d), Add4(a', b', c', d'))
  {
    AddSwap(a, a', b, b'); AddSwap(c, c', d, d');
    AddSwap(Add(a, b), Add(a', b'), Add(c, d), Add(c', d'));
  }

  lemma MixRowAdd(a: bv8, b: bv8, c: bv8, d: bv8, a': bv8, b': bv8, c': bv8, d': bv8)
    ensures MixRow(Add(a, a'), Add(b, b'), Add(c, c'), Add(d, d')) == Add(MixRow(a, b, c, d), MixRow(a', b', c', d'))
  {
    MulAdd(a, a', 2); MulAdd(b, b', 3);
    Add4Add(Mul(a, 2), Mul(b, 3), c, d, Mul(a', 2), Mul(b', 3), c', d');
  }

  lemma InvMixRowAdd(a: bv8, b: bv8, c: bv8, d: bv8, a': bv8, b': bv8, c': bv8, d': bv8)
    ensures InvMixRow(Add(a, a'), Add(b, b'), Add(c, c'), Add(d, d'))
         == Add(InvMixRow(a, b, c, d), InvMixRow(a', b', c', d'))
  {
    MulAdd(a, a', 14); MulAdd(b, b', 11); MulAdd(c, c', 13); MulAdd(d, d', 9);
    Add4Add(Mul(a, 14), Mul(b, 11), Mul(c, 13), Mul(d, 9), Mul(a', 14), Mul(b', 11), Mul(c', 13), Mul(d', 9));
  }

  /** MixColumn and InvMixColumn are linear. */
  lemma MixColumnXor(c: Col, k: Col)
    ensures MixColumn(Xor(c, k)) == Xor(MixColumn(c), MixColumn(k))
  {
    MixRowAdd(c.b0, c.b1, c.b2, c.b3, k.b0, k.b1, k.b2, k.b3);
      MixRowAdd(c.b1, c.b2, c.b3, c.b0, k.b1, k.b2, k.b3, k.b0);
    MixRowAdd(c.b2, c.b3, c.b0, c.b1, k.b2, k.b3, k.b0, k.b1);
      MixRowAdd(c.b3, c.b0, c.b1, c.b2, k.b3, k.b0, k.b1, k.b2);
  }

  lemma InvMixColumnXor(c: Col, k: Col)
    ensures InvMixColumn(Xor(c, k)) == Xor(InvMixColumn(c), InvMixColumn(k))
  {
    InvMixRowAdd(c.b0, c.b1, c.b2, c.b3, k.b0, k.b1, k.b2, k.b3);
    InvMixRowAdd(c.b1, c.b2, c.b3, c.b0, k.b1, k.b2, k.b3, k.b0);
    InvMixRowAdd(c.b2, c.b3, c.b0, c.b1, k.b2, k.b3, k.b0, k.b1);
    InvMixRowAdd(c.b3, c.b0, c.b1, c.b2, k.b3, k.b0, k.b1, k.b2);
  }

  lemma Add3Is(a: bv8, b: bv8, c: bv8)
    ensures Add(a, Add(b, c)) == a ^ b ^ c
  {
  }

  lemma Add22Is(a: bv8, b: bv8, c: bv8, d: bv8)
    ensures Add(Add(a, b), Add(c, d)) == a ^ b ^ c ^ d
  {
  }

  lemma Add33Is(a: bv8, b: bv8, c: bv8, d: bv8, e: bv8, f: bv8)
    ensures Add(Add(a, Add(b, c)), Add(d, Add(e, f))) == a ^ b ^ c ^ d ^ e ^ f
  {
    Add3Is(a, b, c); Add3Is(d, e, f);
    assert (a ^ b ^ c) ^ (d ^ e ^ f) == a ^ b ^ c ^ d ^ e ^ f;
  }

  // The rows of InvMixColumn applied to the column 2s, s, s, 3s, with xk standing for x^k s.

  lemma Cancel0(s: bv8, x1: bv8, x2: bv8, x3: bv8, x4: bv8, p: bv8, q: bv8, r: bv8, t: bv8)
    requires p == x2 ^ x3 ^ x4 && q == s ^ x1 ^ x3 && r == s ^ x2 ^ x3 && t == s ^ x3 ^ x1 ^ x4
    ensures p ^ q ^ r ^ t == s
  {
  }

  lemma Cancel1(s: bv8, x1: bv8, x2: bv8, x3: bv8, x4: bv8, p: bv8, q: bv8, r: bv8, t: bv8)
    requires p == x1 ^ x2 ^ x3 && q == s ^ x1 ^ x3 && r == s ^ x2 ^ x3 ^ x1 ^ x3 ^ x4 && t == x1 ^ x4
    ensures p ^ q ^ r ^ t == 0
  {
  }

  lemma Cancel2(s: bv8, x1: bv8, x2: bv8, x3: bv8, x4: bv8, p: bv8, q: bv8, r: bv8, t: bv8)
    requires p == x1 ^ x2 ^ x3 && q == s ^ x1 ^ x3 ^ x1 ^ x2 ^ x4 && r == x1 ^ x3 ^ x4 && t == s ^ x3
    ensures p ^ q ^ r ^ t == 0
  {
  }

  lemma Cancel3(s: bv8, x1: bv8, x2: bv8, x3: bv8, x4: bv8, p: bv8, q: bv8, r: bv8, t: bv8)
    requires p == x1 ^ x2 ^ x3 ^ x2 ^ x3 ^ x4 && q == x1 ^ x2 ^ x4 && r == s ^ x2 ^ x3 && t == s ^ x3
    ensures p ^ q ^ r ^ t == 0
  {
  }

  lemma Row0(s: bv8, x1: bv8, x2: bv8, x3: bv8, x4: bv8)
    ensures Add4(Add(x2, Add(x3, x4)), Add(s, Add(x1, x3)), Add(s, Add(x2, x3)), Add(Add(s, x3), Add(x1, x4))) == s
  {
    Add3Is(x2, x3, x4); Add3Is(s, x1, x3); Add3Is(s, x2, x3); Add22Is(s, x3, x1, x4);
    Cancel0(s, x1, x2, x3, x4, Add(x2, Add(x3, x4)), Add(s, Add(x1, x3)), Add(s, Add(x2, x3)),
      Add(Add(s, x3), Add(x1, x4)));
    Add22Is(Add(x2, Add(x3, x4)), Add(s, Add(x1, x3)), Add(s, Add(x2, x3)), Add(Add(s, x3), Add(x1, x4)));
  }

  lemma Row1(s: bv8, x1: bv8, x2: bv8, x3: bv8, x4: bv8)
    ensures Add4(Add(x1, Add(x2, x3)), Add(s, Add(x1, x3)), Add(Add(s, Add(x2, x3)), Add(x1, Add(x3, x4))), Add(x1, x4))
            == 0
  {
    Add3Is(x1, x2, x3); Add3Is(s, x1, x3); Add33Is(s, x2, x3, x1, x3, x4);
    Cancel1(s, x1, x2, x3, x4, Add(x1, Add(x2, x3)), Add(s, Add(x1, x3)),
      Add(Add(s, Add(x2, x3)), Add(x1, Add(x3, x4))), Add(x1, x4));
    Add22Is(Add(x1, Add(x2, x3)), Add(s, Add(x1, x3)), Add(Add(s, Add(x2, x3)), Add(x1, Add(x3, x4))), Add(x1, x4));
  }

  lemma Row2(s: bv8, x1: bv8, x2: bv8, x3: bv8, x4: bv8)
    ensures Add4(Add(x1, Add(x2, x3)), Add(Add(s, Add(x1, x3)), Add(x1, Add(x2, x4))), Add(x1, Add(x3, x4)), Add(s, x3))
            == 0
  {
    Add3Is(x1, x2, x3); Add33Is(s, x1, x3, x1, x2, x4); Add3Is(x1, x3, x4);
    Cancel2(s, x1, x2, x3, x4, Add(x1, Add(x2, x3)), Add(Add(s, Add(x1, x3)), Add(x1, Add(x2, x4))),
      Add(x1, Add(x3, x4)), Add(s, x3));
    Add22Is(Add(x1, Add(x2, x3)), Add(Add(s, Add(x1, x3)), Add(x1, Add(x2, x4))), Add(x1, Add(x3, x4)), Add(s, x3));
  }

  lemma Row3(s: bv8, x1: bv8, x2: bv8, x3: bv8, x4: bv8)
    ensures Add4(Add(Add(x1, Add(x2, x3)), Add(x2, Add(x3, x4))), Add(x1, Add(x2, x4)), Add(s, Add(x2, x3)), Add(s, x3))
            == 0
  {
    Add33Is(x1, x2, x3, x2, x3, x4); Add3Is(x1, x2, x4); Add3Is(s, x2, x3);
    Cancel3(s, x1, x2, x3, x4, Add(Add(x1, Add(x2, x3)), Add(x2, Add(x3, x4))), Add(x1, Add(x2, x4)),
      Add(s, Add(x2, x3)), Add(s, x3));
    Add22Is(Add(Add(x1, Add(x2, x3)), Add(x2, Add(x3, x4))), Add(x1, Add(x2, x4)), Add(s, Add(x2, x3)), Add(s, x3));
  }

  lemma InvMixOfMixed(s: bv8)
    ensures var d := Mul(s, 2); var t := Mul(s, 3);
            InvMixRow(d, s, s, t) == s && InvMixRow(s, s, t, d) == 0 &&
            InvMixRow(s, t, d, s) == 0 && InvMixRow(t, d, s, s) == 0
  {
    var x1 := XTime(s); var x2 := XTime(x1); var x3 := XTime(x2);
    SmallProducts(s); SmallProducts(x1);
    MulAdd(s, x1, 9); MulAdd(s, x1, 11); MulAdd(s, x1, 13); MulAdd(s, x1, 14);
    var x4 := XTime(x3);
    Row0(s, x1, x2, x3, x4); Row1(s, x1, x2, x3, x4); Row2(s, x1, x2, x3, x4); Row3(s, x1, x2, x3, x4);
  }

  lemma AddZero(a: bv8)
    ensures Add(a, 0) == a && Add(0, a) == a
  {
  }

  lemma MixUnit(s: bv8)
    ensures MixColumn(Col(s, 0, 0, 0)) == Col(Mul(s, 2), s, s, Mul(s, 3))
  {
    ZeroMulBits(8, 2); ZeroMulBits(8, 3);
    AddZero(0); AddZero(Mul(s, 2)); AddZero(s); AddZero(Mul(s, 3));
  }

  lemma UnitColumn(s: bv8)
    ensures InvMixColumn(MixColumn(Col(s, 0, 0, 0))) == Col(s, 0, 0, 0)
  {
    MixUnit(s);
    InvMixOfMixed(s);
  }

  /** InvMixColumn undoes MixColumn on this column. */
  ghost predicate Unmixed(c: Col) { InvMixColumn(MixColumn(c)) == c }

  /** Both column maps commute with rotation, so one unit column stands for all four. */
  lemma UnmixedRotWord(c: Col)
    requires Unmixed(c)
    ensures Unmixed(RotWord(c))
  {
    assert MixColumn(RotWord(c)) == RotWord(MixColumn(c));
    assert InvMixColumn(RotWord(MixColumn(c))) == RotWord(InvMixColumn(MixColumn(c)));
  }

  lemma UnmixedXor(c: Col, k: Col)
    requires Unmixed(c) && Unmixed(k)
    ensures Unmixed(Xor(c, k))
  {
    MixColumnXor(c, k);
    InvMixColumnXor(MixColumn(c), MixColumn(k));
  }

  lemma MixColumnInverse(c: Col)
    ensures InvMixColumn(MixColumn(c)) == c
  {
    var e0 := Col(c.b0, 0, 0, 0); var e1 := Col(c.b1, 0, 0, 0);
    var e2 := Col(c.b2, 0, 0, 0); var e3 := Col(c.b3, 0, 0, 0);
    UnitColumn(c.b0); UnitColumn(c.b1); UnitColumn(c.b2); UnitColumn(c.b3);
    UnmixedRotWord(e1); UnmixedRotWord(RotWord(e1)); UnmixedRotWord(RotWord(RotWord(e1)));
    UnmixedRotWord(e2); UnmixedRotWord(RotWord(e2));
    UnmixedRotWord(e3);
    var l := Xor(e0, RotWord(RotWord(RotWord(e1)))); var r := Xor(RotWord(RotWord(e2)), RotWord(e3));
    UnmixedXor(e0, RotWord(RotWord(RotWord(e1)))); UnmixedXor(RotWord(RotWord(e2)), RotWord(e3));
    UnmixedXor(l, r);
    AddZero(c.b0); AddZero(c.b1); AddZero(c.b2); AddZero(c.b3); AddZero(0);
    assert Xor(l, r) == c;
  }

  lemma InvMixColumnsXor(s: State, k: State)
    ensures InvMixColumns(AddRoundKey(s, k)) == AddRoundKey(InvMixColumns(s), InvMixColumns(k))
  {
    InvMixColumnXor(s.c0, k.c0); InvMixColumnXor(s.c1, k.c1);
    InvMixColumnXor(s.c2, k.c2); InvMixColumnXor(s.c3, k.c3);
  }

  lemma SubShiftUndone(s: State)
    ensures InvSubBytes(InvShiftRows(ShiftRows(SubBytes(s)))) == s
  {
    SubBytesInverse(s);
  }

  // ---- AES as a key-alternating cipher ----

  /** st are the steps of AES. */
  ghost predicate IsAes(st: Steps<State>) {
    forall s, k {:trigger AesAt(st, s, k)} :: AesAt(st, s, k)
  }

  ghost predicate AesAt(st: Steps<State>, s: State, k: State) {
    st.add(s, k) == AddRoundKey(s, k) && st.sub(s) == ShiftRows(SubBytes(s)) &&
    st.invSub(s) == InvSubBytes(InvShiftRows(s)) && st.mix(s) == MixColumns(s) && st.invMix(s) == InvMixColumns(s)
  }

  ghost function SubShift(s: State): State { ShiftRows(SubBytes(s)) }

  ghost function InvSubShift(s: State): State { InvSubBytes(InvShiftRows(s)) }

  ghost function AesSteps(): Steps<State> {
    Steps(AddRoundKey, SubShift, InvSubShift, MixColumns, InvMixColumns)
  }

  lemma AesStepsAreAes()
    ensures IsAes(AesSteps())
  {
    forall s, k ensures AesAt(AesSteps(), s, k) {}
  }

  lemma AesAdds(st: Steps<State>, s: State, k: State)
    requires IsAes(st)
    ensures st.add(s, k) == AddRoundKey(s, k)
  {
    assert AesAt(st, s, k);
  }

  lemma AesInvMixes(st: Steps<State>, s: State)
    requires IsAes(st)
    ensures st.invMix(s) == InvMixColumns(s)
  {
    assert AesAt(st, s, s);
  }

  lemma MixColumnsInverse(s: State)
    ensures InvMixColumns(MixColumns(s)) == s
  {
    MixColumnInverse(s.c0); MixColumnInverse(s.c1); MixColumnInverse(s.c2); MixColumnInverse(s.c3);
  }

  /** Every step of AES is invertible as section 5.3 claims. */
  lemma AesInvertible(st: Steps<State>)
    requires IsAes(st)
    ensures Invertible(st)
  {
    forall s: State, k: State ensures st.add(st.add(s, k), k) == s {
      assert AesAt(st, s, k) && AesAt(st, st.add(s, k), k);
      AddRoundKeyTwice(s, k);
    }
    forall s: State ensures st.invSub(st.sub(s)) == s {
      assert AesAt(st, s, s) && AesAt(st, st.sub(s), s);
      SubShiftUndone(s);
    }
    forall s: State ensures st.invMix(st.mix(s)) == s {
      assert AesAt(st, s, s) && AesAt(st, st.mix(s), s);
      MixColumnsInverse(s);
    }
    forall s: State, k: State ensures st.invMix(st.add(s, k)) == st.add(st.invMix(s), st.invMix(k)) {
      assert AesAt(st, s, k) && AesAt(st, k, s) && AesAt(st, st.add(s, k), k) && AesAt(st, st.invMix(s), st.invMix(k));
      InvMixColumnsXor(s, k);
    }
  }

  /** Decryption undoes encryption, for every key and block. */
  lemma DecryptUndoesEncrypt(st: Steps<State>, key: Key, ks: seq<State>, block: State)
    requires IsAes(st) && IsKeySchedule(key, ks)
    ensures InvCipher(st, ks, Cipher(st, ks, block)) == block
  {
    AesInvertible(st);
    InvCipherUndoesCipher(st, ks, block);
  }
}
