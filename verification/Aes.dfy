/** ieee80211/aes.c: key setup and the table-driven cipher, against FIPS 197. */
module Aes {
  import opened Gf256
  import opened AesSpec
  import opened Words
  import opened AesTables
  import opened KeyExpansion

  // ---- The words looked up in one column add up to one column of the round ----

  lemma ForwardSum(c: Col)
    ensures Xor4(ForwardWord(c.b0), RotlByte(ForwardWord(c.b1)), RotlHalf(ForwardWord(c.b2)),
            RotrByte(ForwardWord(c.b3)))
         == Pack(MixColumn(c))
  {
    var k0 := Col(Mul(c.b0, 2), c.b0, c.b0, Mul(c.b0, 3));
    var k1 := Col(Mul(c.b1, 2), c.b1, c.b1, Mul(c.b1, 3));
    var k2 := Col(Mul(c.b2, 2), c.b2, c.b2, Mul(c.b2, 3));
    var k3 := Col(Mul(c.b3, 2), c.b3, c.b3, Mul(c.b3, 3));
    RotlPack(k1); RotlHalfPack(k2); RotrPack(k3);
    PackSum(k0, Col(k1.b3, k1.b0, k1.b1, k1.b2), Col(k2.b2, k2.b3, k2.b0, k2.b1), RotWord(k3));
  }

  lemma InverseSum(c: Col)
    ensures Xor4(InverseWord(c.b0), RotlByte(InverseWord(c.b1)), RotlHalf(InverseWord(c.b2)),
            RotrByte(InverseWord(c.b3)))
         == Pack(InvMixColumn(c))
  {
    var k0 := Col(Mul(c.b0, 14), Mul(c.b0, 9), Mul(c.b0, 13), Mul(c.b0, 11));
    var k1 := Col(Mul(c.b1, 14), Mul(c.b1, 9), Mul(c.b1, 13), Mul(c.b1, 11));
    var k2 := Col(Mul(c.b2, 14), Mul(c.b2, 9), Mul(c.b2, 13), Mul(c.b2, 11));
    var k3 := Col(Mul(c.b3, 14), Mul(c.b3, 9), Mul(c.b3, 13), Mul(c.b3, 11));
    RotlPack(k1); RotlHalfPack(k2); RotrPack(k3);
    PackSum(k0, Col(k1.b3, k1.b0, k1.b1, k1.b2), Col(k2.b2, k2.b3, k2.b0, k2.b1), RotWord(k3));
  }

  lemma LastSum(c: Col)
    ensures Xor4(LastWord(c.b0), RotlByte(LastWord(c.b1)), RotlHalf(LastWord(c.b2)), RotrByte(LastWord(c.b3)))
            == Pack(c)
  {
    RotlPack(Col(c.b1, 0, 0, 0)); RotlHalfPack(Col(c.b2, 0, 0, 0)); RotrPack(Col(c.b3, 0, 0, 0));
    PackSum(Col(c.b0, 0, 0, 0), Col(0, c.b1, 0, 0), Col(0, 0, c.b2, 0), Col(0, 0, 0, c.b3));
    AddZero(0); AddZero(c.b0); AddZero(c.b1); AddZero(c.b2); AddZero(c.b3);
  }

  /** One column from a family of tables: tab[0][c.b0] ^ tab[1][c.b1] ^ tab[2][c.b2] ^ tab[3][c.b3]. */
  function Lookup(tab: seq<Entry>, c: Col): bv32
    requires |tab| == 256
  {
    Xor4(tab[c.b0 as int].w0, tab[c.b1 as int].w1, tab[c.b2 as int].w2, tab[c.b3 as int].w3)
  }

  lemma LookupIs(tab: array<Entry>, c: Col)
    requires tab.Length == 256
    ensures Lookup(tab[..], c) == Xor4(At(tab, c.b0).w0, At(tab, c.b1).w1, At(tab, c.b2).w2, At(tab, c.b3).w3)
  {
    SeqAt(tab, c.b0); SeqAt(tab, c.b1); SeqAt(tab, c.b2); SeqAt(tab, c.b3);
  }

  lemma LookupAt(t: Tables, c: Col)
    requires t.Ready()
    ensures Lookup(t.ft[..], c)
            == Pack(MixColumn(Col(At(t.sbx, c.b0), At(t.sbx, c.b1), At(t.sbx, c.b2), At(t.sbx, c.b3))))
    ensures Lookup(t.fl[..], c) == Pack(Col(At(t.sbx, c.b0), At(t.sbx, c.b1), At(t.sbx, c.b2), At(t.sbx, c.b3)))
  {
    assert t.RoundsReadyAt(c.b0) && t.RoundsReadyAt(c.b1) && t.RoundsReadyAt(c.b2) && t.RoundsReadyAt(c.b3);
    var d := Col(At(t.sbx, c.b0), At(t.sbx, c.b1), At(t.sbx, c.b2), At(t.sbx, c.b3));
    ForwardSum(d); LookupIs(t.ft, c);
    LastSum(d); LookupIs(t.fl, c);
  }

  lemma LookupInverseAt(t: Tables, c: Col)
    requires t.Ready()
    ensures Lookup(t.it[..], c)
            == Pack(InvMixColumn(Col(At(t.isb, c.b0), At(t.isb, c.b1), At(t.isb, c.b2), At(t.isb, c.b3))))
    ensures Lookup(t.il[..], c) == Pack(Col(At(t.isb, c.b0), At(t.isb, c.b1), At(t.isb, c.b2), At(t.isb, c.b3)))
  {
    assert t.RoundsReadyAt(c.b0) && t.RoundsReadyAt(c.b1) && t.RoundsReadyAt(c.b2) && t.RoundsReadyAt(c.b3);
    var d := Col(At(t.isb, c.b0), At(t.isb, c.b1), At(t.isb, c.b2), At(t.isb, c.b3));
    InverseSum(d); LookupIs(t.it, c);
    LastSum(d); LookupIs(t.il, c);
  }

  lemma LookupForward(t: Tables, c: Col)
    requires t.Ready()
    ensures Unpack(Lookup(t.ft[..], c)) == MixColumn(SubWord(c))
    ensures Unpack(Lookup(t.fl[..], c)) == SubWord(c)
  {
    var d := Substituted(t, c);
    LookupAt(t, c);
    UnpackPack(MixColumn(d));
    UnpackPack(d);
  }

  lemma Substituted(t: Tables, c: Col) returns (d: Col)
    requires t.Ready()
    ensures d == Col(At(t.sbx, c.b0), At(t.sbx, c.b1), At(t.sbx, c.b2), At(t.sbx, c.b3)) == SubWord(c)
  {
    d := SubWord(c);
  }

  lemma LookupInverse(t: Tables, c: Col)
    requires t.Ready()
    ensures Unpack(Lookup(t.it[..], c)) == InvMixColumn(InvSubWord(c))
    ensures Unpack(Lookup(t.il[..], c)) == InvSubWord(c)
  {
    LookupInverseAt(t, c);
    var d := Col(At(t.isb, c.b0), At(t.isb, c.b1), At(t.isb, c.b2), At(t.isb, c.b3));
    assert d == InvSubWord(c);
    UnpackPack(InvMixColumn(d));
    UnpackPack(d);
  }

  // ---- imix_col ----

  /** star_x: multiplication by x in all four bytes of a word at once. */
  function StarX(x: bv32): bv32 { ((x & 0x7f7f7f7f) << 1) ^ (((x & 0x80808080) >> 7) * 0x1b) }

  function ImixCol(x: bv32): bv32 {
    var u := StarX(x);
    var v := StarX(u);
    var w := StarX(v);
    var t := Xor2(w, x);
    Xor2(Xor2(Xor2(u, v), w), Xor2(Xor2(RotrByte(Xor2(u, t)), RotlHalf(Xor2(v, t))), RotlByte(t)))
  }

  function Doubled(c: Col): Col { Col(XTime(c.b0), XTime(c.b1), XTime(c.b2), XTime(c.b3)) }

  /** XTime with the carry spread by shifts: 0x1b is bits 0, 1, 3 and 4. */
  function CarriedXTime(a: bv8): bv8 {
    var h := a >> 7;
    (a << 1) ^ h ^ (h << 1) ^ (h << 3) ^ (h << 4)
  }

  lemma XTimeCarried(a: bv8)
    ensures XTime(a) == CarriedXTime(a)
  {
    if a & 0x80 != 0 { assert a >> 7 == 1; } else { assert a >> 7 == 0; }
  }

  lemma StarXByBytes(a: bv8, b: bv8, c: bv8, d: bv8)
    ensures StarX(Pack(Col(a, b, c, d)))
         == Pack(Col(CarriedXTime(a), CarriedXTime(b), CarriedXTime(c), CarriedXTime(d)))
  {
  }

  lemma StarXDoubles(c: Col)
    ensures StarX(Pack(c)) == Pack(Doubled(c))
  {
    StarXByBytes(c.b0, c.b1, c.b2, c.b3);
    XTimeCarried(c.b0); XTimeCarried(c.b1); XTimeCarried(c.b2); XTimeCarried(c.b3);
  }

  lemma AddRegroup(a: bv8, b: bv8, c: bv8, d: bv8)
    ensures Add(a, Add(Add(b, c), d)) == Add4(a, b, c, d)
  {
    Add22Is(a, b, c, d); Add22Is(b, c, d, 0);
    assert a ^ ((b ^ c) ^ d) == a ^ b ^ c ^ d;
  }

  lemma AddRotate(a: bv8, b: bv8, c: bv8)
    ensures Add(b, Add(c, a)) == Add(a, Add(b, c))
    ensures Add(Add(a, b), c) == Add(a, Add(b, c))
    ensures Add(a, b) == Add(b, a)
  {
    Add3Is(b, c, a); Add3Is(a, b, c);
    assert b ^ c ^ a == a ^ b ^ c;
  }

  lemma ImixByte(s0: bv8, s1: bv8, s2: bv8, s3: bv8)
    ensures
      Add(Add(Add(XTime(s0), XTime(XTime(s0))), XTime(XTime(XTime(s0)))),
          Add(Add(Add(XTime(s1), Add(XTime(XTime(XTime(s1))), s1)),
                  Add(XTime(XTime(s2)), Add(XTime(XTime(XTime(s2))), s2))),
              Add(XTime(XTime(XTime(s3))), s3)))
      == InvMixRow(s0, s1, s2, s3)
  {
    SmallProducts(s0); SmallProducts(s1); SmallProducts(s2); SmallProducts(s3);
    AddRotate(XTime(s0), XTime(XTime(s0)), XTime(XTime(XTime(s0))));
    AddRotate(s1, XTime(s1), XTime(XTime(XTime(s1))));
    AddRotate(s2, XTime(XTime(s2)), XTime(XTime(XTime(s2))));
    AddRotate(s3, XTime(XTime(XTime(s3))), 0);
    AddRegroup(Mul(s0, 14), Mul(s1, 11), Mul(s2, 13), Mul(s3, 9));
  }

  /** The word-parallel macro computes InvMixColumns of one column. */
  lemma ImixColIsInvMixColumn(x: bv32)
    ensures Unpack(ImixCol(x)) == InvMixColumn(Unpack(x))
  {
    var c := Unpack(x);
    PackUnpack(x);
    var cu := Doubled(c); var cv := Doubled(cu); var cw := Doubled(cv);
    StarXDoubles(c); StarXDoubles(cu); StarXDoubles(cv);
    var ct := Xor(cw, c);
    PackXor2(cw, c); PackXor2(cu, cv); PackXor2(Xor(cu, cv), cw);
    PackXor2(cu, ct); PackXor2(cv, ct);
    RotrPack(Xor(cu, ct)); RotlHalfPack(Xor(cv, ct)); RotlPack(ct);
    var r := RotWord(Xor(cu, ct));
    var h := RotWord(RotWord(Xor(cv, ct)));
    var l := RotWord(RotWord(RotWord(ct)));
    PackXor2(r, h); PackXor2(Xor(r, h), l);
    PackXor2(Xor(Xor(cu, cv), cw), Xor(Xor(r, h), l));
    ImixByte(c.b0, c.b1, c.b2, c.b3); ImixByte(c.b1, c.b2, c.b3, c.b0);
    ImixByte(c.b2, c.b3, c.b0, c.b1); ImixByte(c.b3, c.b0, c.b1, c.b2);
    UnpackPack(InvMixColumn(c));
  }

  // ---- Bytes, words and states ----

  /** u32_in: four bytes, little-endian. */
  function WordIn(b: seq<bv8>, i: nat): bv32
    requires i + 4 <= |b|
  {
    Pack(Col(b[i], b[i + 1], b[i + 2], b[i + 3]))
  }

  function ColIn(b: seq<bv8>, i: nat): Col
    requires i + 4 <= |b|
  {
    Col(b[i], b[i + 1], b[i + 2], b[i + 3])
  }

  /** The state of FIPS 197, section 3.4: the input bytes in columns. */
  function StateOf(b: seq<bv8>): State
    requires |b| == 16
  {
    State(ColIn(b, 0), ColIn(b, 4), ColIn(b, 8), ColIn(b, 12))
  }

  function KeyOf(b: seq<bv8>): Key
    requires |b| == 16 || |b| == 24 || |b| == 32
  {
    seq(|b| / 4, i requires 0 <= i < |b| / 4 => ColIn(b, 4 * i))
  }

  // ---- Key expansion on packed words ----

  /** The steps of FIPS 197, section 5.2, on packed words, and the column map of section 5.3.5. */
  ghost function FipsSteps(): KeySteps<bv32> {
    KeySteps((x, y) => Xor2(x, y), (t, i: nat) => Pack(Xor(SubWord(RotWord(Unpack(t))), Rcon(i + 1))),
             t => Pack(SubWord(Unpack(t))), x => ImixCol(x))
  }

  ghost function PackedKey(key: Key): seq<bv32> {
    seq(|key|, i requires 0 <= i < |key| => Pack(key[i]))
  }

  lemma GroupOfWord(j: nat, n: nat)
    requires (n == 4 || n == 6 || n == 8) && n <= j
    ensures Starts(j, n) <==> j % n == 0
    ensures Group(j, n) == j / n - 1 && Group(j, n) >= 0
  {
    if n == 4 {} else if n == 6 {} else {}
  }

  /** The machine words of the expansion are the words of section 5.2. */
  lemma {:induction false} KeyWordIsExpandedWord(key: Key, j: nat)
    ensures Unpack(KeyWord(FipsSteps(), PackedKey(key), j)) == ExpandedWord(key, j)
  {
    var wk := PackedKey(key);
    if j < |key| {
      UnpackPack(key[j]);
    } else {
      KeyWordIsExpandedWord(key, j - 1);
      KeyWordIsExpandedWord(key, j - |key|);
      GroupOfWord(j, |key|);
      ExpansionStep(key, j, KeyWord(FipsSteps(), wk, j - 1), KeyWord(FipsSteps(), wk, j - |key|));
    }
  }

  lemma ExpansionStep(key: Key, j: nat, t: bv32, b: bv32)
    requires |key| <= j && Unpack(t) == ExpandedWord(key, j - 1) && Unpack(b) == ExpandedWord(key, j - |key|)
    requires Group(j, |key|) >= 0
    requires Starts(j, |key|) <==> j % |key| == 0
    requires Group(j, |key|) == j / |key| - 1
    ensures var r := if Starts(j, |key|) then FipsSteps().head(t, Group(j, |key|))
                     else if |key| == 8 && j % 8 == 4 then FipsSteps().middle(t) else t;
            Unpack(Xor2(r, b)) == ExpandedWord(key, j)
  {
    UnpackTurned(key, j, t);
    UnpackXor(if Starts(j, |key|) then FipsSteps().head(t, Group(j, |key|))
              else if |key| == 8 && j % 8 == 4 then FipsSteps().middle(t) else t, b);
    ExpandedIs(key, j);
  }

  /** What the expansion makes of the word in front of word i before it adds the word of the group before. */
  ghost function Turned(key: Key, i: nat, c: Col): Col
    requires |key| <= i
  {
    if i % |key| == 0 then Xor(SubWord(RotWord(c)), Rcon(i / |key|))
    else if |key| > 6 && i % |key| == 4 then SubWord(c) else c
  }

  lemma ExpandedIs(key: Key, j: nat)
    requires |key| <= j
    ensures ExpandedWord(key, j) == Xor(Turned(key, j, ExpandedWord(key, j - 1)), ExpandedWord(key, j - |key|))
  {
  }

  lemma UnpackTurned(key: Key, j: nat, t: bv32)
    requires |key| <= j && Group(j, |key|) >= 0
    requires Starts(j, |key|) <==> j % |key| == 0
    requires Group(j, |key|) == j / |key| - 1
    ensures Unpack(if Starts(j, |key|) then FipsSteps().head(t, Group(j, |key|))
                   else if |key| == 8 && j % 8 == 4 then FipsSteps().middle(t) else t) == Turned(key, j, Unpack(t))
  {
    if Starts(j, |key|) {
      UnpackHead(t, Group(j, |key|));
    } else if |key| == 8 && j % 8 == 4 {
      UnpackMiddle(t);
    }
  }

  lemma UnpackHead(t: bv32, i: nat)
    ensures Unpack(FipsSteps().head(t, i)) == Xor(SubWord(RotWord(Unpack(t))), Rcon(i + 1))
  {
    UnpackPack(Xor(SubWord(RotWord(Unpack(t))), Rcon(i + 1)));
  }

  lemma UnpackMiddle(t: bv32)
    ensures Unpack(FipsSteps().middle(t)) == SubWord(Unpack(t))
  {
    UnpackPack(SubWord(Unpack(t)));
  }
}
