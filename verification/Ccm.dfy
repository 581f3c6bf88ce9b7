/** CCM as section 2 of RFC 3610 states it, with an 8-byte tag and a 2-byte length field (M = 8,
    L = 2), and the same computed in one pass over the message. */
module Ccm {
  import opened Bytes

  type Block = s: seq<Byte> | |s| == 16 witness seq(16, _ => 0)

  /** A block cipher under a fixed key. */
  type BlockCipher = Block -> Block

  /** The low byte of a number. */
  function Lo(n: nat): Byte { (n % 256) as Byte }

  function Hi(n: nat): Byte { Lo(n / 256) }

  // ---- The definition ----

  /** The initial block B_0 for a message of n bytes; 0x59 says Adata = 1, M' = 3, L' = 1. */
  function FirstBlock(nonce: seq<Byte>, n: nat): Block
    requires |nonce| == 13
  {
    [0x59] + nonce + [Hi(n), Lo(n)]
  }

  /** The counter block A_i. */
  function Counter(nonce: seq<Byte>, i: nat): Block
    requires |nonce| == 13
  {
    [0x01] + nonce + [Hi(i), Lo(i)]
  }

  /** Data filled up with zeros to whole blocks. */
  function Padded(data: seq<Byte>): (r: seq<Byte>)
    ensures |r| % 16 == 0 && |r| < |data| + 16
  {
    data + Zeros((16 - |data| % 16) % 16)
  }

  /** CBC-MAC over whole blocks, from the chaining value x. */
  function Mac(e: BlockCipher, x: Block, blocks: seq<Byte>): Block
    decreases |blocks|
  {
    if |blocks| < 16 then x else Mac(e, e(Xor(x, blocks[..16])), blocks[16..])
  }

  /** The authentication value T of a message m with additional data a. */
  function Tag(e: BlockCipher, nonce: seq<Byte>, a: seq<Byte>, m: seq<Byte>): Block
    requires |nonce| == 13
  {
    Mac(e, e(FirstBlock(nonce, |m|)), Padded([Hi(|a|), Lo(|a|)] + a) + Padded(m))
  }

  /** The blocks S_i for a nonce. */
  type KeyStream = nat -> Block

  function StreamOf(e: BlockCipher, nonce: seq<Byte>): KeyStream
    requires |nonce| == 13
  {
    i => e(Counter(nonce, i))
  }

  /** Byte j of the key stream S_1, S_2, ... */
  function StreamByte(ks: KeyStream, j: nat): Byte
  {
    ks(1 + j / 16)[j % 16]
  }

  function Encrypted(ks: KeyStream, m: seq<Byte>): (c: seq<Byte>)
    ensures |c| == |m|
  {
    seq(|m|, j requires 0 <= j < |m| => XorByte(m[j], StreamByte(ks, j)))
  }

  /** The encrypted authentication value U. */
  function SealedTag(ks: KeyStream, t: Block): (u: seq<Byte>)
    ensures |u| == 8
  {
    Xor(t[..8], ks(0)[..8])
  }

  // ---- One pass, block by block, authenticating and encrypting ----

  /** x with the first |p| bytes xored. */
  function XorInto(x: Block, p: seq<Byte>): Block
    requires |p| <= 16
  {
    Put(x, 0, Xor(Piece(x, 0, |p|), p))
  }

  /** Message bytes m from counter i on with chaining value x: the final chaining value and the output. */
  function SealFrom(e: BlockCipher, ks: KeyStream, i: nat, x: Block, m: seq<Byte>): (r: (Block, seq<Byte>))
    ensures |r.1| == |m|
    decreases |m|
  {
    if m == [] then (x, []) else
      var k := Min(16, |m|);
      var r := SealFrom(e, ks, i + 1, e(XorInto(x, m[..k])), m[k..]);
      (r.0, Xor(m[..k], ks(i)) + r.1)
  }

  /** The receiver's pass. */
  function OpenFrom(e: BlockCipher, ks: KeyStream, i: nat, x: Block, c: seq<Byte>): (r: (Block, seq<Byte>))
    ensures |r.1| == |c|
    decreases |c|
  {
    if c == [] then (x, []) else
      var k := Min(16, |c|);
      var p := Xor(c[..k], ks(i));
      var r := OpenFrom(e, ks, i + 1, e(XorInto(x, p)), c[k..]);
      (r.0, p + r.1)
  }

  lemma XorAgain(p: seq<Byte>, s: Block)
    requires |p| <= 16
    ensures Xor(Xor(p, s), s) == p
  {
    forall i | 0 <= i < |p| ensures Xor(Xor(p, s), s)[i] == p[i] { XorByteTwice(p[i], s[i]); }
  }

  /** The receiver's pass over the sender's output gives the message and the sender's chaining value. */
  lemma {:induction false} OpenUndoesSeal(e: BlockCipher, ks: KeyStream, i: nat, x: Block, m: seq<Byte>)
    ensures OpenFrom(e, ks, i, x, SealFrom(e, ks, i, x, m).1) == (SealFrom(e, ks, i, x, m).0, m)
    decreases |m|
  {
    if m != [] {
      var k := Min(16, |m|);
      var s := ks(i);
      var r := SealFrom(e, ks, i + 1, e(XorInto(x, m[..k])), m[k..]);
      var c := Xor(m[..k], s) + r.1;
      assert c[..k] == Xor(m[..k], s) && c[k..] == r.1;
      XorAgain(m[..k], s);
      OpenUndoesSeal(e, ks, i + 1, e(XorInto(x, m[..k])), m[k..]);
      assert m[..k] + m[k..] == m;
    }
  }

  lemma XorZero(a: Byte)
    ensures XorByte(a, 0) == a
  {
  }

  /** Xoring a short last block in is xoring its padded form. */
  lemma XorIntoPadded(x: Block, p: seq<Byte>)
    requires |p| <= 16
    ensures XorInto(x, p) == Xor(x, p + Zeros(16 - |p|))
  {
    PieceAt(x, 0, |p|);
    forall i | 0 <= i < 16 ensures XorInto(x, p)[i] == Xor(x, p + Zeros(16 - |p|))[i] {
      if i >= |p| { XorZero(x[i]); }
    }
  }

  lemma PaddedSplit(m: seq<Byte>)
    requires m != []
    ensures var k := Min(16, |m|);
            |Padded(m)| >= 16 && Padded(m)[..16] == m[..k] + Zeros(16 - k) && Padded(m)[16..] == Padded(m[k..])
  {
    if |m| >= 16 {
      assert (|m| - 16) % 16 == |m| % 16;
    }
  }

  /** The chaining value of the one-pass form is the CBC-MAC of the padded message. */
  lemma {:induction false} SealedChain(e: BlockCipher, ks: KeyStream, i: nat, x: Block, m: seq<Byte>)
    ensures SealFrom(e, ks, i, x, m).0 == Mac(e, x, Padded(m))
    decreases |m|
  {
    if m != [] {
      var k := Min(16, |m|);
      PaddedSplit(m);
      XorIntoPadded(x, m[..k]);
      SealedChain(e, ks, i + 1, e(XorInto(x, m[..k])), m[k..]);
    }
  }

  lemma StreamIndex(ks: KeyStream, i: nat, j: nat)
    requires i >= 1 && j < 16
    ensures StreamByte(ks, 16 * (i - 1) + j) == ks(i)[j]
  {
    assert (16 * (i - 1) + j) / 16 == i - 1 && (16 * (i - 1) + j) % 16 == j;
  }

  /** Byte j of the output from counter i on. */
  lemma {:induction false} SealedByte(e: BlockCipher, ks: KeyStream, i: nat, x: Block, m: seq<Byte>, j: nat)
    requires i >= 1 && j < |m|
    ensures SealFrom(e, ks, i, x, m).1[j] == XorByte(m[j], StreamByte(ks, 16 * (i - 1) + j))
    decreases |m|
  {
    var k := Min(16, |m|);
    var first := Xor(m[..k], ks(i));
    var r := SealFrom(e, ks, i + 1, e(XorInto(x, m[..k])), m[k..]);
    if j < k {
      StreamIndex(ks, i, j);
      assert (first + r.1)[j] == first[j];
    } else {
      SealedByte(e, ks, i + 1, e(XorInto(x, m[..k])), m[k..], j - k);
      assert (first + r.1)[j] == r.1[j - k];
    }
  }

  /** The one-pass form computes CCM: the tag's chaining value and the encrypted message. */
  lemma SealIsCcm(e: BlockCipher, ks: KeyStream, x: Block, m: seq<Byte>)
    ensures SealFrom(e, ks, 1, x, m) == (Mac(e, x, Padded(m)), Encrypted(ks, m))
  {
    SealedChain(e, ks, 1, x, m);
    var c := SealFrom(e, ks, 1, x, m).1;
    forall j | 0 <= j < |m| ensures c[j] == Encrypted(ks, m)[j] {
      SealedByte(e, ks, 1, x, m, j);
      assert 16 * (1 - 1) + j == j;
    }
    assert c == Encrypted(ks, m);
  }
}
