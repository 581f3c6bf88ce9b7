/** ieee80211/ieee80211_crypt_ccmp.c: CCMP frames (section 8.3.3 of IEEE 802.11i-2004). */
module Ccmp {
  import opened Bytes
  import opened Ccm

  const HDR_LEN: nat := 8
  const MIC_LEN: nat := 8

  // ---- Nonce and additional data, from the start of a frame ----

  predicate HasAddr4(f: seq<Byte>)
    requires |f| >= 32
  {
    f[1] & 0x03 == 0x03
  }

  /** A data frame whose subtype has the QoS bit. */
  predicate IsQos(f: seq<Byte>)
    requires |f| >= 32
  {
    f[0] & 0x0c == 0x08 && f[0] & 0x80 != 0
  }

  function QosByte(f: seq<Byte>): Byte
    requires |f| >= 32
  {
    if IsQos(f) then f[if HasAddr4(f) then 30 else 24] & 0x0f else 0
  }

  function Nonce(f: seq<Byte>, pn: seq<Byte>): (n: seq<Byte>)
    requires |f| >= 32 && |pn| == 6
    ensures |n| == 13
  {
    [QosByte(f)] + f[10..16] + pn
  }

  function MaskFc0(b: Byte): Byte { b & 0x8f }

  function MaskFc1(b: Byte): Byte { b & 0xc7 }

  function MaskSeq(b: Byte): Byte { b & 0x0f }

  /** The MAC header without duration, sequence number and the bits that may change on the way. */
  function MaskedHdr(f: seq<Byte>): (m: seq<Byte>)
    requires |f| >= 32
    ensures |m| == 22
  {
    [MaskFc0(f[0]), MaskFc1(f[1])] + f[4..22] + [MaskSeq(f[22]), 0]
  }

  /** The additional data. */
  function Aad(f: seq<Byte>): seq<Byte>
    requires |f| >= 32
  {
    MaskedHdr(f) + (if HasAddr4(f) then f[24..30] else []) + (if IsQos(f) then [QosByte(f), 0] else [])
  }

  function AadLength(f: seq<Byte>): nat
    requires |f| >= 32
  {
    22 + (if HasAddr4(f) then 6 else 0) + (if IsQos(f) then 2 else 0)
  }

  /** The same behind its length, in one zero-filled buffer of two blocks. */
  function AadBuffer(f: seq<Byte>): (a: seq<Byte>)
    requires |f| >= 32
    ensures |a| == 32
  {
    [0, Lo(AadLength(f))] + MaskedHdr(f) + (if HasAddr4(f) then f[24..30] + [QosByte(f), 0]
      else [QosByte(f), 0] + Zeros(6))
  }

  lemma PaddedTo32(a: seq<Byte>)
    requires 16 < |a| <= 32
    ensures Padded(a) == a + Zeros(32 - |a|)
  {
  }

  lemma AadIsPadded(f: seq<Byte>)
    requires |f| >= 32
    ensures |Aad(f)| == AadLength(f) && Padded([Hi(|Aad(f)|), Lo(|Aad(f)|)] + Aad(f)) == AadBuffer(f)
  {
    var l := [Hi(AadLength(f)), Lo(AadLength(f))];
    assert AadLength(f) / 256 == 0;
    PaddedTo32(l + Aad(f));
    if HasAddr4(f) {
      if IsQos(f) {
        assert l + Aad(f) == AadBuffer(f);
      } else {
        assert l + Aad(f) + Zeros(2) == AadBuffer(f);
      }
    } else {
      if IsQos(f) {
        assert l + Aad(f) + Zeros(6) == AadBuffer(f);
      } else {
        assert l + Aad(f) + Zeros(8) == AadBuffer(f);
      }
    }
  }

  /** The chaining value after the first block and the additional data. */
  function Start(e: BlockCipher, f: seq<Byte>, pn: seq<Byte>, n: nat): Block
    requires |f| >= 32 && |pn| == 6
  {
    var x := e(FirstBlock(Nonce(f, pn), n));
    e(Xor(e(Xor(x, AadBuffer(f)[..16])), AadBuffer(f)[16..]))
  }

  lemma {:induction false} MacAppend(e: BlockCipher, x: Block, a: seq<Byte>, b: seq<Byte>)
    requires |a| % 16 == 0
    ensures Mac(e, x, a + b) == Mac(e, Mac(e, x, a), b)
    decreases |a|
  {
    if |a| >= 16 {
      assert (a + b)[..16] == a[..16] && (a + b)[16..] == a[16..] + b;
      MacAppend(e, e(Xor(x, a[..16])), a[16..], b);
    } else {
      assert a + b == b;
    }
  }

  lemma TwoBlocks(e: BlockCipher, x: Block, a: seq<Byte>, b: seq<Byte>)
    requires |a| == 32
    ensures Mac(e, x, a + b) == Mac(e, e(Xor(e(Xor(x, a[..16])), a[16..])), b)
  {
    MacAppend(e, x, a, b);
    assert a[16..][..16] == a[16..] && a[16..][16..] == [];
    var y := e(Xor(x, a[..16]));
    assert Mac(e, y, a[16..]) == Mac(e, e(Xor(y, a[16..])), []);
  }

  /** Continuing from Start gives CCM's tag. */
  lemma TagFromStart(e: BlockCipher, f: seq<Byte>, pn: seq<Byte>, m: seq<Byte>)
    requires |f| >= 32 && |pn| == 6
    ensures Mac(e, Start(e, f, pn, |m|), Padded(m)) == Tag(e, Nonce(f, pn), Aad(f), m)
  {
    AadIsPadded(f);
    TwoBlocks(e, e(FirstBlock(Nonce(f, pn), |m|)), AadBuffer(f), Padded(m));
  }

  // ---- Frames ----

  function KeyByte(idx: Byte): Byte { (idx << 6) | 0x20 }

  /** The CCMP header: packet number, extended-IV flag and key index. */
  function CcmpHdr(pn: seq<Byte>, idx: Byte): (h: seq<Byte>)
    requires |pn| == 6
    ensures |h| == 8
  {
    [pn[5], pn[4], 0, KeyByte(idx), pn[3], pn[2], pn[1], pn[0]]
  }

  /** CCM over the body m behind the header hd (the CCMP header included). */
  function SealedBody(e: BlockCipher, pn: seq<Byte>, hd: seq<Byte>, m: seq<Byte>): (r: (seq<Byte>, seq<Byte>))
    requires |pn| == 6 && |hd| >= 32
    ensures |r.0| == |m| && |r.1| == 8
  {
    var ks := StreamOf(e, Nonce(hd, pn));
    (Encrypted(ks, m), SealedTag(ks, Tag(e, Nonce(hd, pn), Aad(hd), m)))
  }

  /** The frame ccmp_encrypt makes of f: header, CCMP header, encrypted body and tag. */
  function SealedFrame(e: BlockCipher, pn: seq<Byte>, idx: Byte, h: nat, f: seq<Byte>): (r: seq<Byte>)
    requires |pn| == 6 && 24 <= h <= |f|
    ensures |r| == |f| + 16
  {
    var hd := f[..h] + CcmpHdr(pn, idx);
    var b := SealedBody(e, pn, hd, f[h..]);
    hd + (b.0 + b.1)
  }

  /** What ccmp_decrypt makes of a frame. */
  datatype Opened = Opened(frame: seq<Byte>, pn: seq<Byte>) | Refused(code: int)

  function PnOf(c: seq<Byte>): (pn: seq<Byte>)
    requires |c| == 8
    ensures |pn| == 6
  {
    [c[7], c[6], c[5], c[4], c[1], c[0]]
  }

  /** Behind the header hd: the encrypted body c and tag u. */
  function OpenedBody(e: BlockCipher, pn: seq<Byte>, hd: seq<Byte>, c: seq<Byte>, u: seq<Byte>): Opened
    requires |hd| >= 32 && |pn| == 6 && |u| == 8
  {
    var ks := StreamOf(e, Nonce(hd, pn));
    var r := OpenFrom(e, ks, 1, Start(e, hd, pn, |c|), c);
    if Xor(u, ks(0)[..8]) != r.0[..8] then Refused(-5) else Opened(hd[..|hd| - 8] + r.1, pn)
  }

  /** A whole frame of at least h + 16 bytes. */
  function Verdict(e: BlockCipher, h: nat, f: seq<Byte>): Opened
    requires 24 <= h && h + 16 <= |f|
  {
    OpenedBody(e, PnOf(f[h..h + 8]), f[..h + 8], f[h + 8..|f| - 8], f[|f| - 8..])
  }

  function OpenedFrame(e: BlockCipher, idx: Byte, keySet: bool, h: nat, f: seq<Byte>): Opened
    requires 24 <= h
  {
    if |f| < h + 16 then Refused(-1)
    else if f[h + 3] & 0x20 == 0 then Refused(-2)
    else if f[h + 3] >> 6 != idx then Refused(-6)
    else if !keySet then Refused(-3)
    else Verdict(e, h, f)
  }

  /** Two starts of frames that differ at most in duration, sequence number, retry, power management,
      more data and the low subtype bits. */
  predicate SameInTransit(a: seq<Byte>, b: seq<Byte>) {
    |a| == |b| >= 32 && MaskedHdr(a) == MaskedHdr(b) && a[24..] == b[24..]
  }

  lemma MaskedBits0(a: Byte, b: Byte)
    requires MaskFc0(a) == MaskFc0(b)
    ensures a & 0x0c == b & 0x0c && a & 0x80 == b & 0x80
  {
    assert a & 0x0c == (a & 0x8f) & 0x0c && b & 0x0c == (b & 0x8f) & 0x0c;
    assert a & 0x80 == (a & 0x8f) & 0x80 && b & 0x80 == (b & 0x8f) & 0x80;
  }

  lemma MaskedBits1(a: Byte, b: Byte)
    requires MaskFc1(a) == MaskFc1(b)
    ensures a & 0x03 == b & 0x03
  {
    assert a & 0x03 == (a & 0xc7) & 0x03 && b & 0x03 == (b & 0xc7) & 0x03;
  }

  lemma MaskedAddr2(f: seq<Byte>)
    requires |f| >= 32
    ensures MaskedHdr(f)[8..14] == f[10..16]
  {
    forall i | 0 <= i < 6 ensures MaskedHdr(f)[8..14][i] == f[10..16][i] {
      assert MaskedHdr(f)[8 + i] == f[4..22][6 + i];
    }
  }

  lemma SameParts(a: seq<Byte>, b: seq<Byte>)
    requires SameInTransit(a, b)
    ensures MaskFc0(a[0]) == MaskFc0(b[0]) && MaskFc1(a[1]) == MaskFc1(b[1])
    ensures a[24] == b[24] && a[30] == b[30] && a[10..16] == b[10..16] && a[24..30] == b[24..30]
  {
    assert MaskedHdr(a)[0] == MaskedHdr(b)[0] && MaskedHdr(a)[1] == MaskedHdr(b)[1];
    MaskedAddr2(a); MaskedAddr2(b);
    assert a[24] == a[24..][0] && a[30] == a[24..][6] && a[24..30] == a[24..][..6];
    assert b[24] == b[24..][0] && b[30] == b[24..][6] && b[24..30] == b[24..][..6];
  }

  lemma SameFlags(a: seq<Byte>, b: seq<Byte>)
    requires SameInTransit(a, b)
    ensures HasAddr4(a) == HasAddr4(b) && IsQos(a) == IsQos(b) && QosByte(a) == QosByte(b)
  {
    SameParts(a, b);
    MaskedBits0(a[0], b[0]); MaskedBits1(a[1], b[1]);
  }

  /** Changes on the way do not reach the nonce or the additional data. */
  lemma SameNonceAndAad(a: seq<Byte>, b: seq<Byte>, pn: seq<Byte>)
    requires SameInTransit(a, b) && |pn| == 6
    ensures Nonce(a, pn) == Nonce(b, pn) && Aad(a) == Aad(b) && AadBuffer(a) == AadBuffer(b)
  {
    SameFlags(a, b);
    SameParts(a, b);
  }

  lemma KeyByteFields(idx: Byte)
    requires idx < 4
    ensures KeyByte(idx) & 0x20 != 0 && KeyByte(idx) >> 6 == idx
  {
  }

  /** The sections of a received frame. */
  lemma Sections(h: nat, g: seq<Byte>, hd: seq<Byte>, c: seq<Byte>, u: seq<Byte>)
    requires |hd| == h + 8 && |u| == 8 && |g| == h + 16 + |c| && g[h..] == (hd + (c + u))[h..]
    ensures g[h + 3] == hd[h..][3] && g[h..h + 8] == hd[h..] == g[..h + 8][h..]
    ensures g[h + 8..|g| - 8] == c && g[|g| - 8..] == u
  {
    var r := (hd + (c + u))[h..];
    assert r == hd[h..] + (c + u);
    assert g[h + 3] == r[3] && g[h..h + 8] == r[..8];
    assert g[h + 8..|g| - 8] == r[8..][..|c|] && g[|g| - 8..] == r[8..][|c|..];
  }

  /** Opening what was sealed under the same key restores header and body and yields the sender's
      packet number, even if the frame changed on the way as the standard allows. */
  lemma OpenSealed(e: BlockCipher, pn: seq<Byte>, idx: Byte, h: nat, f: seq<Byte>, g: seq<Byte>)
    requires |pn| == 6 && idx < 4 && 24 <= h <= |f| && |g| == |f| + 16
    requires var s := SealedFrame(e, pn, idx, h, f); SameInTransit(s[..h + 8], g[..h + 8]) && g[h..] == s[h..]
    ensures OpenedFrame(e, idx, true, h, g) == Opened(g[..h] + f[h..], pn)
  {
    var hd := f[..h] + CcmpHdr(pn, idx);
    var b := SealedBody(e, pn, hd, f[h..]);
    OpenedSections(e, idx, h, g, pn, hd, b.0, b.1);
    assert (hd + (b.0 + b.1))[..h + 8] == hd;
    OpenSealedBody(e, pn, hd, g[..h + 8], f[h..]);
    assert g[..h + 8][..h] == g[..h];
  }

  lemma OpenedSections(e: BlockCipher, idx: Byte, h: nat, g: seq<Byte>, pn: seq<Byte>, hd: seq<Byte>, c: seq<Byte>,
                       u: seq<Byte>)
    requires |pn| == 6 && idx < 4 && 24 <= h && |hd| == h + 8 && hd[h..] == CcmpHdr(pn, idx) && |u| == 8
    requires |g| == h + 16 + |c| && g[h..] == (hd + (c + u))[h..]
    ensures OpenedFrame(e, idx, true, h, g) == OpenedBody(e, pn, g[..h + 8], c, u)
  {
    Sections(h, g, hd, c, u);
    KeyByteFields(idx);
    assert PnOf(CcmpHdr(pn, idx)) == pn;
  }

  lemma OpenSealedBody(e: BlockCipher, pn: seq<Byte>, hd: seq<Byte>, hd': seq<Byte>, m: seq<Byte>)
    requires |hd| >= 32 && |pn| == 6 && SameInTransit(hd, hd')
    ensures var b := SealedBody(e, pn, hd, m); OpenedBody(e, pn, hd', b.0, b.1) == Opened(hd'[..|hd'| - 8] + m, pn)
  {
    SameNonceAndAad(hd, hd', pn);
    OpenTag(e, StreamOf(e, Nonce(hd, pn)), hd, pn, m, hd');
  }

  lemma OpenTag(e: BlockCipher, ks: KeyStream, hd: seq<Byte>, pn: seq<Byte>, m: seq<Byte>, hd': seq<Byte>)
    requires |hd| >= 32 && |hd'| >= 32 && |pn| == 6
    requires Nonce(hd', pn) == Nonce(hd, pn) && AadBuffer(hd') == AadBuffer(hd)
    ensures var t := Tag(e, Nonce(hd, pn), Aad(hd), m);
            OpenFrom(e, ks, 1, Start(e, hd', pn, |m|), Encrypted(ks, m)) == (t, m) &&
            Xor(SealedTag(ks, t), ks(0)[..8]) == t[..8]
  {
    var x := Start(e, hd, pn, |m|);
    TagFromStart(e, hd, pn, m);
    SealIsCcm(e, ks, x, m);
    OpenUndoesSeal(e, ks, 1, x, m);
    XorTwice(Mac(e, x, Padded(m))[..8], ks(0)[..8]);
  }
}
