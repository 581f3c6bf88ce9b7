/** WEP and CCMP as the data path uses them. */
module LinkCiphers {
  import opened Bytes
  import opened Options
  import opened Numbers
  import opened Dot11
  import opened Fragmentation
  import opened Receive
  import opened DataPath
  import Wep
  import opened Rc4Body
  import Ccm
  import Ccmp
  import CcmpCrypt

  // ---- WEP ----

  function WepSeal(icv: CheckSum, key: seq<Byte>, idx: Byte, iv: U32, f: seq<Byte>): (U32, seq<Byte>) {
    if |f| < HDR_LEN then (iv, f) else
      (Wep.NextIv(iv, 3 + |key|), Wep.Sealed(Rc4Stream, icv, key, Wep.NextIv(iv, 3 + |key|), idx, HDR_LEN, f))
  }

  function WepOpen(icv: CheckSum, key: seq<Byte>, idx: Byte, h: nat, f: seq<Byte>): Option<seq<Byte>> {
    match Wep.Open(Rc4Stream, icv, key, idx, h, f)
    case Opened(g) => Some(g)
    case Refused(_) => None
  }

  function WepCipher(icv: CheckSum, key: seq<Byte>, idx: Byte): Cipher<U32> {
    Cipher(4, 4, (iv: U32, f: seq<Byte>) => WepSeal(icv, key, idx, iv, f))
  }

  /** WEP keeps nothing that the receiver depends on. */
  function WepHandlers<Q>(icv: CheckSum, key: seq<Byte>, idx: Byte): Handlers<Q> {
    Handlers((q: Q, h: nat, f: seq<Byte>) => (q, WepOpen(icv, key, idx, h, f)), None)
  }

  lemma TopBitsOf(idx: Byte, b: Byte)
    requires idx < 4 && b >> 6 == idx
    ensures TopBits(b) == TopBits(idx << 6)
  {
  }

  lemma WepFrame(icv: CheckSum, key: seq<Byte>, idx: Byte, iv: U32, f: seq<Byte>)
    requires idx < 4 && |f| >= HDR_LEN
    ensures var g := WepSeal(icv, key, idx, iv, f).1;
            |g| == |f| + 8 && g[..HDR_LEN] == f[..HDR_LEN] && g[HDR_LEN + 3] == idx << 6 &&
            WepOpen(icv, key, idx, HDR_LEN, g) == Some(f)
  {
    var g := WepSeal(icv, key, idx, iv, f).1;
    Wep.OpenSealed(Rc4Stream, icv, key, Wep.NextIv(iv, 3 + |key|), idx, HDR_LEN, f, g);
    assert g[..HDR_LEN] == f[..HDR_LEN];
    assert f[..HDR_LEN] + f[HDR_LEN..] == f;
  }

  lemma WepHeader(icv: CheckSum, key: seq<Byte>, idx: Byte, h: nat, f: seq<Byte>)
    requires h <= |f| && WepOpen(icv, key, idx, h, f).Some?
    ensures var g := WepOpen(icv, key, idx, h, f).value; |g| >= h && g[..h] == f[..h]
  {
  }

  /** WEP can stand in the end-to-end theorem. */
  lemma WepFits<Q(!new)>(icv: CheckSum, key: seq<Byte>, idx: Byte)
    requires idx < 4
    ensures Transmit.Sound(WepCipher(icv, key, idx)) && KeepsHeader(WepHandlers<Q>(icv, key, idx).open)
    ensures Undone(WepCipher(icv, key, idx), WepHandlers<Q>(icv, key, idx), TopBits(idx << 6))
  {
    var c, o := WepCipher(icv, key, idx), WepHandlers<Q>(icv, key, idx).open;
    forall k, f {:trigger c.seal(k, f)} | |f| >= HDR_LEN
      ensures var g := c.seal(k, f).1;
              |g| == |f| + 8 && g[..HDR_LEN] == f[..HDR_LEN] && TopBits(g[HDR_LEN + 3]) == TopBits(idx << 6) &&
                forall q: Q {:trigger o(q, HDR_LEN, g)} :: o(q, HDR_LEN, g).1 == Some(f)
    {
      WepFrame(icv, key, idx, k, f);
    }
    forall q: Q, h: nat, f {:trigger o(q, h, f)} | h <= |f| && o(q, h, f).1.Some?
      ensures |o(q, h, f).1.value| >= h && o(q, h, f).1.value[..h] == f[..h]
    {
      WepHeader(icv, key, idx, h, f);
    }
  }

  // ---- CCMP ----

  type Pn = s: seq<Byte> | |s| == 6 witness [0, 0, 0, 0, 0, 0]

  function CcmpSeal(e: Ccm.BlockCipher, idx: Byte, pn: Pn, f: seq<Byte>): (Pn, seq<Byte>) {
    if |f| < HDR_LEN then (pn, f) else
      (CcmpCrypt.NextPn(pn), Ccmp.SealedFrame(e, CcmpCrypt.NextPn(pn), idx, HDR_LEN, f))
  }

  /** Frames with headers shorter than three addresses are not opened. */
  function CcmpOpen(e: Ccm.BlockCipher, idx: Byte, h: nat, f: seq<Byte>): Option<seq<Byte>> {
    if h < HDR_LEN then None else
      match Ccmp.OpenedFrame(e, idx, true, h, f)
      case Opened(g, _) => Some(g)
      case Refused(_) => None
  }

  function CcmpCipher(e: Ccm.BlockCipher, idx: Byte): Cipher<Pn> {
    Cipher<Pn>.Cipher(8, 8, (pn: Pn, f: seq<Byte>) => CcmpSeal(e, idx, pn, f))
  }

  /** CCMP keeps the packet number of the last frame, which the receiver does not depend on. */
  function CcmpHandlers<Q>(e: Ccm.BlockCipher, idx: Byte): Handlers<Q> {
    Handlers((q: Q, h: nat, f: seq<Byte>) => (q, CcmpOpen(e, idx, h, f)), None)
  }

  lemma CcmpFrame(e: Ccm.BlockCipher, idx: Byte, pn: Pn, f: seq<Byte>)
    requires idx < 4 && |f| >= HDR_LEN
    ensures var g := CcmpSeal(e, idx, pn, f).1;
            |g| == |f| + 16 && g[..HDR_LEN] == f[..HDR_LEN] && g[HDR_LEN + 3] >> 6 == idx &&
            CcmpOpen(e, idx, HDR_LEN, g) == Some(f)
  {
    var g := CcmpSeal(e, idx, pn, f).1;
    Ccmp.OpenSealed(e, CcmpCrypt.NextPn(pn), idx, HDR_LEN, f, g);
    Ccmp.KeyByteFields(idx);
    assert g[HDR_LEN + 3] == Ccmp.KeyByte(idx);
    assert g[..HDR_LEN] == f[..HDR_LEN];
    assert f[..HDR_LEN] + f[HDR_LEN..] == f;
  }

  lemma CcmpHeader(e: Ccm.BlockCipher, idx: Byte, h: nat, f: seq<Byte>)
    requires h <= |f| && CcmpOpen(e, idx, h, f).Some?
    ensures var g := CcmpOpen(e, idx, h, f).value; |g| >= h && g[..h] == f[..h]
  {
  }

  /** CCMP can stand in the end-to-end theorem. */
  lemma CcmpFits<Q(!new)>(e: Ccm.BlockCipher, idx: Byte)
    requires idx < 4
    ensures Transmit.Sound(CcmpCipher(e, idx)) && KeepsHeader(CcmpHandlers<Q>(e, idx).open)
    ensures Undone(CcmpCipher(e, idx), CcmpHandlers<Q>(e, idx), TopBits(idx << 6))
  {
    var c, o := CcmpCipher(e, idx), CcmpHandlers<Q>(e, idx).open;
    forall k, f {:trigger c.seal(k, f)} | |f| >= HDR_LEN
      ensures var g := c.seal(k, f).1;
              |g| == |f| + 16 && g[..HDR_LEN] == f[..HDR_LEN] && TopBits(g[HDR_LEN + 3]) == TopBits(idx << 6) &&
                forall q: Q {:trigger o(q, HDR_LEN, g)} :: o(q, HDR_LEN, g).1 == Some(f)
    {
      CcmpFrame(e, idx, k, f);
      TopBitsOf(idx, CcmpSeal(e, idx, k, f).1[HDR_LEN + 3]);
    }
    forall q: Q, h: nat, f {:trigger o(q, h, f)} | h <= |f| && o(q, h, f).1.Some?
      ensures |o(q, h, f).1.value| >= h && o(q, h, f).1.value[..h] == f[..h]
    {
      CcmpHeader(e, idx, h, f);
    }
  }
}
