/** ieee80211/ieee80211_crypt_wep.c: WEP frames. */
module Wep {
  import opened Bytes
  import opened Numbers
  import opened Skb
  import opened Rc4Body

  // ---- The initialisation vector ----

  /** The most significant, the middle and the least significant byte of the low 24 bits. */
  function High(iv: U32): nat { iv / 0x10000 % 0x100 }

  function Middle(iv: U32): nat { iv / 0x100 % 0x100 }

  function Low(iv: U32): nat { iv % 0x100 }

  /** An initialisation vector (B, 0xff, N) with 3 <= B < klen, which gives away key byte B. */
  predicate Weak(iv: U32, klen: nat) {
    Middle(iv) == 0xff && 3 <= High(iv) < klen
  }

  function Add(iv: U32, k: nat): U32 { (iv + k) % 0x1_0000_0000 }

  /** The next vector to send with; weak ones are stepped over. */
  function NextIv(iv: U32, klen: nat): U32 {
    if Weak(Add(iv, 1), klen) then Add(Add(iv, 1), 0x0100) else Add(iv, 1)
  }

  lemma NeverWeak(iv: U32, klen: nat)
    ensures !Weak(NextIv(iv, klen), klen)
  {
    var n: nat := Add(iv, 1);
    if Weak(n, klen) {
      var m: nat := n + 0x0100;
      assert m / 0x100 == n / 0x100 + 1;
      assert Middle(NextIv(iv, klen)) == 0;
    }
  }

  // ---- Frames ----

  function WepHdr(iv: U32, idx: Byte): (h: seq<Byte>)
    ensures |h| == 4
  {
    [High(iv) as Byte, Middle(iv) as Byte, Low(iv) as Byte, idx << 6]
  }

  /** The RC4 key: three bytes of vector before the secret part. */
  function SeedKey(hdr: seq<Byte>, key: seq<Byte>): (k: seq<Byte>)
    requires |hdr| == 4
    ensures |k| == 3 + |key|
  {
    hdr[..3] + key
  }

  /** The frame prism2_wep_encrypt makes of f under the vector iv. */
  function Sealed(ks: KeyStream, icv: CheckSum, key: seq<Byte>, iv: U32, idx: Byte, h: nat,
                  f: seq<Byte>): (r: seq<Byte>)
    requires h <= |f|
    ensures |r| == |f| + 8
  {
    var hdr := WepHdr(iv, idx);
    (f[..h] + hdr) + SealedBody(ks, icv, SeedKey(hdr, key), f[h..])
  }

  datatype Opened = Opened(frame: seq<Byte>) | Refused(code: int)

  /** The verdict on the decrypted data d behind the MAC header hd. */
  function Judge(icv: CheckSum, hd: seq<Byte>, d: seq<Byte>): Opened
    requires |d| >= 4
  {
    if !Genuine(icv, d) then Refused(-2) else Opened(hd + d[..|d| - 4])
  }

  /** The outcome of prism2_wep_decrypt. */
  function Open(ks: KeyStream, icv: CheckSum, key: seq<Byte>, idx: Byte, h: nat, f: seq<Byte>): Opened {
    if |f| < h + 8 then Refused(-1)
    else if f[h + 3] >> 6 != idx then Refused(-1)
    else Judge(icv, f[..h], XorStream(f[h + 4..], ks(SeedKey(f[h..h + 4], key), |f| - h - 4)))
  }

  lemma KeyIndexField(idx: Byte)
    requires idx < 4
    ensures (idx << 6) >> 6 == idx
  {
  }

  /** Decryption undoes encryption under the same key, whatever happened to the MAC header on the way. */
  lemma OpenSealed(ks: KeyStream, icv: CheckSum, key: seq<Byte>, iv: U32, idx: Byte, h: nat, f: seq<Byte>, g: seq<Byte>)
    requires idx < 4 && h <= |f| && |g| == |f| + 8 && g[h..] == Sealed(ks, icv, key, iv, idx, h, f)[h..]
    ensures Open(ks, icv, key, idx, h, g) == Opened(g[..h] + f[h..])
  {
    var hdr := WepHdr(iv, idx);
    Sections(h, 4, g, f[..h], hdr, SealedBody(ks, icv, SeedKey(hdr, key), f[h..]));
    KeyIndexField(idx);
    OpenSealedBody(ks, icv, SeedKey(hdr, key), f[h..]);
  }

  // ---- In place ----

  class WepData {
    const body: Sealer
    var iv: U32
    var key: seq<Byte>
    var keyIdx: Byte

    /** prism2_wep_init; the first vector is random. */
    constructor (icv: CheckSum, idx: Byte, random: U32)
      ensures Valid() && fresh(body) && fresh(body.rc4) && fresh(body.rc4.S) && keyIdx == idx && body.icv == icv
    {
      body := new Sealer(icv);
      iv, key, keyIdx := random, [], idx;
    }

    ghost predicate Valid()
      reads this
    {
      |key| <= 13 && body.Valid()
    }

    /** prism2_wep_set_key. */
    method SetKey(k: seq<Byte>) returns (rc: int)
      requires Valid()
      modifies this
      ensures Valid() && (rc == 0 <==> |k| <= 13) && (rc == 0 || rc == -1)
      ensures key == if rc == 0 then k else old(key)
      ensures iv == old(iv) && keyIdx == old(keyIdx)
    {
      if |k| > 13 {
        return -1;
      }
      key := k;
      return 0;
    }

    /** Steps to the next vector; klen is the length of the RC4 key. */
    method AdvanceIv(klen: nat)
      modifies `iv
      ensures iv == NextIv(old(iv), klen)
    {
      iv := Add(iv, 1);
      if Middle(iv) == 0xff {
        var b := High(iv);
        if b >= 3 && b < klen {
          iv := Add(iv, 0x0100);
        }
      }
    }

    /** prism2_wep_encrypt: -1 without room, else the frame is sealed under the next vector. */
    method Encrypt(skb: Buffer, h: nat) returns (rc: int)
      requires Valid() && skb.Valid() && body.Apart(skb.buf)
      modifies `iv, skb, skb.buf, body.rc4, body.rc4.S
      ensures Valid() && skb.Valid() && (rc == 0 || rc == -1)
      ensures rc == 0 <==> old(skb.Headroom() >= 4 && skb.Tailroom() >= 4 && skb.len >= h)
      ensures rc == 0 ==> iv == NextIv(old(iv), 3 + |key|) &&
                          skb.Frame() == Sealed(Rc4Stream, body.icv, key, iv, keyIdx, h, old(skb.Frame()))
      ensures rc != 0 ==> skb.Frame() == old(skb.Frame()) && iv == old(iv)
    {
      if skb.Headroom() < 4 || skb.Tailroom() < 4 || skb.len < h {
        return -1;
      }
      EncryptFrame(skb, h);
      return 0;
    }

    /** The header under the next vector. */
    method WriteHdr(skb: Buffer, h: nat) returns (hdr: seq<Byte>)
      requires Valid() && skb.Valid() && skb.Headroom() >= 4 && skb.len >= h
      modifies `iv, skb, skb.buf
      ensures skb.Valid() && skb.data == old(skb.data) - 4 && skb.len == old(skb.len) + 4
      ensures iv == NextIv(old(iv), 3 + |key|) && hdr == WepHdr(iv, keyIdx)
      ensures skb.buf[..] == Put(old(skb.buf[..]), skb.data, old(skb.Frame())[..h] + hdr)
    {
      ghost var start, f := skb.buf[..], skb.Frame();
      skb.MakeRoom(4, h);
      AdvanceIv(3 + |key|);
      hdr := WepHdr(iv, keyIdx);
      PutTwo(start, skb.data, f[..h], hdr);
      Store(skb.buf, skb.data + h, hdr);
    }

    method EncryptFrame(skb: Buffer, h: nat)
      requires Valid() && skb.Valid() && body.Apart(skb.buf)
      requires skb.Headroom() >= 4 && skb.Tailroom() >= 4 && skb.len >= h
      modifies `iv, skb, skb.buf, body.rc4, body.rc4.S
      ensures Valid() && skb.Valid() && iv == NextIv(old(iv), 3 + |key|)
      ensures skb.Frame() == Sealed(Rc4Stream, body.icv, key, iv, keyIdx, h, old(skb.Frame()))
    {
      ghost var start, f := skb.buf[..], skb.Frame();
      var n := skb.len - h;
      var hdr := WriteHdr(skb, h);
      ghost var mid := skb.buf[..];
      var pos := skb.data + h + 4;
      WholeSealed(start, mid, skb.data, pos, n, body.icv, SeedKey(hdr, key), hdr, h, f);
      skb.Extend(4);
      body.SealAt(skb.buf, pos, n, SeedKey(hdr, key));
    }

    /** prism2_wep_decrypt. */
    method Decrypt(skb: Buffer, h: nat) returns (rc: int)
      requires Valid() && skb.Valid() && body.Apart(skb.buf)
      modifies skb, skb.buf, body.rc4, body.rc4.S
      ensures Valid() && skb.Valid()
      ensures Open(Rc4Stream, body.icv, key, keyIdx, h, old(skb.Frame()))
           == if rc == 0 then Opened(skb.Frame()) else Refused(rc)
      ensures rc != 0 ==> skb.data == old(skb.data) && skb.len == old(skb.len)
    {
      if skb.len < h + 8 {
        return -1;
      }
      ghost var f := skb.Frame();
      var pos := skb.data + h;
      PieceAt(skb.buf[..], skb.data, skb.len);
      var hdr := skb.buf[pos..pos + 4];
      assert hdr == f[h..h + 4] && hdr[3] == f[h + 3];
      if hdr[3] >> 6 != keyIdx {
        return -1;
      }
      rc := DecryptFrame(skb, h, hdr, f);
    }

    method DecryptFrame(skb: Buffer, h: nat, hdr: seq<Byte>, ghost f: seq<Byte>) returns (rc: int)
      requires Valid() && skb.Valid() && body.Apart(skb.buf) && skb.len >= h + 8 && |hdr| == 4 && f == skb.Frame()
      modifies skb, skb.buf, body.rc4, body.rc4.S
      ensures Valid() && skb.Valid()
      ensures Judge(body.icv, f[..h], XorStream(f[h + 4..], Rc4Stream(SeedKey(hdr, key), |f| - h - 4)))
           == if rc == 0 then Opened(skb.Frame()) else Refused(rc)
      ensures rc != 0 ==> skb.data == old(skb.data) && skb.len == old(skb.len)
    {
      var n := skb.len - h - 8;
      var pos := skb.data + h + 4;
      var k := SeedKey(hdr, key);
      ghost var x := XorStream(f[h + 4..], Rc4Stream(k, n + 4));
      ReceivedParts(skb.buf[..], skb.data, h, 4, n, f, x);
      var ok := body.OpenAt(skb.buf, pos, n, k, x);
      if !ok {
        return -2;
      }
      skb.CloseUp(4, h, 4, f[..h], x[..n]);
      return 0;
    }
  }
}
