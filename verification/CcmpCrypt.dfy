/** ieee80211/ieee80211_crypt_ccmp.c: sealing and opening frames in place. */
module CcmpCrypt {
  import opened Bytes
  import opened Ccm
  import opened Ccmp
  import opened Skb

  // ---- The packet number: six bytes, most significant first ----

  function PnValue(pn: seq<Byte>): nat {
    if pn == [] then 0 else 256 * PnValue(pn[..|pn| - 1]) + pn[|pn| - 1] as nat
  }

  function Power256(n: nat): nat { if n == 0 then 1 else 256 * Power256(n - 1) }

  /** One more, with the carry running to the left. */
  function NextPn(pn: seq<Byte>): (r: seq<Byte>)
    ensures |r| == |pn|
  {
    if pn == [] then []
    else if pn[|pn| - 1] == 255 then NextPn(pn[..|pn| - 1]) + [0]
    else pn[..|pn| - 1] + [pn[|pn| - 1] + 1]
  }

  function PnAfter(pn: seq<Byte>, k: nat): (r: seq<Byte>)
    ensures |r| == |pn|
  {
    if k == 0 then pn else NextPn(PnAfter(pn, k - 1))
  }

  lemma {:induction false} PnBound(pn: seq<Byte>)
    ensures PnValue(pn) < Power256(|pn|)
  {
    if pn != [] { PnBound(pn[..|pn| - 1]); }
  }

  lemma {:induction false} NextPnValue(pn: seq<Byte>)
    ensures PnValue(NextPn(pn)) == if PnValue(pn) + 1 == Power256(|pn|) then 0 else PnValue(pn) + 1
  {
    if pn != [] {
      var p, b := pn[..|pn| - 1], pn[|pn| - 1];
      PnBound(p);
      if b == 255 {
        NextPnValue(p);
        assert (NextPn(p) + [0])[..|pn| - 1] == NextPn(p);
      } else {
        assert (p + [b + 1])[..|pn| - 1] == p;
        assert (b + 1) as nat == b as nat + 1;
      }
    }
  }

  /** k steps from pn, the counter is k further, modulo 2^48. */
  lemma {:induction false} PnAfterValue(pn: seq<Byte>, k: nat)
    requires k < Power256(|pn|)
    ensures var v := PnValue(pn) + k;
            PnValue(PnAfter(pn, k)) == if v < Power256(|pn|) then v else v - Power256(|pn|)
  {
    PnBound(pn);
    if k > 0 {
      PnAfterValue(pn, k - 1);
      NextPnValue(PnAfter(pn, k - 1));
    }
  }

  /** No packet number repeats within 2^48 frames. */
  lemma PnsDiffer(pn: seq<Byte>, j: nat, k: nat)
    requires |pn| == 6 && j < k < Power256(6)
    ensures PnAfter(pn, j) != PnAfter(pn, k)
  {
    PnAfterValue(pn, j);
    PnAfterValue(pn, k);
  }

  // ---- One block of the interleaved loops, as sequences ----

  /** What is left of a sealing run: n bytes of s at p, from counter i and chaining value x. */
  ghost function SealRest(e: BlockCipher, ks: KeyStream, i: nat, x: Block, s: seq<Byte>, p: nat, n: nat)
    : (Block, seq<Byte>)
  {
    var r := SealFrom(e, ks, i, x, Piece(s, p, n));
    (r.0, Put(s, p, r.1))
  }

  ghost function OpenRest(e: BlockCipher, ks: KeyStream, i: nat, x: Block, s: seq<Byte>, p: nat, n: nat)
    : (Block, seq<Byte>)
  {
    var r := OpenFrom(e, ks, i, x, Piece(s, p, n));
    (r.0, Put(s, p, r.1))
  }

  lemma SealStep(e: BlockCipher, ks: KeyStream, i: nat, x: Block, s: seq<Byte>, p: nat, n: nat, k: nat)
    requires 0 < n && k == Min(16, n) && p + n <= |s|
    ensures var m := Piece(s, p, k);
            SealRest(e, ks, i + 1, e(XorInto(x, m)), Put(s, p, Xor(m, ks(i))), p + k, n - k)
              == SealRest(e, ks, i, x, s, p, n)
  {
    var m := Piece(s, p, k);
    PieceSplit(s, p, k, n);
    PieceElsewhere(s, p, Xor(m, ks(i)), p + k, n - k);
    PutTwo(s, p, Xor(m, ks(i)), SealFrom(e, ks, i + 1, e(XorInto(x, m)), Piece(s, p + k, n - k)).1);
  }

  lemma OpenStep(e: BlockCipher, ks: KeyStream, i: nat, x: Block, s: seq<Byte>, p: nat, n: nat, k: nat)
    requires 0 < n && k == Min(16, n) && p + n <= |s|
    ensures var m := Xor(Piece(s, p, k), ks(i));
            OpenRest(e, ks, i + 1, e(XorInto(x, m)), Put(s, p, m), p + k, n - k) == OpenRest(e, ks, i, x, s, p, n)
  {
    var m := Xor(Piece(s, p, k), ks(i));
    PieceSplit(s, p, k, n);
    PieceElsewhere(s, p, m, p + k, n - k);
    PutTwo(s, p, m, OpenFrom(e, ks, i + 1, e(XorInto(x, m)), Piece(s, p + k, n - k)).1);
  }

  lemma NothingLeft(e: BlockCipher, ks: KeyStream, i: nat, x: Block, s: seq<Byte>, p: nat)
    ensures SealRest(e, ks, i, x, s, p, 0) == (x, s) && OpenRest(e, ks, i, x, s, p, 0) == (x, s)
  {
    assert Put(s, p, []) == s;
  }

  /** The chunk lengths of the loops: whole blocks and the rest. */
  lemma ChunkLength(n: nat, i: nat)
    requires 1 <= i <= (n + 15) / 16
    ensures 16 * (i - 1) < n
    ensures (if i == (n + 15) / 16 && n % 16 != 0 then n % 16 else 16) == Min(16, n - 16 * (i - 1))
  {
  }

  lemma XorPrefix(m: seq<Byte>, s: seq<Byte>)
    requires |m| <= |s|
    ensures Xor(m, Piece(s, 0, |m|)) == Xor(m, s)
  {
    PieceAt(s, 0, |m|);
  }

  // ---- Frames as sequences ----

  /** Nonce and additional data come from the first 32 bytes. */
  lemma HeadOnly(hd: seq<Byte>, pn: seq<Byte>)
    requires |hd| >= 32 && |pn| == 6
    ensures Nonce(hd[..32], pn) == Nonce(hd, pn) && AadBuffer(hd[..32]) == AadBuffer(hd)
  {
    var a := hd[..32];
    assert a[10..16] == hd[10..16] && a[4..22] == hd[4..22] && a[24..30] == hd[24..30];
    assert MaskedHdr(a) == MaskedHdr(hd);
  }

  /** The one-pass form gives the body and tag of a sealed frame. */
  lemma SealedBytes(e: BlockCipher, pn: seq<Byte>, hd: seq<Byte>, m: seq<Byte>)
    requires |hd| >= 32 && |pn| == 6
    ensures var ks := StreamOf(e, Nonce(hd, pn)); var r := SealFrom(e, ks, 1, Start(e, hd, pn, |m|), m);
            (r.1, SealedTag(ks, r.0)) == SealedBody(e, pn, hd, m)
  {
    SealIsCcm(e, StreamOf(e, Nonce(hd, pn)), Start(e, hd, pn, |m|), m);
    TagFromStart(e, hd, pn, m);
  }

  class KeyData {
    const setkey: seq<Byte> -> BlockCipher
    var e: BlockCipher
    var keyIdx: Byte
    var keySet: bool
    const txPn: array<Byte>
    const rxPn: array<Byte>
    var formatErrors: nat
    var decryptErrors: nat

    /** ieee80211_ccmp_init. */
    constructor (idx: Byte, setkey: seq<Byte> -> BlockCipher)
      ensures Valid() && fresh(txPn) && fresh(rxPn) && keyIdx == idx && !keySet && this.setkey == setkey
      ensures txPn[..] == Zeros(6)
    {
      this.setkey := setkey;
      e := setkey(Zeros(16));
      keyIdx := idx;
      keySet := false;
      txPn := new Byte[6](_ => 0);
      rxPn := new Byte[6](_ => 0);
      formatErrors, decryptErrors := 0, 0;
    }

    ghost predicate Valid() {
      txPn.Length == rxPn.Length == 6 && txPn != rxPn
    }

    /** ieee80211_ccmp_set_key: installs a 16-byte key, or removes it, and forgets all counters. */
    method SetKey(key: seq<Byte>, rsc: seq<Byte>) returns (rc: int)
      requires Valid() && (rsc == [] || |rsc| == 6)
      modifies this, txPn, rxPn
      ensures rc == 0 <==> |key| == 16 || |key| == 0
      ensures rc == 0 || rc == -1
      ensures keyIdx == old(keyIdx) && formatErrors == 0 && decryptErrors == 0 && txPn[..] == Zeros(6)
      ensures keySet <==> |key| == 16
      ensures |key| == 16 ==> e == setkey(key)
      ensures rxPn[..] == if |key| == 16 && |rsc| == 6 then [rsc[5], rsc[4], rsc[3], rsc[2], rsc[1], rsc[0]]
                          else Zeros(6)
    {
      Store(txPn, 0, Zeros(6));
      Store(rxPn, 0, Zeros(6));
      formatErrors, decryptErrors, keySet := 0, 0, false;
      if |key| == 16 {
        keySet := true;
        if rsc != [] {
          rxPn[0], rxPn[1], rxPn[2] := rsc[5], rsc[4], rsc[3];
          rxPn[3], rxPn[4], rxPn[5] := rsc[2], rsc[1], rsc[0];
        }
        e := setkey(key);
      } else if |key| != 0 {
        return -1;
      }
      return 0;
    }

    /** ieee80211_ccmp_aes_encrypt. */
    method AesEncrypt(pt: array<Byte>, ct: array<Byte>)
      requires pt.Length == ct.Length == 16
      modifies ct
      ensures ct[..] == e(old(pt[..]))
    {
      var y := e(pt[..]);
      PutAll(ct[..], y);
      Store(ct, 0, y);
    }

    /** The packet number's increment. */
    method IncPn()
      requires Valid()
      modifies txPn
      ensures txPn[..] == NextPn(old(txPn[..]))
    {
      ghost var pn := txPn[..];
      assert pn[..6] == pn && NextPn(pn) + Zeros(0) == NextPn(pn);
      var i := 5;
      while i >= 0
        invariant -1 <= i <= 5
        invariant NextPn(pn) == NextPn(pn[..i + 1]) + Zeros(5 - i)
        invariant txPn[i + 1..] == Zeros(5 - i) && txPn[..i + 1] == pn[..i + 1]
      {
        assert pn[..i + 1][..i] == pn[..i] && pn[..i + 1][i] == pn[i] == txPn[i];
        txPn[i] := txPn[i] + 1;
        if txPn[i] != 0 {
          assert txPn[..] == pn[..i] + [pn[i] + 1] + Zeros(5 - i);
          return;
        }
        assert pn[i] == 255 && [0] + Zeros(5 - i) == Zeros(6 - i);
        assert NextPn(pn[..i]) + [0] + Zeros(5 - i) == NextPn(pn[..i]) + Zeros(6 - i);
        assert txPn[i..] == [0] + txPn[i + 1..];
        i := i - 1;
      }
    }

    /** ccmp_init_blocks: the counter block, the chaining value after the additional data, and S_0. */
    method InitBlocks(hdr: seq<Byte>, pn: seq<Byte>, dlen: nat, b0: array<Byte>, auth: array<Byte>, s0: array<Byte>)
      requires |hdr| >= 32 && |pn| == 6 && b0.Length == auth.Length == s0.Length == 16
      requires b0 != auth && b0 != s0 && auth != s0
      modifies b0, auth, s0
      ensures b0[..] == Counter(Nonce(hdr, pn), 0) && s0[..] == StreamOf(e, Nonce(hdr, pn))(0)
      ensures auth[..] == Start(e, hdr, pn, dlen)
    {
      BuildB0(hdr, pn, dlen, b0);
      var aad := BuildAad(hdr);
      AesEncrypt(b0, auth);
      assert aad[..][0..16] == AadBuffer(hdr)[..16] && aad[..][16..32] == AadBuffer(hdr)[16..];
      Absorb(auth, aad, 0);
      Absorb(auth, aad, 16);
      ToCounter(b0, Nonce(hdr, pn), dlen);
      AesEncrypt(b0, s0);
    }

    /** Authenticates 16 bytes of aad. */
    method Absorb(auth: array<Byte>, aad: array<Byte>, i: nat)
      requires auth.Length == 16 && aad.Length == 32 && auth != aad && i + 16 <= 32
      modifies auth
      ensures auth[..] == e(Xor(old(auth[..]), aad[..][i..i + 16]))
    {
      PieceWhole(auth[..]);
      PieceAt(aad[..], i, 16);
      assert Piece(aad[..], i, 16) == aad[..][i..i + 16];
      PutAll(auth[..], Xor(auth[..], aad[..][i..i + 16]));
      XorBlock(auth, 0, aad, i, 16);
      AesEncrypt(auth, auth);
    }

    static method ToCounter(b0: array<Byte>, ghost nonce: seq<Byte>, ghost dlen: nat)
      requires b0.Length == 16 && |nonce| == 13 && b0[..] == FirstBlock(nonce, dlen)
      modifies b0
      ensures b0[..] == Counter(nonce, 0)
    {
      b0[0] := b0[0] & 0x07;
      b0[14], b0[15] := 0, 0;
      assert Hi(0) == 0 && Lo(0) == 0;
      assert b0[..] == Counter(nonce, 0);
    }

    static method BuildB0(hdr: seq<Byte>, pn: seq<Byte>, dlen: nat, b0: array<Byte>)
      requires |hdr| >= 32 && |pn| == 6 && b0.Length == 16
      modifies b0
      ensures b0[..] == FirstBlock(Nonce(hdr, pn), dlen)
    {
      b0[0], b0[1] := 0x59, QosByte(hdr);
      Store(b0, 2, hdr[10..16]);
      Store(b0, 8, pn);
      b0[14], b0[15] := Hi(dlen), Lo(dlen);
      assert b0[..] == FirstBlock(Nonce(hdr, pn), dlen);
    }

    static method BuildAad(hdr: seq<Byte>) returns (aad: array<Byte>)
      requires |hdr| >= 32
      ensures fresh(aad) && aad[..] == AadBuffer(hdr)
    {
      aad := new Byte[32](_ => 0);
      aad[1], aad[2], aad[3] := Lo(AadLength(hdr)), MaskFc0(hdr[0]), MaskFc1(hdr[1]);
      Store(aad, 4, hdr[4..22]);
      aad[22] := MaskSeq(hdr[22]);
      assert aad[..24] == [0, Lo(AadLength(hdr))] + MaskedHdr(hdr);
      assert forall i :: 24 <= i < 32 ==> aad[i] == 0;
      assert aad[24..] == Zeros(8);
      BuildAadTail(hdr, aad);
    }

    /** Address 4 and the QoS byte, where the header has them. */
    static method BuildAadTail(hdr: seq<Byte>, aad: array<Byte>)
      requires |hdr| >= 32 && aad.Length == 32
      requires aad[..24] == [0, Lo(AadLength(hdr))] + MaskedHdr(hdr) && aad[24..] == Zeros(8)
      modifies aad
      ensures aad[..] == AadBuffer(hdr)
    {
      ghost var head := aad[..24];
      if HasAddr4(hdr) {
        Store(aad, 24, hdr[24..30]);
        if IsQos(hdr) {
          aad[30] := QosByte(hdr);
        }
        assert aad[24..] == hdr[24..30] + [QosByte(hdr), 0];
      } else {
        if IsQos(hdr) {
          aad[24] := QosByte(hdr);
        }
        assert aad[24..] == [QosByte(hdr), 0] + Zeros(6);
      }
      assert aad[..24] == head;
      assert aad[..] == aad[..24] + aad[24..];
    }

    /** Sets the block number. */
    static method SetCounter(b0: array<Byte>, i: nat, ghost nonce: seq<Byte>)
      requires b0.Length == 16 && |nonce| == 13 && b0[..14] == [0x01] + nonce
      modifies b0
      ensures b0[..] == Counter(nonce, i)
    {
      b0[14], b0[15] := Hi(i), Lo(i);
      assert b0[..] == Counter(nonce, i);
    }

    /** The key stream block of counter i, xored into k bytes of buf at p. */
    method CryptBytes(buf: array<Byte>, p: nat, k: nat, i: nat, b0: array<Byte>, s: array<Byte>, ghost nonce: seq<Byte>)
      requires p + k <= buf.Length && k <= 16 && b0.Length == s.Length == 16 && |nonce| == 13 &&
               b0[..14] == [0x01] + nonce
      requires buf != b0 && buf != s && b0 != s
      modifies buf, b0, s
      ensures b0[..14] == [0x01] + nonce &&
              buf[..] == Put(old(buf[..]), p, Xor(Piece(old(buf[..]), p, k), StreamOf(e, nonce)(i)))
    {
      SetCounter(b0, i, nonce);
      AesEncrypt(b0, s);
      XorPrefix(Piece(buf[..], p, k), s[..]);
      XorBlock(buf, p, s, 0, k);
    }

    /** k bytes of buf at p, authenticated. */
    method AuthBytes(buf: array<Byte>, p: nat, k: nat, b: array<Byte>)
      requires p + k <= buf.Length && k <= 16 && b.Length == 16 && buf != b
      modifies b
      ensures b[..] == e(XorInto(old(b[..]), Piece(buf[..], p, k)))
    {
      XorBlock(b, 0, buf, p, k);
      AesEncrypt(b, b);
    }

    /** One turn of the loop in ieee80211_ccmp_encrypt, n bytes from its end. */
    method SealTurn(buf: array<Byte>, p: nat, n: nat, k: nat, i: nat, b0: array<Byte>, b: array<Byte>, s: array<Byte>,
                    ghost nonce: seq<Byte>)
      requires 0 < i && 0 < n && k == Min(16, n) && p + n <= buf.Length && b0.Length == b.Length == s.Length == 16
      requires |nonce| == 13 && b0[..14] == [0x01] + nonce
      requires buf != b0 && buf != s && buf != b && b0 != s && b0 != b && b != s
      modifies buf, b0, b, s
      ensures b0[..14] == [0x01] + nonce
      ensures SealRest(e, StreamOf(e, nonce), i + 1, b[..], buf[..], p + k, n - k)
           == SealRest(e, StreamOf(e, nonce), i, old(b[..]), old(buf[..]), p, n)
    {
      SealStep(e, StreamOf(e, nonce), i, b[..], buf[..], p, n, k);
      AuthBytes(buf, p, k, b);
      CryptBytes(buf, p, k, i, b0, s, nonce);
    }

    /** The loop of ieee80211_ccmp_encrypt over n body bytes at pos. */
    method SealBody(buf: array<Byte>, pos: nat, n: nat, b0: array<Byte>, b: array<Byte>, s: array<Byte>,
                    ghost nonce: seq<Byte>)
      requires pos + n <= buf.Length && b0.Length == b.Length == s.Length == 16 && |nonce| == 13 &&
               b0[..14] == [0x01] + nonce
      requires buf != b0 && buf != s && buf != b && b0 != s && b0 != b && b != s
      modifies buf, b0, b, s
      ensures (b[..], buf[..]) == SealRest(e, StreamOf(e, nonce), 1, old(b[..]), old(buf[..]), pos, n)
    {
      ghost var ks := StreamOf(e, nonce);
      ghost var goal := SealRest(e, ks, 1, b[..], buf[..], pos, n);
      var blocks, last := (n + 15) / 16, n % 16;
      var p := pos;
      for i := 1 to blocks + 1
        invariant pos <= p <= pos + n && p == pos + Min(16 * (i - 1), n) && b0[..14] == [0x01] + nonce
        invariant SealRest(e, ks, i, b[..], buf[..], p, pos + n - p) == goal
      {
        ChunkLength(n, i);
        var k := if i == blocks && last != 0 then last else 16;
        SealTurn(buf, p, pos + n - p, k, i, b0, b, s, nonce);
        p := p + k;
      }
      NothingLeft(e, ks, blocks + 1, b[..], buf[..], p);
    }

    /** One turn of the loop in ieee80211_ccmp_decrypt, n bytes from its end. */
    method OpenTurn(buf: array<Byte>, p: nat, n: nat, k: nat, i: nat, b0: array<Byte>, a: array<Byte>, s: array<Byte>,
                    ghost nonce: seq<Byte>)
      requires 0 < i && 0 < n && k == Min(16, n) && p + n <= buf.Length && b0.Length == a.Length == s.Length == 16
      requires |nonce| == 13 && b0[..14] == [0x01] + nonce
      requires buf != b0 && buf != s && buf != a && b0 != s && b0 != a && a != s
      modifies buf, b0, a, s
      ensures b0[..14] == [0x01] + nonce
      ensures OpenRest(e, StreamOf(e, nonce), i + 1, a[..], buf[..], p + k, n - k)
           == OpenRest(e, StreamOf(e, nonce), i, old(a[..]), old(buf[..]), p, n)
    {
      OpenStep(e, StreamOf(e, nonce), i, a[..], buf[..], p, n, k);
      PiecePut(buf[..], p, Xor(Piece(buf[..], p, k), StreamOf(e, nonce)(i)));
      CryptBytes(buf, p, k, i, b0, s, nonce);
      AuthBytes(buf, p, k, a);
    }

    /** The loop of ieee80211_ccmp_decrypt over n body bytes at pos. */
    method OpenBody(buf: array<Byte>, pos: nat, n: nat, b0: array<Byte>, a: array<Byte>, s: array<Byte>,
                    ghost nonce: seq<Byte>)
      requires pos + n <= buf.Length && b0.Length == a.Length == s.Length == 16 && |nonce| == 13 &&
               b0[..14] == [0x01] + nonce
      requires buf != b0 && buf != s && buf != a && b0 != s && b0 != a && a != s
      modifies buf, b0, a, s
      ensures (a[..], buf[..]) == OpenRest(e, StreamOf(e, nonce), 1, old(a[..]), old(buf[..]), pos, n)
    {
      ghost var ks := StreamOf(e, nonce);
      ghost var goal := OpenRest(e, ks, 1, a[..], buf[..], pos, n);
      var blocks, last := (n + 15) / 16, n % 16;
      var p := pos;
      for i := 1 to blocks + 1
        invariant pos <= p <= pos + n && p == pos + Min(16 * (i - 1), n) && b0[..14] == [0x01] + nonce
        invariant OpenRest(e, ks, i, a[..], buf[..], p, pos + n - p) == goal
      {
        ChunkLength(n, i);
        var k := if i == blocks && last != 0 then last else 16;
        OpenTurn(buf, p, pos + n - p, k, i, b0, a, s, nonce);
        p := p + k;
      }
      NothingLeft(e, ks, blocks + 1, a[..], buf[..], p);
    }

    /** Makes room for the CCMP header and writes it, with the next packet number. */
    method WriteHdr(skb: Buffer, h: nat)
      requires Valid() && skb.Valid() && 8 <= skb.data && h <= skb.len && skb.buf != txPn && skb.buf != rxPn
      modifies skb, skb.buf, txPn
      ensures skb.Valid() && skb.data == old(skb.data) - 8 && skb.len == old(skb.len) + 8
      ensures txPn[..] == NextPn(old(txPn[..]))
      ensures skb.buf[..] == Put(old(skb.buf[..]), skb.data, old(skb.Frame())[..h] + CcmpHdr(txPn[..], keyIdx))
    {
      ghost var s, f := skb.buf[..], skb.Frame();
      skb.MakeRoom(HDR_LEN, h);
      IncPn();
      Store(skb.buf, skb.data + h, CcmpHdr(txPn[..], keyIdx));
      PutTwo(s, skb.data, f[..h], CcmpHdr(txPn[..], keyIdx));
    }

    /** Starts both halves of CCM for the frame whose header hd lies at d. */
    method StartFrame(buf: array<Byte>, d: nat, pn: seq<Byte>, n: nat, b0: array<Byte>, b: array<Byte>,
                      s0: array<Byte>, ghost hd: seq<Byte>)
      requires |pn| == 6 && b0.Length == b.Length == s0.Length == 16 && b0 != b && b0 != s0 && b != s0
      requires |hd| >= 32 && d + |hd| <= buf.Length && Piece(buf[..], d, |hd|) == hd
      modifies b0, b, s0
      ensures b0[..14] == [0x01] + Nonce(hd, pn) && b[..] == Start(e, hd, pn, n)
      ensures s0[..] == StreamOf(e, Nonce(hd, pn))(0)
    {
      PieceSplit(buf[..], d, 32, |hd|);
      HeadOnly(hd, pn);
      InitBlocks(Piece(buf[..], d, 32), pn, n, b0, b, s0);
    }

    static method WriteMic(buf: array<Byte>, mic: nat, b: array<Byte>, s0: array<Byte>)
      requires mic + 8 <= buf.Length && b.Length == s0.Length == 16 && buf != b && buf != s0
      modifies buf
      ensures buf[..] == Put(old(buf[..]), mic, Xor(b[..][..8], s0[..][..8]))
    {
      ghost var r := Put(buf[..], mic, Xor(b[..][..8], s0[..][..8]));
      forall i | 0 <= i < MIC_LEN {
        buf[mic + i] := XorByte(b[i], s0[i]);
      }
      assert forall i :: 0 <= i < |r| ==> buf[i] == r[i];
    }

    /** Encrypts n body bytes at pos, behind the header hd at d; tag and key stream for it are returned. */
    method SealRun(buf: array<Byte>, d: nat, pos: nat, n: nat, ghost hd: seq<Byte>) returns (b: array<Byte>,
                   s0: array<Byte>)
      requires Valid() && |hd| >= 32 && pos == d + |hd| && pos + n <= buf.Length && Piece(buf[..], d, |hd|) == hd
      requires buf != txPn && buf != rxPn
      modifies buf
      ensures fresh(b) && fresh(s0) && b.Length == s0.Length == 16
      ensures s0[..] == StreamOf(e, Nonce(hd, txPn[..]))(0)
      ensures (b[..], buf[..])
              == SealRest(e, StreamOf(e, Nonce(hd, txPn[..])), 1, Start(e, hd, txPn[..], n), old(buf[..]), pos, n)
    {
      b, s0 := new Byte[16], new Byte[16];
      var b0, s := new Byte[16], new Byte[16];
      StartFrame(buf, d, txPn[..], n, b0, b, s0, hd);
      SealBody(buf, pos, n, b0, b, s, Nonce(hd, txPn[..]));
    }

    /** Seals n body bytes at pos, behind the header hd at d, and writes the tag. */
    method SealAt(buf: array<Byte>, d: nat, pos: nat, n: nat, ghost hd: seq<Byte>)
      requires Valid() && |hd| >= 32 && pos == d + |hd| && pos + n + 8 <= buf.Length && Piece(buf[..], d, |hd|) == hd
      requires buf != txPn && buf != rxPn
      modifies buf
      ensures buf[..] == SealedBuf(old(buf[..]), pos, n, e, txPn[..], hd)
    {
      SealedRaw(buf[..], pos, n, e, txPn[..], hd);
      SealRaw(buf, d, pos, n, hd);
    }

    method SealRaw(buf: array<Byte>, d: nat, pos: nat, n: nat, ghost hd: seq<Byte>)
      requires Valid() && |hd| >= 32 && pos == d + |hd| && pos + n + 8 <= buf.Length && Piece(buf[..], d, |hd|) == hd
      requires buf != txPn && buf != rxPn
      modifies buf
      ensures buf[..] == RawBuf(old(buf[..]), pos, n, e, StreamOf(e, Nonce(hd, txPn[..])), Start(e, hd, txPn[..], n))
    {
      var b, s0 := SealRun(buf, d, pos, n, hd);
      WriteMic(buf, pos + n, b, s0);
    }

    method EncryptFrame(skb: Buffer, h: nat)
      requires Valid() && skb.Valid() && h >= 24 && skb.buf != txPn && skb.buf != rxPn
      requires skb.Headroom() >= 8 && skb.Tailroom() >= 8 && skb.len >= h
      modifies skb, skb.buf, txPn
      ensures skb.Valid() && skb.len == old(skb.len) + 16 && skb.data == old(skb.data) - 8
      ensures txPn[..] == NextPn(old(txPn[..]))
      ensures skb.Frame() == SealedFrame(e, txPn[..], keyIdx, h, old(skb.Frame()))
    {
      ghost var start, f := skb.buf[..], skb.Frame();
      var n := skb.len - h;
      WriteHdr(skb, h);
      ghost var hd := f[..h] + CcmpHdr(txPn[..], keyIdx);
      PiecePut(start, skb.data, hd);
      ghost var mid, pn := skb.buf[..], txPn[..];
      var pos := skb.data + h + HDR_LEN;
      WholeSealed(start, mid, skb.data, pos, n, e, pn, keyIdx, h, f);
      skb.Extend(MIC_LEN);
      SealAt(skb.buf, skb.data, pos, n, hd);
      assert skb.buf[..] == SealedBuf(mid, pos, n, e, pn, hd);
    }

    /** ieee80211_ccmp_encrypt: -1 without room for header and tag or for a frame shorter than its
        header; otherwise the frame becomes its sealed form under the next packet number. */
    method Encrypt(skb: Buffer, h: nat) returns (rc: int)
      requires Valid() && skb.Valid() && h >= 24 && skb.buf != txPn && skb.buf != rxPn
      modifies skb, skb.buf, txPn
      ensures skb.Valid() && (rc == 0 || rc == -1)
      ensures rc == 0 <==> old(skb.Headroom() >= 8 && skb.Tailroom() >= 8 && skb.len >= h)
      ensures rc == 0 ==> txPn[..] == NextPn(old(txPn[..])) &&
                          skb.Frame() == SealedFrame(e, txPn[..], keyIdx, h, old(skb.Frame()))
      ensures rc != 0 ==> skb.Frame() == old(skb.Frame()) && txPn[..] == old(txPn[..])
    {
      if skb.Headroom() < HDR_LEN || skb.Tailroom() < MIC_LEN || skb.len < h {
        return -1;
      }
      EncryptFrame(skb, h);
      return 0;
    }

    /** The received tag, xored with S_0. */
    static method UnmaskMic(buf: array<Byte>, mic: nat, b: array<Byte>)
      requires mic + 8 <= buf.Length && b.Length == 16 && buf != b
      modifies buf
      ensures buf[..] == UnmaskedBuf(old(buf[..]), mic, b[..])
    {
      PieceAt(b[..], 0, 8);
      assert Piece(b[..], 0, 8) == b[..][..8];
      XorBlock(buf, mic, b, 0, 8);
    }

    /** memcmp of the tags. */
    static method SameMic(buf: array<Byte>, mic: nat, a: array<Byte>, ghost u: seq<Byte>,
                          ghost t: seq<Byte>) returns (ok: bool)
      requires mic + 8 <= buf.Length && a.Length == 16 && u == Piece(buf[..], mic, 8) && t == a[..][..8]
      ensures ok <==> u == t
    {
      PieceAt(buf[..], mic, 8);
      ok := true;
      for i := 0 to MIC_LEN
        invariant ok <==> forall j :: 0 <= j < i ==> u[j] == t[j]
      {
        assert u[i] == buf[mic + i] && t[i] == a[i];
        ok := ok && buf[mic + i] == a[i];
      }
    }

    /** Unmasks the tag with S_0 in b and deciphers n body bytes at pos. */
    method OpenRun(buf: array<Byte>, pos: nat, n: nat, b0: array<Byte>, a: array<Byte>, b: array<Byte>,
                   ghost nonce: seq<Byte>)
      requires pos + n + 8 <= buf.Length && b0.Length == a.Length == b.Length == 16 && |nonce| == 13 &&
               b0[..14] == [0x01] + nonce
      requires buf != b0 && buf != b && buf != a && b0 != b && b0 != a && a != b
      modifies buf, b0, a, b
      ensures (a[..], buf[..])
              == OpenRest(e, StreamOf(e, nonce), 1, old(a[..]), UnmaskedBuf(old(buf[..]), pos + n, old(b[..])), pos, n)
    {
      UnmaskMic(buf, pos + n, b);
      OpenBody(buf, pos, n, b0, a, b, nonce);
    }

    /** Deciphers n body bytes at pos and compares the tag behind them. */
    method OpenAt(buf: array<Byte>, d: nat, pos: nat, n: nat, pn: seq<Byte>, ghost hd: seq<Byte>) returns (ok: bool)
      requires |pn| == 6 && |hd| >= 32 && pos == d + |hd| && pos + n + 8 <= buf.Length && Piece(buf[..], d, |hd|) == hd
      modifies buf
      ensures var o := OpenedAt(old(buf[..]), pos, n, e, pn, hd);
              (ok <==> o.0 == o.1) && Piece(buf[..], d, |hd|) == hd && Piece(buf[..], pos, n) == o.2
    {
      ghost var start := buf[..];
      var b0, a, b := new Byte[16], new Byte[16], new Byte[16];
      StartFrame(buf, d, pn, n, b0, a, b, hd);
      ghost var x, s0, nonce := a[..], b[..], Nonce(hd, pn);
      ghost var o := OpenedAt(start, pos, n, e, pn, hd);
      OpenedParts(start, d, pos, n, e, pn, hd, x, s0);
      OpenRun(buf, pos, n, b0, a, b, nonce);
      ghost var r := OpenRest(e, StreamOf(e, nonce), 1, x, UnmaskedBuf(start, pos + n, s0), pos, n);
      assert a[..] == r.0;
      assert buf[..] == r.1;
      assert o.1 == a[..][..8];
      assert o.0 == Piece(buf[..], pos + n, 8);
      ok := SameMic(buf, pos + n, a, o.0, o.1);
    }

    /** Strips a frame whose tag is right and records its packet number. */
    method Accept(skb: Buffer, h: nat, pos: nat, n: nat, pn: seq<Byte>, ghost hd: seq<Byte>, ghost m: seq<Byte>)
      requires Valid() && skb.Valid() && skb.len == h + 16 + n && pos == skb.data + h + 8 && |pn| == 6 && |hd| == h + 8
      requires Piece(skb.buf[..], skb.data, h + 8) == hd && Piece(skb.buf[..], pos, n) == m && skb.buf != rxPn &&
               skb.buf != txPn
      modifies skb, skb.buf, rxPn
      ensures skb.Valid() && skb.Frame() == hd[..h] + m && rxPn[..] == pn
    {
      PutAll(rxPn[..], pn);
      Store(rxPn, 0, pn);
      PieceSplit(skb.buf[..], skb.data, h, h + 8);
      skb.CloseUp(HDR_LEN, h, MIC_LEN, hd[..h], m);
    }

    /** Deciphers the frame and judges it; o is the outcome of OpenAt. */
    method OpenInPlace(skb: Buffer, h: nat, pos: nat, n: nat, pn: seq<Byte>, ghost hd: seq<Byte>,
                       ghost o: (seq<Byte>, seq<Byte>, seq<Byte>)) returns (ok: bool)
      requires Valid() && skb.Valid() && h >= 24 && skb.len == h + 16 + n && pos == skb.data + h + 8 && |pn| == 6
      requires |hd| == h + 8 && Piece(skb.buf[..], skb.data, h + 8) == hd && skb.buf != rxPn && skb.buf != txPn
      requires o == OpenedAt(skb.buf[..], pos, n, e, pn, hd)
      modifies skb, skb.buf, rxPn
      ensures skb.Valid()
      ensures !ok ==> skb.data == old(skb.data) && skb.len == old(skb.len) && rxPn[..] == old(rxPn[..])
      ensures Judge(o, hd, pn) == if ok then Opened(skb.Frame(), pn) else Refused(-5)
      ensures ok ==> rxPn[..] == pn
    {
      ok := OpenAt(skb.buf, skb.data, pos, n, pn, hd);
      if ok {
        Accept(skb, h, pos, n, pn, hd, o.2);
      }
    }

    /** The rest of ieee80211_ccmp_decrypt for a frame with a configured key: -5, with the frame's bytes
        garbled, or the opened frame. */
    method DecryptFrame(skb: Buffer, h: nat, ghost res: Opened) returns (ok: bool)
      requires Valid() && skb.Valid() && h >= 24 && skb.len >= h + 16 && skb.buf != rxPn && skb.buf != txPn
      requires res == Verdict(e, h, skb.Frame())
      modifies skb, skb.buf, rxPn
      ensures skb.Valid()
      ensures !ok ==> skb.data == old(skb.data) && skb.len == old(skb.len) && rxPn[..] == old(rxPn[..])
      ensures res == if ok then Opened(skb.Frame(), rxPn[..]) else Refused(-5)
    {
      var n := skb.len - h - HDR_LEN - MIC_LEN;
      var pos := skb.data + h + HDR_LEN;
      var pn := PnOf(skb.buf[skb.data + h..skb.data + h + 8]);
      ghost var f := skb.Frame();
      ghost var hd := f[..h + 8];
      ghost var o := ReceivedOpened(skb.buf[..], skb.data, h, pos, n, f, pn, e);
      ok := OpenInPlace(skb, h, pos, n, pn, hd, o);
    }

    /** ieee80211_ccmp_decrypt: the key index, or the error of the first check that fails. */
    method Decrypt(skb: Buffer, h: nat) returns (rc: int)
      requires Valid() && skb.Valid() && h >= 24 && skb.buf != rxPn && skb.buf != txPn
      modifies this, skb, skb.buf, rxPn
      ensures skb.Valid() && e == old(e) && keyIdx == old(keyIdx) && keySet == old(keySet)
      ensures OpenedFrame(e, keyIdx, keySet, h, old(skb.Frame()))
              == if rc >= 0 then Opened(skb.Frame(), rxPn[..]) else Refused(rc)
      ensures rc >= 0 ==> rc == keyIdx as int
      ensures rc < 0 ==> skb.data == old(skb.data) && skb.len == old(skb.len) && rxPn[..] == old(rxPn[..])
      ensures rc < 0 && rc != -5 ==> skb.Frame() == old(skb.Frame())
      ensures formatErrors == old(formatErrors) + if rc == -1 || rc == -2 then 1 else 0
      ensures decryptErrors == old(decryptErrors) + if rc == -5 then 1 else 0
    {
      if skb.len < h + HDR_LEN + MIC_LEN {
        formatErrors := formatErrors + 1;
        return -1;
      }
      var b := skb.buf[skb.data + h + 3];
      PieceAt(skb.buf[..], skb.data, skb.len);
      assert b == skb.Frame()[h + 3];
      if b & 0x20 == 0 {
        formatErrors := formatErrors + 1;
        return -2;
      }
      if keyIdx != b >> 6 {
        return -6;
      }
      if !keySet {
        return -3;
      }
      var ok := DecryptFrame(skb, h, Verdict(e, h, skb.Frame()));
      if !ok {
        decryptErrors := decryptErrors + 1;
        return -5;
      }
      return keyIdx as int;
    }
  }

  function UnmaskedBuf(buf: seq<Byte>, mic: nat, s0: Block): seq<Byte> {
    Put(buf, mic, Xor(Piece(buf, mic, 8), s0[..8]))
  }

  /** The parts of the buffer after the receiver's run. */
  lemma OpenedParts(s: seq<Byte>, d: nat, pos: nat, n: nat, e: BlockCipher, pn: seq<Byte>, hd: seq<Byte>, x: Block,
                    s0: Block)
    requires |pn| == 6 && |hd| >= 32 && pos == d + |hd| && pos + n + 8 <= |s| && Piece(s, d, |hd|) == hd
    requires x == Start(e, hd, pn, n) && s0 == StreamOf(e, Nonce(hd, pn))(0)
    ensures var r := OpenRest(e, StreamOf(e, Nonce(hd, pn)), 1, x, UnmaskedBuf(s, pos + n, s0), pos, n);
            Piece(r.1, d, |hd|) == hd &&
            OpenedAt(s, pos, n, e, pn, hd) == (Piece(r.1, pos + n, 8), r.0[..8], Piece(r.1, pos, n))
  {
    var y := Xor(Piece(s, pos + n, 8), s0[..8]);
    var mid := Put(s, pos + n, y);
    PieceElsewhere(s, pos + n, y, pos, n);
    PieceElsewhere(s, pos + n, y, d, |hd|);
    PiecePut(s, pos + n, y);
    var m := OpenFrom(e, StreamOf(e, Nonce(hd, pn)), 1, x, Piece(s, pos, n)).1;
    PieceElsewhere(mid, pos, m, pos + n, 8);
    PieceElsewhere(mid, pos, m, d, |hd|);
    PiecePut(mid, pos, m);
  }

  /** The receiver's view of the tag, the tag it computes, and the deciphered body. */
  function OpenedAt(buf: seq<Byte>, pos: nat, n: nat, e: BlockCipher, pn: seq<Byte>, hd: seq<Byte>)
    : (r: (seq<Byte>, seq<Byte>, seq<Byte>))
    requires |pn| == 6 && |hd| >= 32
    ensures |r.0| == |r.1| == 8 && |r.2| == n
  {
    var ks := StreamOf(e, Nonce(hd, pn));
    var r := OpenFrom(e, ks, 1, Start(e, hd, pn, n), Piece(buf, pos, n));
    (Xor(Piece(buf, pos + n, 8), ks(0)[..8]), r.0[..8], r.1)
  }

  /** The sections of a received frame f of h + n + 16 bytes at d. */
  lemma ReceivedParts(s: seq<Byte>, d: nat, h: nat, pos: nat, n: nat, f: seq<Byte>, pn: seq<Byte>)
    requires pos == d + h + 8 && pos + n + 8 <= |s| && f == Piece(s, d, h + n + 16) && pn == PnOf(s[d + h..d + h + 8])
    ensures Piece(s, d, h + 8) == f[..h + 8] && Piece(s, pos, n) == f[h + 8..|f| - 8]
    ensures Piece(s, pos + n, 8) == f[|f| - 8..] && pn == PnOf(f[h..h + 8])
  {
    PieceAt(s, d, h + n + 16);
    PieceAt(s, d, h + 8); PieceAt(s, pos, n); PieceAt(s, pos + n, 8);
    assert s[d + h..d + h + 8] == f[h..h + 8];
  }

  /** The verdict on a frame. */
  function Judge(o: (seq<Byte>, seq<Byte>, seq<Byte>), hd: seq<Byte>, pn: seq<Byte>): Opened
    requires |hd| >= 8
  {
    if o.0 != o.1 then Refused(-5) else Opened(hd[..|hd| - 8] + o.2, pn)
  }

  lemma OpenedBodyAt(s: seq<Byte>, pos: nat, n: nat, e: BlockCipher, pn: seq<Byte>, hd: seq<Byte>, c: seq<Byte>,
                     u: seq<Byte>)
    requires |hd| >= 32 && |pn| == 6 && Piece(s, pos, n) == c && Piece(s, pos + n, 8) == u
    ensures OpenedBody(e, pn, hd, c, u) == Judge(OpenedAt(s, pos, n, e, pn, hd), hd, pn)
  {
  }

  lemma ReceivedOpened(s: seq<Byte>, d: nat, h: nat, pos: nat, n: nat, f: seq<Byte>, pn: seq<Byte>, e: BlockCipher)
    returns (o: (seq<Byte>, seq<Byte>, seq<Byte>))
    requires pos == d + h + 8 && pos + n + 8 <= |s| && f == Piece(s, d, h + n + 16) &&
             pn == PnOf(s[d + h..d + h + 8]) && h >= 24
    ensures Piece(s, d, h + 8) == f[..h + 8] && pn == PnOf(f[h..h + 8])
    ensures o == OpenedAt(s, pos, n, e, pn, f[..h + 8])
    ensures Verdict(e, h, f) == Judge(o, f[..h + 8], pn)
  {
    o := OpenedAt(s, pos, n, e, pn, f[..h + 8]);
    ReceivedParts(s, d, h, pos, n, f, pn);
    OpenedBodyAt(s, pos, n, e, pn, f[..h + 8], f[h + 8..|f| - 8], f[|f| - 8..]);
  }

  /** The buffer with n body bytes at pos sealed behind hd. */
  function SealedBuf(mid: seq<Byte>, pos: nat, n: nat, e: BlockCipher, pn: seq<Byte>, hd: seq<Byte>): seq<Byte>
    requires |pn| == 6 && |hd| >= 32
  {
    var b := SealedBody(e, pn, hd, Piece(mid, pos, n));
    Put(mid, pos, b.0 + b.1)
  }

  /** The same as the sender computes it: the run over the body, then the tag. */
  ghost function RawBuf(s: seq<Byte>, pos: nat, n: nat, e: BlockCipher, ks: KeyStream, x: Block): seq<Byte> {
    var q := SealRest(e, ks, 1, x, s, pos, n);
    Put(q.1, pos + n, SealedTag(ks, q.0))
  }

  lemma SealedRaw(s: seq<Byte>, pos: nat, n: nat, e: BlockCipher, pn: seq<Byte>, hd: seq<Byte>)
    requires |pn| == 6 && |hd| >= 32
    ensures RawBuf(s, pos, n, e, StreamOf(e, Nonce(hd, pn)), Start(e, hd, pn, n)) == SealedBuf(s, pos, n, e, pn, hd)
  {
    var ks, x := StreamOf(e, Nonce(hd, pn)), Start(e, hd, pn, n);
    var r := SealFrom(e, ks, 1, x, Piece(s, pos, n));
    PutTwo(s, pos, r.1, SealedTag(ks, r.0));
    assert RawBuf(s, pos, n, e, ks, x) == Put(s, pos, r.1 + SealedTag(ks, r.0));
    SealedBytes(e, pn, hd, Piece(s, pos, n));
  }

  lemma WholeSealed(s: seq<Byte>, mid: seq<Byte>, d: nat, pos: nat, n: nat, e: BlockCipher, pn: seq<Byte>, idx: Byte,
                    h: nat, f: seq<Byte>)
    requires |pn| == 6 && 24 <= h <= |f| && d + |f| + 16 <= |s| && f == Piece(s, d + 8, |f|)
    requires mid == Put(s, d, f[..h] + CcmpHdr(pn, idx)) && pos == d + h + 8 && n == |f| - h
    ensures Piece(SealedBuf(mid, pos, n, e, pn, f[..h] + CcmpHdr(pn, idx)), d, |f| + 16)
            == SealedFrame(e, pn, idx, h, f)
  {
    var hd := f[..h] + CcmpHdr(pn, idx);
    FrameParts(s, d, 8, hd, f, h);
    var b := SealedBody(e, pn, hd, f[h..]);
    WholeFrame(s, d, hd, b.0 + b.1);
  }
}
