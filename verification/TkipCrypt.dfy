/** ieee80211/ieee80211_crypt_tkip.c: TKIP in place, on socket buffers and with the cached phase 1 results. */
module TkipCrypt {
  import opened Bytes
  import opened Dot11
  import opened Skb
  import opened Numbers
  import opened TkipMixing
  import opened TkipCounter
  import opened Rc4Body
  import opened Tkip
  import opened WordFeed
  import Michael

  const HDR: nat := 8

  /** struct ieee80211_tkip_data. */
  class TkipData {
    const sbox: Byte -> W16
    const body: Sealer
    const ctx: Michael.Context
    const txTtak: array<W16>
    const rxTtak: array<W16>
    var key: TkipKey
    var keySet: bool
    var keyIdx: Byte
    var txIv32: U32
    var txIv16: W16
    var txDone: bool
    var rxIv32: U32
    var rxIv16: W16
    var rxDone: bool
    var rxIv32New: U32
    var rxIv16New: W16
    var icvErrors: nat
    var micFailures: nat

    /** ieee80211_tkip_init. */
    constructor (sbox: Byte -> W16, icv: CheckSum, idx: Byte)
      ensures Valid() && keyIdx == idx && !keySet && this.sbox == sbox && body.icv == icv
      ensures fresh(body) && fresh(body.rc4) && fresh(body.rc4.S) && fresh(ctx) && fresh(ctx.pending) &&
              fresh(txTtak) && fresh(rxTtak)
    {
      this.sbox := sbox;
      body := new Sealer(icv);
      ctx := new Michael.Context();
      txTtak := new W16[5](_ => 0);
      rxTtak := new W16[5](_ => 0);
      key, keySet, keyIdx := NoKey(), false, idx;
      txIv32, txIv16, txDone := 0, 0, false;
      rxIv32, rxIv16, rxDone, rxIv32New, rxIv16New := 0, 0, false, 0, 0;
      icvErrors, micFailures := 0, 0;
    }

    ghost predicate Valid()
      reads this, ctx
    {
      body.Valid() && ctx.Valid() && txTtak.Length == 5 && rxTtak.Length == 5 && txTtak != rxTtak &&
      (body.rc4.S as object) != txTtak && (body.rc4.S as object) != rxTtak
    }

    /** A buffer that shares nothing with this state. */
    ghost predicate Apart(buf: array<Byte>) {
      body.Apart(buf) && buf != ctx.pending && (buf as object) != txTtak && (buf as object) != rxTtak
    }

    ghost function TxView(): Tx<Ttak>
      requires Valid()
      reads this, ctx, txTtak
    {
      Tx(txIv32, txIv16, txDone, txTtak[..])
    }

    ghost function RxView(): Rx<Ttak>
      requires Valid()
      reads this, ctx, rxTtak
    {
      Rx(rxIv32, rxIv16, rxDone, rxTtak[..], rxIv32New, rxIv16New)
    }

    ghost function Me(): Receiver<Ttak>
      reads this
    {
      TkipReceiver(MixerOf(sbox, key), body.icv, keyIdx, keySet, key[24..32])
    }

    static method Zero(a: array<W16>)
      modifies a
      ensures forall i :: 0 <= i < a.Length ==> a[i] == 0
    {
      for i := 0 to a.Length
        invariant forall j :: 0 <= j < i ==> a[j] == 0
      {
        a[i] := 0;
      }
    }

    /** memset of everything but the key index. */
    method Clear()
      requires Valid()
      modifies this, txTtak, rxTtak
      ensures Valid() && keyIdx == old(keyIdx) && !keySet && !txDone && !rxDone
      ensures txIv32 == 0 && txIv16 == 0 && rxIv32 == 0 && rxIv16 == 0 && rxIv32New == 0 && rxIv16New == 0
    {
      key, keySet := NoKey(), false;
      txIv32, txIv16, txDone := 0, 0, false;
      rxIv32, rxIv16, rxDone, rxIv32New, rxIv16New := 0, 0, false, 0, 0;
      icvErrors, micFailures := 0, 0;
      Zero(txTtak);
      Zero(rxTtak);
    }

    /** ieee80211_tkip_set_key: a key of 32 bytes starts the counter at 1 and voids both caches. */
    method SetKey(k: seq<Byte>, start: Counter) returns (rc: int)
      requires Valid()
      modifies this, txTtak, rxTtak
      ensures Valid() && keyIdx == old(keyIdx) && (rc == 0 || rc == -1)
      ensures rc == 0 <==> |k| == 32 || |k| == 0
      ensures keySet <==> |k| == 32
      ensures |k| == 32 ==>
                key == k && TkipCounter.Initial(TxView()) && !RxView().done && rxIv32 == start.iv32 &&
                  rxIv16 == start.iv16
    {
      Clear();
      if |k| == 32 {
        key := k;
        keySet := true;
        txIv16 := 1;
        rxIv32, rxIv16 := start.iv32, start.iv16;
      } else if |k| != 0 {
        return -1;
      }
      return 0;
    }

    // ---- Sending ----

    /** The RC4 key of the next frame; phase 1 is done again only if it must be. */
    method MixTx(ta: Mac) returns (seed: seq<Byte>)
      requires Valid()
      modifies `txDone, txTtak
      ensures Valid() && txDone && |seed| == 16 && seed == SentKey(MixerOf(sbox, key), ta, old(TxView()))
      ensures txTtak[..] == Current(Phase1Of(MixerOf(sbox, key), ta), old(TxView()))
    {
      ghost var p1, tx := Phase1Of(MixerOf(sbox, key), ta), TxView();
      if !txDone {
        MixPhase1(MixerOf(sbox, key), ta, txIv32, txTtak);
        txDone := true;
        assert txTtak[..] == p1(tx.iv32);
      }
      assert txTtak[..] == Current(p1, tx);
      seed := MixPhase2(MixerOf(sbox, key), txTtak, txIv16);
    }

    /** The counter after a frame; tx is the state before it. */
    method CountTx(ghost p1: P1<Ttak>, ghost tx: Tx<Ttak>)
      requires Valid() && txDone && txIv32 == tx.iv32 && txIv16 == tx.iv16 && txTtak[..] == Current(p1, tx)
      modifies `txIv16, `txIv32, `txDone
      ensures Valid() && TxView() == Next(p1, tx)
    {
      txIv16 := Add16(txIv16, 1);
      if txIv16 == 0 {
        txDone := false;
        txIv32 := Inc32(txIv32);
      }
    }

    /** The header under the present counter. */
    method WriteHdr(skb: Buffer, h: nat) returns (hdr: seq<Byte>)
      requires Valid() && skb.Valid() && Apart(skb.buf) && skb.Headroom() >= HDR && skb.len >= h
      modifies skb, skb.buf
      ensures skb.Valid() && skb.data == old(skb.data) - HDR && skb.len == old(skb.len) + HDR
      ensures hdr == TkipHdr(txIv32, txIv16, keyIdx)
      ensures skb.buf[..] == Put(old(skb.buf[..]), skb.data, old(skb.Frame())[..h] + hdr)
    {
      ghost var start, f := skb.buf[..], skb.Frame();
      skb.MakeRoom(HDR, h);
      hdr := TkipHdr(txIv32, txIv16, keyIdx);
      PutTwo(start, skb.data, f[..h], hdr);
      Store(skb.buf, skb.data + h, hdr);
    }

    /** Header, check value and encryption under an RC4 key. */
    method SealFrame(skb: Buffer, h: nat, seed: seq<Byte>)
      requires Valid() && skb.Valid() && Apart(skb.buf) && |seed| > 0
      requires skb.Headroom() >= HDR && skb.Tailroom() >= 4 && skb.len >= h
      modifies skb, skb.buf, body.rc4, body.rc4.S
      ensures Valid() && skb.Valid()
      ensures skb.Frame() == SealedFrame(Rc4Stream, body.icv, seed, txIv32, txIv16, keyIdx, h, old(skb.Frame()))
    {
      ghost var start, f := skb.buf[..], skb.Frame();
      var n := skb.len - h;
      var hdr := WriteHdr(skb, h);
      ghost var mid := skb.buf[..];
      var pos := skb.data + h + HDR;
      WholeSealed(start, mid, skb.data, pos, n, body.icv, seed, hdr, h, f);
      skb.Extend(4);
      body.SealAt(skb.buf, pos, n, seed);
    }

    /** ieee80211_tkip_encrypt: -1 without room, else the frame is sealed under the counter, which advances. */
    method Encrypt(skb: Buffer, h: nat) returns (rc: int)
      requires Valid() && skb.Valid() && Apart(skb.buf) && (h >= HDR_LEN || skb.len >= HDR_LEN)
      modifies `txDone, `txIv16, `txIv32, txTtak, skb, skb.buf, body.rc4, body.rc4.S
      ensures Valid() && skb.Valid() && (rc == 0 || rc == -1)
      ensures rc == 0 <==> old(skb.Headroom() >= HDR && skb.Tailroom() >= 4 && skb.len >= h)
      ensures rc == 0 ==>
        TxView() == Next(Phase1Of(MixerOf(sbox, key), Addr2(old(skb.Frame()))), old(TxView())) &&
        skb.Frame() == SealedFrame(Rc4Stream, body.icv,
          SentKey(MixerOf(sbox, key), Addr2(old(skb.Frame())), old(TxView())),
                                   old(txIv32), old(txIv16), keyIdx, h, old(skb.Frame()))
      ensures rc != 0 ==> skb.Frame() == old(skb.Frame()) && TxView() == old(TxView())
    {
      if skb.Headroom() < HDR || skb.Tailroom() < 4 || skb.len < h {
        return -1;
      }
      PieceAt(skb.buf[..], skb.data, skb.len);
      var ta := skb.buf[skb.data + 10..skb.data + 16];
      assert ta == Addr2(skb.Frame());
      EncryptFrame(skb, h, ta);
      return 0;
    }

    /** Mixes the key and seals the frame; the counter has still to advance. */
    method SealNext(skb: Buffer, h: nat, ta: Mac)
      requires Valid() && skb.Valid() && Apart(skb.buf)
      requires skb.Headroom() >= HDR && skb.Tailroom() >= 4 && skb.len >= h
      modifies `txDone, txTtak, skb, skb.buf, body.rc4, body.rc4.S
      ensures Valid() && skb.Valid() && txDone && txTtak[..] == Current(Phase1Of(MixerOf(sbox, key), ta), old(TxView()))
      ensures skb.Frame() == SealedFrame(Rc4Stream, body.icv, SentKey(MixerOf(sbox, key), ta, old(TxView())),
                                         txIv32, txIv16, keyIdx, h, old(skb.Frame()))
    {
      var seed := MixTx(ta);
      SealFrame(skb, h, seed);
    }

    method EncryptFrame(skb: Buffer, h: nat, ta: Mac)
      requires Valid() && skb.Valid() && Apart(skb.buf)
      requires skb.Headroom() >= HDR && skb.Tailroom() >= 4 && skb.len >= h
      modifies `txDone, `txIv16, `txIv32, txTtak, skb, skb.buf, body.rc4, body.rc4.S
      ensures Valid() && skb.Valid() && TxView() == Next(Phase1Of(MixerOf(sbox, key), ta), old(TxView()))
      ensures skb.Frame() == SealedFrame(Rc4Stream, body.icv, SentKey(MixerOf(sbox, key), ta, old(TxView())),
                                         old(txIv32), old(txIv16), keyIdx, h, old(skb.Frame()))
    {
      ghost var tx, p1 := TxView(), Phase1Of(MixerOf(sbox, key), ta);
      SealNext(skb, h, ta);
      CountTx(p1, tx);
    }

    /** michael_mic. */
    method Mic(k: seq<Byte>, hdr: seq<Byte>, data: seq<Byte>) returns (mic: seq<Byte>)
      requires Valid() && |k| == 8
      modifies ctx, ctx.pending
      ensures Valid() && mic == Michael.Mic(k, hdr + data)
    {
      Michael.FinishOne(k, hdr + data);
      FedTwice(Michael.Mixed, State(Michael.KeyHalf(k), []), hdr, data);
      mic := Feed(k, hdr, data, Michael.Mic(k, hdr + data));
    }

    method Feed(k: seq<Byte>, hdr: seq<Byte>, data: seq<Byte>, ghost want: seq<Byte>) returns (mic: seq<Byte>)
      requires Valid() && |k| == 8
      requires Michael.Finish(Fed(Michael.Mixed, Fed(Michael.Mixed, State(Michael.KeyHalf(k), []), hdr), data)) == want
      modifies ctx, ctx.pending
      ensures Valid() && mic == want
    {
      MicInit(k);
      mic := FeedBoth(hdr, data, State(Michael.KeyHalf(k), []), want);
    }

    method MicInit(k: seq<Byte>)
      requires Valid() && |k| == 8
      modifies ctx
      ensures Valid() && ctx.View() == State(Michael.KeyHalf(k), [])
    {
      ctx.Init();
      var ok := ctx.SetKey(k);
    }

    method FeedBoth(hdr: seq<Byte>, data: seq<Byte>, ghost s: State<Michael.Half>, ghost want: seq<Byte>)
      returns (mic: seq<Byte>)
      requires Valid() && ctx.View() == s && |s.pending| < 4
      requires Michael.Finish(Fed(Michael.Mixed, Fed(Michael.Mixed, s, hdr), data)) == want
      modifies ctx, ctx.pending
      ensures Valid() && mic == want
    {
      ctx.Update(hdr);
      ctx.Update(data);
      mic := ctx.Final();
    }

    /** ieee80211_michael_mic_add: the integrity code under the key for sending. */
    method MicAdd(skb: Buffer, h: nat) returns (rc: int)
      requires Valid() && skb.Valid() && Apart(skb.buf) && (skb.len >= h ==> HeaderHas(h, skb.Frame()))
      modifies skb, skb.buf, ctx, ctx.pending
      ensures Valid() && skb.Valid() && (rc == 0 || rc == -1)
      ensures rc == 0 <==> old(skb.Tailroom() >= 8 && skb.len >= h)
      ensures rc == 0 ==> skb.Frame() == SentBody(key, h, old(skb.Frame()))
      ensures rc != 0 ==> skb.Frame() == old(skb.Frame())
    {
      if skb.Tailroom() < 8 || skb.len < h {
        return -1;
      }
      var f := Piece(skb.buf[..], skb.data, skb.len);
      var mic := Mic(key[16..24], MicHdr(f), f[h..]);
      Append(skb, mic, f);
      return 0;
    }

    static method Append(skb: Buffer, mic: seq<Byte>, ghost f: seq<Byte>)
      requires skb.Valid() && skb.Tailroom() >= |mic| && f == skb.Frame()
      modifies skb, skb.buf
      ensures skb.Valid() && skb.Frame() == f + mic
    {
      ghost var s := skb.buf[..];
      var at := skb.data + skb.len;
      PieceElsewhere(s, at, mic, skb.data, skb.len);
      PiecePut(s, at, mic);
      PieceSplit(Put(s, at, mic), skb.data, skb.len, skb.len + |mic|);
      Store(skb.buf, at, mic);
      skb.Extend(|mic|);
      assert skb.Frame() == skb.Frame()[..|f|] + skb.Frame()[|f|..];
    }

    // ---- Receiving ----

    /** The RC4 key of a frame; phase 1 is done again for a new upper counter. */
    method MixRx(ta: Mac, c: Counter) returns (seed: seq<Byte>)
      requires Valid()
      modifies `rxDone, rxTtak
      ensures Valid() && rxDone && |seed| == 16
      ensures rxTtak[..] == RxTtak(Me(), old(RxView()), ta, c.iv32)
      ensures seed == Me().p2(rxTtak[..], c.iv16)
    {
      RenewTtak(ta, c.iv32);
      seed := MixPhase2(MixerOf(sbox, key), rxTtak, c.iv16);
    }

    method RenewTtak(ta: Mac, iv32: U32)
      requires Valid()
      modifies `rxDone, rxTtak
      ensures Valid() && rxDone && rxTtak[..] == RxTtak(Me(), old(RxView()), ta, iv32)
    {
      if iv32 != rxIv32 || !rxDone {
        MixPhase1(MixerOf(sbox, key), ta, iv32, rxTtak);
        rxDone := true;
      }
    }

    /** What becomes of the counters and the cache of a frame whose check value is right or wrong. */
    method Judge(c: Counter, ok: bool, ghost r: Receiver<Ttak>, ghost rx: Rx<Ttak>, ghost ta: Mac)
      requires Valid() && rxDone && RxView() == rx.(done := true, ttak := RxTtak(r, rx, ta, c.iv32))
      modifies `rxDone, `rxIv32New, `rxIv16New, `icvErrors
      ensures Valid() && RxView() == RxNext(r, rx, ta, c.iv32, c.iv16, ok)
      ensures icvErrors == old(icvErrors) + if ok then 0 else 1
    {
      if !ok {
        if c.iv32 != rxIv32 {
          rxDone := false;
        }
        icvErrors := icvErrors + 1;
      } else {
        rxIv32New, rxIv16New := c.iv32, c.iv16;
      }
    }

    /** Decrypts the body with an RC4 key and strips a genuine frame; x is what the body decrypts to. */
    method OpenFrame(skb: Buffer, h: nat, seed: seq<Byte>, ghost x: seq<Byte>, ghost f: seq<Byte>) returns (ok: bool)
      requires Valid() && skb.Valid() && Apart(skb.buf) && skb.len >= h + 12 && f == skb.Frame() && |seed| > 0
      requires x == XorStream(f[h + 8..], Rc4Stream(seed, |f| - h - 8))
      modifies skb, skb.buf, body.rc4, body.rc4.S
      ensures Valid() && skb.Valid() && (ok <==> Genuine(body.icv, x))
      ensures if ok then skb.Frame() == f[..h] + x[..|x| - 4] else skb.data == old(skb.data) && skb.len == old(skb.len)
    {
      var n := skb.len - h - 12;
      var pos := skb.data + h + HDR;
      ReceivedParts(skb.buf[..], skb.data, h, HDR, n, f, x);
      ok := body.OpenAt(skb.buf, pos, n, seed, x);
      if ok {
        skb.CloseUp(HDR, h, 4, f[..h], x[..n]);
      }
    }

    /** Decryption with a mixed key, and the cache's state afterwards. */
    method DecryptWith(skb: Buffer, h: nat, seed: seq<Byte>, c: Counter, ghost ta: Mac, ghost f: seq<Byte>,
                       ghost r: Receiver<Ttak>, ghost rx: Rx<Ttak>) returns (ok: bool)
      requires Valid() && skb.Valid() && Apart(skb.buf) && skb.len >= h + 12 && f == skb.Frame() && |seed| > 0
      requires r.icv == body.icv && r.ks == Rc4Stream && seed == r.p2(RxTtak(r, rx, ta, c.iv32), c.iv16)
      requires rxDone && RxView() == rx.(done := true, ttak := RxTtak(r, rx, ta, c.iv32))
      modifies `rxDone, `rxIv32New, `rxIv16New, `icvErrors, skb, skb.buf, body.rc4, body.rc4.S
      ensures Valid() && skb.Valid()
      ensures DecryptBody(r, rx, ta, c.iv32, c.iv16, f[..h], f[h + 8..])
              == (RxView(), if ok then Opened(skb.Frame()) else Refused(-5))
      ensures !ok ==> skb.data == old(skb.data) && skb.len == old(skb.len)
      ensures icvErrors == old(icvErrors) + if ok then 0 else 1
    {
      ghost var x := Decrypted(r, rx, ta, c.iv32, c.iv16, f[h + 8..]);
      ok := OpenFrame(skb, h, seed, x, f);
      Judge(c, ok, r, rx, ta);
    }

    /** Key mixing and decryption. */
    method DecryptAt(skb: Buffer, h: nat, ta: Mac, c: Counter, ghost f: seq<Byte>) returns (ok: bool)
      requires Valid() && skb.Valid() && Apart(skb.buf) && skb.len >= h + 12 && f == skb.Frame()
      modifies `rxDone, `rxIv32New, `rxIv16New, `icvErrors, rxTtak, skb, skb.buf, body.rc4, body.rc4.S
      ensures Valid() && skb.Valid() && Me() == old(Me())
      ensures DecryptBody(Me(), old(RxView()), ta, c.iv32, c.iv16, f[..h], f[h + 8..])
           == (RxView(), if ok then Opened(skb.Frame()) else Refused(-5))
      ensures !ok ==> skb.data == old(skb.data) && skb.len == old(skb.len)
      ensures icvErrors == old(icvErrors) + if ok then 0 else 1
    {
      ghost var r, rx := Me(), RxView();
      var seed := MixRx(ta, c);
      ok := DecryptWith(skb, h, seed, c, ta, f, r, rx);
    }

    /** ieee80211_tkip_decrypt: the key index, or the error of the first check that fails. */
    method Decrypt(skb: Buffer, h: nat) returns (rc: int)
      requires Valid() && skb.Valid() && Apart(skb.buf) && (h >= HDR_LEN || skb.len >= HDR_LEN)
      modifies `rxDone, `rxIv32New, `rxIv16New, `icvErrors, rxTtak, skb, skb.buf, body.rc4, body.rc4.S
      ensures Valid() && skb.Valid() && Me() == old(Me())
      ensures Tkip.Decrypt(Me(), old(RxView()), h, old(skb.Frame()))
              == (RxView(), if rc >= 0 then Opened(skb.Frame()) else Refused(rc))
      ensures rc >= 0 ==> rc == keyIdx as int
      ensures rc < 0 ==> skb.data == old(skb.data) && skb.len == old(skb.len)
      ensures icvErrors == old(icvErrors) + if rc == -5 then 1 else 0
    {
      if skb.len < h + 12 {
        return -1;
      }
      ghost var f := skb.Frame();
      PieceAt(skb.buf[..], skb.data, skb.len);
      var pos := skb.data + h;
      var hdr := skb.buf[pos..pos + 8];
      assert hdr == f[h..h + 8] && hdr[3] == f[h + 3];
      if hdr[3] & 0x20 == 0 {
        return -2;
      }
      if keyIdx != hdr[3] >> 6 {
        return -6;
      }
      if !keySet {
        return -3;
      }
      var ta := skb.buf[skb.data + 10..skb.data + 16];
      assert ta == Addr2(f);
      var ok := DecryptAt(skb, h, ta, ParsedCounter(hdr), f);
      return if ok then keyIdx as int else -5;
    }

    /** ieee80211_michael_mic_verify: -1, or the frame without its code and the counters taken over. */
    method MicVerify(skb: Buffer, h: nat) returns (rc: int)
      requires Valid() && skb.Valid() && Apart(skb.buf) && HasAddresses(skb.Frame()) && h + 8 <= skb.len
      modifies `rxIv32, `rxIv16, `micFailures, skb, ctx, ctx.pending
      ensures Valid() && skb.Valid() && Me() == old(Me()) && (rc == 0 || rc == -1)
      ensures keySet ==>
                Verify(Me(), old(RxView()), h, old(skb.Frame()))
                  == (RxView(), if rc == 0 then Opened(skb.Frame()) else Refused(-1))
      ensures !keySet ==> rc == -1
      ensures rc != 0 ==> skb.Frame() == old(skb.Frame()) && RxView() == old(RxView())
      ensures micFailures == old(micFailures) + if rc != 0 && keySet then 1 else 0
    {
      if !keySet {
        return -1;
      }
      rc := MicVerifyKeyed(skb, h, Me());
    }

    /** The same with a key set; r is the receiver. */
    method MicVerifyKeyed(skb: Buffer, h: nat, ghost r: Receiver<Ttak>) returns (rc: int)
      requires Valid() && skb.Valid() && Apart(skb.buf) && HasAddresses(skb.Frame()) && h + 8 <= skb.len
      requires r.mic == MichaelOf(key[24..32])
      modifies `rxIv32, `rxIv16, `micFailures, skb, ctx, ctx.pending
      ensures Valid() && skb.Valid() && (rc == 0 || rc == -1)
      ensures Verify(r, old(RxView()), h, old(skb.Frame()))
           == (RxView(), if rc == 0 then Opened(skb.Frame()) else Refused(-1))
      ensures rc != 0 ==> skb.Frame() == old(skb.Frame()) && RxView() == old(RxView())
      ensures micFailures == old(micFailures) + if rc != 0 then 1 else 0
    {
      var f := Piece(skb.buf[..], skb.data, skb.len);
      var tag := MicTag(key[24..32], f, f[h..|f| - 8], r.mic);
      rc := MicJudge(skb, h, tag, f, r);
    }

    /** Compares the integrity code at the end of the frame with the one it should be; r is the receiver. */
    method MicJudge(skb: Buffer, h: nat, tag: seq<Byte>, f: seq<Byte>, ghost r: Receiver<Ttak>) returns (rc: int)
      requires Valid() && skb.Valid() && Apart(skb.buf) && HasAddresses(skb.Frame()) && h + 8 <= skb.len
      requires f == skb.Frame() && tag == MicOf(r.mic, f, f[h..|f| - 8])
      modifies `rxIv32, `rxIv16, `micFailures, skb
      ensures Valid() && skb.Valid() && (rc == 0 || rc == -1)
      ensures Verify(r, old(RxView()), h, old(skb.Frame()))
           == (RxView(), if rc == 0 then Opened(skb.Frame()) else Refused(-1))
      ensures rc != 0 ==> skb.Frame() == old(skb.Frame()) && RxView() == old(RxView())
      ensures micFailures == old(micFailures) + if rc != 0 then 1 else 0
    {
      if tag != f[|f| - 8..] {
        micFailures := micFailures + 1;
        return -1;
      }
      TakeOver(skb);
      return 0;
    }

    /** Takes over the counters and drops the integrity code. */
    method TakeOver(skb: Buffer)
      requires Valid() && skb.Valid() && skb.len >= 8
      modifies `rxIv32, `rxIv16, skb
      ensures Valid() && skb.Valid() && rxIv32 == rxIv32New && rxIv16 == rxIv16New
      ensures skb.Frame() == old(skb.Frame())[..old(skb.len) - 8]
    {
      rxIv32, rxIv16 := rxIv32New, rxIv16New;
      PieceSplit(skb.buf[..], skb.data, skb.len - 8, skb.len);
      skb.Trim(skb.len - 8);
    }

    /** The integrity code of a body behind the header of f. */
    method MicTag(k: seq<Byte>, f: seq<Byte>, body: seq<Byte>, ghost mic: MicFn) returns (tag: seq<Byte>)
      requires Valid() && |k| == 8 && HasAddresses(f) && mic == MichaelOf(k)
      modifies ctx, ctx.pending
      ensures Valid() && tag == MicOf(mic, f, body)
    {
      MicOfIs(k, f, body);
      tag := Mic(k, MicHdr(f), body);
    }
  }

  lemma MicOfIs(k: seq<Byte>, f: seq<Byte>, body: seq<Byte>)
    requires |k| == 8 && HasAddresses(f)
    ensures MicOf(MichaelOf(k), f, body) == Michael.Mic(k, MicHdr(f) + body)
  {
  }
}
