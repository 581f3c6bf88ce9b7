/** ieee80211/ieee80211_crypt_tkip.c: TKIP frames, and the phase 1 results both sides keep. */
module Tkip {
  import opened Bytes
  import opened Options
  import opened Dot11
  import opened Numbers
  import opened TkipMixing
  import opened Rc4Body
  import opened TkipCounter
  import Michael

  // ---- The message integrity code of a frame ----

  predicate HasAddresses(f: seq<Byte>) { |f| >= HDR_LEN && (FourAddresses(f) ==> |f| >= 30) }

  /** michael_mic_hdr: destination, source, priority and reserved bytes. */
  function MicHdr(f: seq<Byte>): (b: seq<Byte>)
    requires HasAddresses(f)
    ensures |b| == 16
  {
    DstOf(f) + SrcOf(f) + [0, 0, 0, 0]
  }

  type Tag = b: seq<Byte> | |b| == 8 witness [0, 0, 0, 0, 0, 0, 0, 0]

  /** A code of eight bytes under some key. */
  type MicFn = seq<Byte> -> Tag

  function MicOf(mic: MicFn, f: seq<Byte>, body: seq<Byte>): Tag
    requires HasAddresses(f)
  {
    mic(MicHdr(f) + body)
  }

  /** What ieee80211_michael_mic_add makes of a frame. */
  function Signed(mic: MicFn, h: nat, f: seq<Byte>): (g: seq<Byte>)
    requires HasAddresses(f) && h <= |f|
    ensures |g| == |f| + 8 && HasAddresses(g)
  {
    f + MicOf(mic, f, f[h..])
  }

  /** The check of ieee80211_michael_mic_verify. */
  predicate Authentic(mic: MicFn, h: nat, f: seq<Byte>)
    requires HasAddresses(f) && h + 8 <= |f|
  {
    MicOf(mic, f, f[h..|f| - 8]) == f[|f| - 8..]
  }

  // ---- Headers ----

  function LowWord(iv32: U32): W16 { iv32 % 0x1_0000 }

  function HighWord(iv32: U32): W16 { iv32 / 0x1_0000 }

  function Eight(a: Byte, b: Byte, c: Byte, d: Byte, e: Byte, f: Byte, g: Byte, h: Byte): (s: seq<Byte>)
    ensures |s| == 8
  {
    [a, b, c, d, e, f, g, h]
  }

  function HdrOf(iv16: W16, low: W16, high: W16, keyByte: Byte): (h: seq<Byte>)
    ensures |h| == 8
  {
    Eight(Hi8(iv16), SecondByte(iv16), Lo8(iv16), keyByte, Lo8(low), Hi8(low), Lo8(high), Hi8(high))
  }

  /** Lower counter, key index with the extended-IV flag, upper counter. */
  function TkipHdr(iv32: U32, iv16: W16, idx: Byte): (h: seq<Byte>)
    ensures |h| == 8
  {
    HdrOf(iv16, LowWord(iv32), HighWord(iv32), (idx << 6) | 0x20)
  }

  function ParsedIv16(b: seq<Byte>): W16
    requires |b| == 8
  {
    Mk16(b[0], b[2])
  }

  function FromWords(low: W16, high: W16): U32 { low + high * 0x1_0000 }

  function ParsedIv32(b: seq<Byte>): U32
    requires |b| == 8
  {
    FromWords(Mk16(b[5], b[4]), Mk16(b[7], b[6]))
  }

  lemma ParseEight(a: Byte, b: Byte, c: Byte, d: Byte, e: Byte, f: Byte, g: Byte, h: Byte)
    ensures var s := Eight(a, b, c, d, e, f, g, h);
            s[3] == d && ParsedIv16(s) == Mk16(a, c) && ParsedIv32(s) == FromWords(Mk16(f, e), Mk16(h, g))
  {
  }

  lemma ParseWords(iv16: W16, low: W16, high: W16, keyByte: Byte)
    ensures var b := HdrOf(iv16, low, high, keyByte);
            ParsedIv16(b) == iv16 && ParsedIv32(b) == FromWords(low, high) && b[3] == keyByte
  {
    Mk16Of(iv16);
    Mk16Of(low);
    Mk16Of(high);
    ParseEight(Hi8(iv16), SecondByte(iv16), Lo8(iv16), keyByte, Lo8(low), Hi8(low), Lo8(high), Hi8(high));
  }

  /** The receiver reads the sender's counter. */
  lemma ParseHdr(iv32: U32, iv16: W16, idx: Byte)
    ensures var b := TkipHdr(iv32, iv16, idx); ParsedIv16(b) == iv16 && ParsedIv32(b) == iv32
  {
    ParseWords(iv16, LowWord(iv32), HighWord(iv32), (idx << 6) | 0x20);
  }

  lemma IndexByte(iv32: U32, iv16: W16, idx: Byte)
    requires idx < 4
    ensures var b := TkipHdr(iv32, iv16, idx); b[3] & 0x20 != 0 && b[3] >> 6 == idx
  {
    ParseWords(iv16, LowWord(iv32), HighWord(iv32), (idx << 6) | 0x20);
    IndexBits(idx);
  }

  lemma IndexBits(idx: Byte)
    requires idx < 4
    ensures ((idx << 6) | 0x20) & 0x20 != 0 && ((idx << 6) | 0x20) >> 6 == idx
  {
  }

  // ---- The sender's keys ----

  function Phase1Of(m: Mixer, ta: Mac): P1<Ttak> {
    (iv32: U32) => Phase1(m, ta, iv32)
  }

  function Phase2Of(m: Mixer): P2<Ttak, seq<Byte>> {
    (t: Ttak, iv16: W16) => Phase2(m, t, iv16)
  }

  lemma KeysDiffer(m: Mixer, ta: Mac)
    ensures Injective(Phase1Of(m, ta), Phase2Of(m))
  {
    forall a: U32, i: W16, b: U32, j: W16 | Phase2Of(m)(Phase1Of(m, ta)(a), i) == Phase2Of(m)(Phase1Of(m, ta)(b), j)
      ensures a == b && i == j
    {
      MixingInjective(m, ta, a, i, ta, b, j);
    }
  }

  /** From key setup on, no two frames of a sender less than 2^48 apart have the same RC4 key. */
  lemma NoKeyRepeats(m: Mixer, ta: Mac, tx: Tx<Ttak>, i: nat, j: nat)
    requires TkipCounter.Initial(tx) && i < j < i + TSC_SIZE
    ensures var p1, p2 := Phase1Of(m, ta), Phase2Of(m);
            KeyNow(p1, p2, After(p1, tx, i)) != KeyNow(p1, p2, After(p1, tx, j))
  {
    KeysDiffer(m, ta);
    NoRepeat(Phase1Of(m, ta), Phase2Of(m), tx, i, j);
  }

  // ---- Frames on the air ----

  /** What ieee80211_tkip_encrypt makes of a frame under an RC4 key. */
  function SealedFrame(ks: KeyStream, icv: CheckSum, seed: seq<Byte>, iv32: U32, iv16: W16, idx: Byte, h: nat,
                       f: seq<Byte>): (g: seq<Byte>)
    requires h <= |f|
    ensures |g| == |f| + 12
  {
    (f[..h] + TkipHdr(iv32, iv16, idx)) + SealedBody(ks, icv, seed, f[h..])
  }

  // ---- The receiver's counter and cache ----

  /** The counter of the last authentic frame, the phase 1 cache, and the counter of a frame whose
      integrity code is still to be checked. */
  datatype Rx<T> = Rx(iv32: U32, iv16: W16, done: bool, ttak: T, newIv32: U32, newIv16: W16)

  datatype Verdict = Opened(frame: seq<Byte>) | Refused(code: int)

  /** The two halves of a frame's counter. */
  datatype Counter = Counter(iv32: U32, iv16: W16)

  /** The receiver's fixed part: how it reads a counter, both phases of the key mixing, check sum, key
      stream, key index, and the integrity code under its key. */
  datatype Receiver<!T> = Receiver(counter: seq<Byte> -> Counter, p1: (Mac, U32) -> T, p2: (T, W16) -> seq<Byte>,
                                   icv: CheckSum, ks: KeyStream, idx: Byte, keySet: bool, mic: MicFn)

  /** The receiver reads the counters that senders write. */
  ghost predicate Reads<T>(r: Receiver<T>) {
    forall iv32: U32, iv16: W16 {:trigger TkipHdr(iv32, iv16, r.idx)} ::
      r.counter(TkipHdr(iv32, iv16, r.idx)) == Counter(iv32, iv16)
  }

  /** The phase 1 result a frame is decrypted with. */
  function RxTtak<T>(r: Receiver<T>, rx: Rx<T>, ta: Mac, iv32: U32): T {
    if iv32 != rx.iv32 || !rx.done then r.p1(ta, iv32) else rx.ttak
  }

  /** A body with its check value, decrypted. */
  function Decrypted<T>(r: Receiver<T>, rx: Rx<T>, ta: Mac, iv32: U32, iv16: W16, x: seq<Byte>): (d: seq<Byte>)
    ensures |d| == |x|
  {
    XorStream(x, r.ks(r.p2(RxTtak(r, rx, ta, iv32), iv16), |x|))
  }

  /** The cache after the frame: renewed, and given up if the frame was not genuine and not of the last counter. */
  function RxNext<T>(r: Receiver<T>, rx: Rx<T>, ta: Mac, iv32: U32, iv16: W16, genuine: bool): Rx<T> {
    var t := RxTtak(r, rx, ta, iv32);
    if genuine then rx.(ttak := t, done := true, newIv32 := iv32, newIv16 := iv16)
    else rx.(ttak := t, done := iv32 == rx.iv32)
  }

  /** Decryption with the counter known; hd is the MAC header and x the encrypted body. */
  function DecryptBody<T>(r: Receiver<T>, rx: Rx<T>, ta: Mac, iv32: U32, iv16: W16, hd: seq<Byte>,
                          x: seq<Byte>): (Rx<T>, Verdict)
    requires |x| >= 4
  {
    var d := Decrypted(r, rx, ta, iv32, iv16, x);
    if !Genuine(r.icv, d) then (RxNext(r, rx, ta, iv32, iv16, false), Refused(-5))
    else (RxNext(r, rx, ta, iv32, iv16, true), Opened(hd + d[..|d| - 4]))
  }

  /** ieee80211_tkip_decrypt. */
  function Decrypt<T>(r: Receiver<T>, rx: Rx<T>, h: nat, f: seq<Byte>): (q: (Rx<T>, Verdict))
    requires HDR_LEN <= h || HDR_LEN <= |f|
  {
    if |f| < h + 12 then (rx, Refused(-1))
    else if f[h + 3] & 0x20 == 0 then (rx, Refused(-2))
    else if f[h + 3] >> 6 != r.idx then (rx, Refused(-6))
    else if !r.keySet then (rx, Refused(-3))
    else
      var c := r.counter(f[h..h + 8]);
      DecryptBody(r, rx, Addr2(f), c.iv32, c.iv16, f[..h], f[h + 8..])
  }

  /** ieee80211_michael_mic_verify with a key set. */
  function Verify<T>(r: Receiver<T>, rx: Rx<T>, h: nat, f: seq<Byte>): (q: (Rx<T>, Verdict))
    requires HasAddresses(f) && h + 8 <= |f|
  {
    if !Authentic(r.mic, h, f) then (rx, Refused(-1))
    else (rx.(iv32 := rx.newIv32, iv16 := rx.newIv16), Opened(f[..|f| - 8]))
  }

  /** The same for any MSDU; one too short to hold a code is refused. */
  function VerifyMsdu<T>(r: Receiver<T>, rx: Rx<T>, h: nat, m: seq<Byte>): (q: (Rx<T>, Verdict)) {
    if HasAddresses(m) && h + 8 <= |m| then Verify(r, rx, h, m) else (rx, Refused(-1))
  }

  /** The MSDU that a decrypted frame completes, with the length of its header; none while fragments are
      missing. */
  type Completion = seq<Byte> -> Option<(nat, seq<Byte>)>

  /** The way of a frame: every frame is decrypted, but the integrity code is checked only when an MSDU is
      complete. No verdict means that the frame waits for others, or was given up for want of them. */
  function Receive<T>(r: Receiver<T>, rx: Rx<T>, h: nat, f: seq<Byte>, whole: Completion)
    : (q: (Rx<T>, Option<Verdict>))
    requires HDR_LEN <= h || HDR_LEN <= |f|
  {
    var d := Decrypt(r, rx, h, f);
    match d.1
    case Refused(_) => (d.0, Some(d.1))
    case Opened(g) =>
      match whole(g)
      case None => (d.0, None)
      case Some(m) => var v := VerifyMsdu(r, d.0, m.0, m.1); (v.0, Some(v.1))
  }

  // ---- When the receiver's cache can be trusted ----

  /** A cached result is that of the counter it is reused for, and of the transmitter ta. */
  ghost predicate Coherent<T>(r: Receiver<T>, ta: Mac, rx: Rx<T>) {
    rx.done ==> rx.ttak == r.p1(ta, rx.iv32)
  }

  function CounterOf<T>(r: Receiver<T>, h: nat, f: seq<Byte>): Counter
    requires h + 12 <= |f|
  {
    r.counter(f[h..h + 8])
  }

  /** The receiver's state after a genuine frame, with a coherent cache. */
  function Renewed<T>(r: Receiver<T>, ta: Mac, rx: Rx<T>, iv32: U32, iv16: W16): Rx<T> {
    Rx(rx.iv32, rx.iv16, true, r.p1(ta, iv32), iv32, iv16)
  }

  /** The frame gets past the checks in front of the key mixing. */
  predicate Mixes<T>(r: Receiver<T>, h: nat, f: seq<Byte>) {
    h + 12 <= |f| && f[h + 3] & 0x20 != 0 && f[h + 3] >> 6 == r.idx && r.keySet
  }

  /** The frame is decrypted, and its integrity code is right, or not (yet) known to be. */
  predicate Proved<T>(r: Receiver<T>, rx: Rx<T>, h: nat, f: seq<Byte>, whole: Completion)
    requires HDR_LEN <= h || HDR_LEN <= |f|
  {
    var v := Receive(r, rx, h, f, whole).1;
    v.Some? && v.value.Opened?
  }

  /** The frame replaces the cached result and what it leaves there does not belong to the receiver's
      counter and the transmitter ta: it passes the check value under another upper counter without being
      proved authentic, as a fragment does; or it is another transmitter's and its result stays. */
  predicate Spoils<T>(r: Receiver<T>, ta: Mac, rx: Rx<T>, h: nat, f: seq<Byte>, whole: Completion)
    requires HDR_LEN <= h || HDR_LEN <= |f|
  {
    Mixes(r, h, f) &&
    var iv32 := CounterOf(r, h, f).iv32;
    var genuine := Decrypt(r, rx, h, f).1.Opened?;
    (iv32 != rx.iv32 || !rx.done) &&
    ((genuine && iv32 != rx.iv32 && !Proved(r, rx, h, f, whole)) ||
     (Addr2(f) != ta && (genuine || iv32 == rx.iv32)))
  }

  /** Different counters and transmitters have different phase 1 results. */
  ghost predicate Separates1<T>(r: Receiver<T>) {
    forall ta: Mac, a: U32, tb: Mac, b: U32 {:trigger r.p1(ta, a), r.p1(tb, b)} ::
      r.p1(ta, a) == r.p1(tb, b) ==> ta == tb && a == b
  }

  /** Different phase 1 results give different RC4 keys. */
  ghost predicate Separates2<T(!new)>(r: Receiver<T>) {
    forall t: T, u: T, i: W16 {:trigger r.p2(t, i), r.p2(u, i)} :: r.p2(t, i) == r.p2(u, i) ==> t == u
  }

  /** The state after a frame that is mixed, by what becomes of it. */
  lemma MixedStep<T>(r: Receiver<T>, rx: Rx<T>, h: nat, f: seq<Byte>, whole: Completion)
    requires Mixes(r, h, f) && (HDR_LEN <= h || HDR_LEN <= |f|)
    ensures var c, q := CounterOf(r, h, f), Receive(r, rx, h, f, whole).0;
            q.ttak == RxTtak(r, rx, Addr2(f), c.iv32) &&
            q.iv32 == (if Proved(r, rx, h, f, whole) then c.iv32 else rx.iv32) &&
            q.done == (Decrypt(r, rx, h, f).1.Opened? || c.iv32 == rx.iv32)
  {
    var c := CounterOf(r, h, f);
    var d := DecryptBody(r, rx, Addr2(f), c.iv32, c.iv16, f[..h], f[h + 8..]);
    assert Decrypt(r, rx, h, f) == d;
    if d.1.Opened? {
      assert d.0.newIv32 == c.iv32;
    }
  }

  /** Any frame at all, of whatever transmitter, whole or a fragment, leaves a cache that belongs to the
      transmitter ta in this state exactly when it does not spoil it. */
  lemma CoherentIffNotSpoilt<T>(r: Receiver<T>, ta: Mac, rx: Rx<T>, h: nat, f: seq<Byte>, whole: Completion)
    requires Separates1(r) && Coherent(r, ta, rx) && (HDR_LEN <= h || HDR_LEN <= |f|)
    ensures Coherent(r, ta, Receive(r, rx, h, f, whole).0) <==> !Spoils(r, ta, rx, h, f, whole)
  {
    if Mixes(r, h, f) {
      MixedStep(r, rx, h, f, whole);
    }
  }

  /** With a spoilt cache, a frame under the last authentic frame's upper counter is decrypted with a
      wrong RC4 key. */
  lemma SpoiltUsesWrongKey<T(!new)>(r: Receiver<T>, ta: Mac, rx: Rx<T>, iv16: W16)
    requires Separates2(r) && !Coherent(r, ta, rx)
    ensures r.p2(RxTtak(r, rx, ta, rx.iv32), iv16) != r.p2(r.p1(ta, rx.iv32), iv16)
  {
  }

  // ---- The round trip ----

  /** The addresses of a frame lie in its header. */
  predicate HeaderHas(h: nat, f: seq<Byte>) {
    HDR_LEN <= h <= |f| && (FourAddresses(f) ==> h >= 30)
  }

  /** The frame m sealed under the RC4 key of a counter. */
  function OnAir<T>(r: Receiver<T>, ta: Mac, iv32: U32, iv16: W16, h: nat, m: seq<Byte>): (g: seq<Byte>)
    requires h <= |m|
    ensures |g| == |m| + 12
  {
    SealedFrame(r.ks, r.icv, r.p2(r.p1(ta, iv32), iv16), iv32, iv16, r.idx, h, m)
  }

  /** g is that frame after the way: the header may differ except for the transmitter. */
  predicate Arrived<T>(r: Receiver<T>, ta: Mac, iv32: U32, iv16: W16, h: nat, m: seq<Byte>, g: seq<Byte>)
    requires h <= |m|
  {
    |g| == |m| + 12 && HeaderHas(h, g) && Addr2(g) == ta && g[h..] == OnAir(r, ta, iv32, iv16, h, m)[h..]
  }

  /** g is a signed and sealed f after the way: the header may differ except for the addresses. */
  predicate Intact<T>(r: Receiver<T>, ta: Mac, iv32: U32, iv16: W16, h: nat, f: seq<Byte>, g: seq<Byte>)
    requires HeaderHas(h, f)
  {
    Arrived(r, ta, iv32, iv16, h, Signed(r.mic, h, f), g) && MicHdr(g) == MicHdr(f)
  }

  /** Decrypting what was sealed under the same counter with a coherent cache. */
  lemma DecryptBodyIntact<T>(r: Receiver<T>, ta: Mac, rx: Rx<T>, iv32: U32, iv16: W16, hd: seq<Byte>, m: seq<Byte>)
    requires Coherent(r, ta, rx)
    ensures var x := SealedBody(r.ks, r.icv, r.p2(r.p1(ta, iv32), iv16), m);
            DecryptBody(r, rx, ta, iv32, iv16, hd, x) == (Renewed(r, ta, rx, iv32, iv16), Opened(hd + m))
  {
    OpenSealedBody(r.ks, r.icv, r.p2(r.p1(ta, iv32), iv16), m);
  }

  lemma DecryptSections<T>(r: Receiver<T>, rx: Rx<T>, h: nat, g: seq<Byte>, hdr: seq<Byte>)
    requires HDR_LEN <= h && h + 12 <= |g| && g[h..h + 8] == hdr && g[h + 3] == hdr[3]
    requires hdr[3] & 0x20 != 0 && hdr[3] >> 6 == r.idx && r.keySet
    ensures Decrypt(r, rx, h, g)
            == DecryptBody(r, rx, Addr2(g), r.counter(hdr).iv32, r.counter(hdr).iv16, g[..h], g[h + 8..])
  {
  }

  lemma ArrivedSections<T>(r: Receiver<T>, ta: Mac, iv32: U32, iv16: W16, h: nat, m: seq<Byte>, g: seq<Byte>,
                           hdr: seq<Byte>, x: seq<Byte>)
    requires h <= |m| && Arrived(r, ta, iv32, iv16, h, m, g)
    requires hdr == TkipHdr(iv32, iv16, r.idx) && x == SealedBody(r.ks, r.icv, r.p2(r.p1(ta, iv32), iv16), m[h..])
    ensures |g| == h + 8 + |x| && g[h..h + 8] == hdr && g[h + 8..] == x && g[h + 3] == hdr[3]
  {
    Sections(h, 8, g, m[..h], hdr, x);
  }

  /** A receiver with a coherent cache decrypts what was sealed. */
  lemma DecryptArrived<T>(r: Receiver<T>, ta: Mac, rx: Rx<T>, iv32: U32, iv16: W16, h: nat, m: seq<Byte>, g: seq<Byte>)
    requires Reads(r) && Coherent(r, ta, rx) && r.keySet && r.idx < 4 && h <= |m| && Arrived(r, ta, iv32, iv16, h, m, g)
    ensures Decrypt(r, rx, h, g) == (Renewed(r, ta, rx, iv32, iv16), Opened(g[..h] + m[h..])) &&
            CounterOf(r, h, g).iv32 == iv32
  {
    var hdr := TkipHdr(iv32, iv16, r.idx);
    ArrivedSections(r, ta, iv32, iv16, h, m, g, hdr, SealedBody(r.ks, r.icv, r.p2(r.p1(ta, iv32), iv16), m[h..]));
    IndexByte(iv32, iv16, r.idx);
    DecryptSections(r, rx, h, g, hdr);
    DecryptBodyIntact(r, ta, rx, iv32, iv16, g[..h], m[h..]);
  }

  lemma SameMicHdr(h: nat, g: seq<Byte>, p: seq<Byte>)
    requires HeaderHas(h, g) && h <= |p| && p[..h] == g[..h]
    ensures HasAddresses(p) && MicHdr(p) == MicHdr(g)
  {
    SameByte(h, p, g, 1);
    SamePart(h, p, g, 4, 10);
    SamePart(h, p, g, 10, 16);
    SamePart(h, p, g, 16, 22);
    if FourAddresses(g) {
      SamePart(h, p, g, 24, 30);
    }
  }

  lemma VerifyIntact<T>(r: Receiver<T>, q: Rx<T>, h: nat, f: seq<Byte>, g: seq<Byte>)
    requires HeaderHas(h, f) && HeaderHas(h, g) && MicHdr(g) == MicHdr(f)
    ensures var p := g[..h] + Signed(r.mic, h, f)[h..];
            HasAddresses(p) && |p| >= h + 8 &&
            Verify(r, q, h, p) == (q.(iv32 := q.newIv32, iv16 := q.newIv16), Opened(g[..h] + f[h..]))
  {
    var mic := MicOf(r.mic, f, f[h..]);
    var p := g[..h] + Signed(r.mic, h, f)[h..];
    assert Signed(r.mic, h, f)[h..] == f[h..] + mic;
    assert p[..h] == g[..h];
    SameMicHdr(h, g, p);
    assert p[h..|p| - 8] == f[h..] && p[|p| - 8..] == mic;
    assert p[..|p| - 8] == g[..h] + f[h..];
  }

  /** What the receiver has before the integrity code of a signed f is checked. */
  function Unchecked<T>(r: Receiver<T>, h: nat, f: seq<Byte>, g: seq<Byte>): seq<Byte>
    requires HeaderHas(h, f) && h <= |g|
  {
    g[..h] + Signed(r.mic, h, f)[h..]
  }

  /** Signing, encrypting, decrypting and verifying restores an MSDU in one frame for a receiver with a
      coherent cache, which then takes over the sender's counter. */
  lemma RoundTrip<T>(r: Receiver<T>, ta: Mac, rx: Rx<T>, iv32: U32, iv16: W16, h: nat, f: seq<Byte>, g: seq<Byte>,
                     whole: Completion)
    requires Reads(r) && Coherent(r, ta, rx) && r.keySet && r.idx < 4 && HeaderHas(h, f)
    requires Intact(r, ta, iv32, iv16, h, f, g)
    requires var p := Unchecked(r, h, f, g); whole(p) == Some((h, p))
    ensures !Spoils(r, ta, rx, h, g, whole)
    ensures var q := Receive(r, rx, h, g, whole);
            q.1 == Some(Opened(g[..h] + f[h..])) && q.0.iv32 == iv32 && q.0.iv16 == iv16 && Coherent(r, ta, q.0)
  {
    DecryptArrived(r, ta, rx, iv32, iv16, h, Signed(r.mic, h, f), g);
    VerifyIntact(r, Renewed(r, ta, rx, iv32, iv16), h, f, g);
  }

  /** Every genuine frame under another upper counter that completes no MSDU spoils the cache: each fragment
      but the last of an MSDU, whoever sends it, first under a new upper counter. */
  lemma FragmentSpoils<T>(r: Receiver<T>, ta: Mac, rx: Rx<T>, iv32: U32, iv16: W16, h: nat, m: seq<Byte>,
                          g: seq<Byte>, whole: Completion)
    requires Reads(r) && Coherent(r, ta, rx) && r.keySet && r.idx < 4 && h <= |m|
    requires Arrived(r, ta, iv32, iv16, h, m, g) && iv32 != rx.iv32 && whole(g[..h] + m[h..]) == None
    ensures Spoils(r, ta, rx, h, g, whole)
  {
    DecryptArrived(r, ta, rx, iv32, iv16, h, m, g);
  }

  /** So does a body with a wrong integrity code, sealed under any other upper counter. */
  lemma WrongTagSpoils<T>(r: Receiver<T>, ta: Mac, rx: Rx<T>, iv32: U32, iv16: W16, h: nat, f: seq<Byte>, tag: Tag,
                          whole: Completion)
    requires Reads(r) && Coherent(r, ta, rx) && r.keySet && r.idx < 4 && HeaderHas(h, f) && Addr2(f) == ta
    requires iv32 != rx.iv32 && tag != MicOf(r.mic, f, f[h..]) && whole(f + tag) == Some((h, f + tag))
    ensures var g := OnAir(r, ta, iv32, iv16, h, f + tag);
            HeaderHas(h, g) && Addr2(g) == ta && Spoils(r, ta, rx, h, g, whole)
  {
    var m := f + tag;
    var g := OnAir(r, ta, iv32, iv16, h, m);
    OnAirArrives(r, ta, iv32, iv16, h, f, m, g);
    DecryptArrived(r, ta, rx, iv32, iv16, h, m, g);
    WrongTag(r.mic, h, f, tag, m);
  }

  /** A frame on the air whose header, that of f, did not change. */
  lemma OnAirArrives<T>(r: Receiver<T>, ta: Mac, iv32: U32, iv16: W16, h: nat, f: seq<Byte>, m: seq<Byte>,
                        g: seq<Byte>)
    requires HeaderHas(h, f) && Addr2(f) == ta && h <= |m| && m[..h] == f[..h] && g == OnAir(r, ta, iv32, iv16, h, m)
    ensures Arrived(r, ta, iv32, iv16, h, m, g) && HeaderHas(h, g) && Addr2(g) == ta && g[..h] + m[h..] == m
  {
    assert g[..h] == m[..h];
    SameHeader(h, f, g);
    assert m[..h] + m[h..] == m;
  }

  /** The completion of frames that are whole MSDUs. */
  function Unfragmented(h: nat): Completion {
    (m: seq<Byte>) => Some((h, m))
  }

  /** So the harm can be done to every receiver with a key. */
  lemma SpoilerExists<T>(r: Receiver<T>, ta: Mac, rx: Rx<T>)
    requires Reads(r) && Coherent(r, ta, rx) && r.keySet && r.idx < 4
    ensures exists g {:trigger Addr2(g)} :: |g| >= HDR_LEN && Addr2(g) == ta &&
              Spoils(r, ta, rx, HDR_LEN, g, Unfragmented(HDR_LEN))
  {
    var f := HeaderOf(ta);
    var tag := OtherTag(MicOf(r.mic, f, f[HDR_LEN..]));
    var iv32: U32 := if rx.iv32 == 0 then 1 else 0;
    WrongTagSpoils(r, ta, rx, iv32, 0, HDR_LEN, f, tag, Unfragmented(HDR_LEN));
  }

  lemma HeaderOf(ta: Mac) returns (f: seq<Byte>)
    ensures HeaderHas(HDR_LEN, f) && Addr2(f) == ta
  {
    f := Zeros(10) + ta + Zeros(8);
    assert f[10..16] == ta && f[1] == 0;
  }

  lemma OtherTag(t: Tag) returns (u: Tag)
    ensures u != t
  {
    u := t[0 := XorByte(t[0], 1)];
    OtherByte(t[0]);
    assert u[0] != t[0];
  }

  lemma OtherByte(b: Byte)
    ensures XorByte(b, 1) != b
  {
  }

  lemma WrongTag(mic: MicFn, h: nat, f: seq<Byte>, tag: Tag, p: seq<Byte>)
    requires HeaderHas(h, f) && tag != MicOf(mic, f, f[h..]) && p == f + tag
    ensures HasAddresses(p) && h + 8 <= |p| && !Authentic(mic, h, p)
  {
    assert p[..h] == f[..h];
    SameMicHdr(h, f, p);
    assert p[h..|p| - 8] == f[h..] && p[|p| - 8..] == tag;
  }

  lemma SameHeader(h: nat, f: seq<Byte>, g: seq<Byte>)
    requires HeaderHas(h, f) && h <= |g| && g[..h] == f[..h]
    ensures HeaderHas(h, g) && Addr2(g) == Addr2(f) && MicHdr(g) == MicHdr(f)
  {
    SameMicHdr(h, f, g);
    SameByte(h, f, g, 1);
    SamePart(h, f, g, 10, 16);
  }

  lemma SameByte(h: nat, f: seq<Byte>, g: seq<Byte>, i: nat)
    requires i < h <= |f| && h <= |g| && g[..h] == f[..h]
    ensures g[i] == f[i]
  {
    assert g[i] == g[..h][i];
    assert f[i] == f[..h][i];
  }

  lemma SamePart(h: nat, f: seq<Byte>, g: seq<Byte>, i: nat, j: nat)
    requires i <= j <= h <= |f| && h <= |g| && g[..h] == f[..h]
    ensures g[i..j] == f[i..j]
  {
    forall k | 0 <= k < j - i ensures g[i..j][k] == f[i..j][k] {
      SameByte(h, f, g, i + k);
    }
  }

  // ---- TKIP itself ----

  function MichaelOf(key: seq<Byte>): MicFn
    requires |key| == 8
  {
    (m: seq<Byte>) => Michael.Mic(key, m)
  }

  function ParsedCounter(b: seq<Byte>): Counter {
    if |b| == 8 then Counter(ParsedIv32(b), ParsedIv16(b)) else Counter(0, 0)
  }

  /** The receiver of ieee80211_crypt_tkip.c, with its S-box, temporal key and integrity key. */
  function TkipReceiver(m: Mixer, icv: CheckSum, idx: Byte, keySet: bool, micKey: seq<Byte>): Receiver<Ttak>
    requires |micKey| == 8
  {
    Receiver(ParsedCounter, (ta: Mac, iv32: U32) => Phase1(m, ta, iv32), (t: Ttak, iv16: W16) => Phase2(m, t, iv16),
             icv, Rc4Stream, idx, keySet, MichaelOf(micKey))
  }

  /** Its header and key mixing have the properties used above. */
  lemma TkipSeparates(m: Mixer, icv: CheckSum, idx: Byte, keySet: bool, micKey: seq<Byte>)
    requires |micKey| == 8
    ensures var r := TkipReceiver(m, icv, idx, keySet, micKey); Reads(r) && Separates1(r) && Separates2(r)
  {
    var r := TkipReceiver(m, icv, idx, keySet, micKey);
    forall iv32: U32, iv16: W16 ensures r.counter(TkipHdr(iv32, iv16, r.idx)) == Counter(iv32, iv16) {
      ParseHdr(iv32, iv16, r.idx);
    }
    forall ta: Mac, a: U32, tb: Mac, b: U32 | r.p1(ta, a) == r.p1(tb, b) ensures ta == tb && a == b {
      Phase1Injective(m, ta, a, tb, b);
    }
    forall t: Ttak, u: Ttak, i: W16 | r.p2(t, i) == r.p2(u, i) ensures t == u {
      Phase2Injective(m, t, i, u, i);
    }
  }

  // ---- Two stations ----

  /** Temporal key, the integrity key for sending, and the one for receiving. */
  type TkipKey = k: seq<Byte> | |k| == 32 witness NoKey()

  function NoKey(): (k: seq<Byte>)
    ensures |k| == 32
  {
    seq(32, _ => 0)
  }

  function MixerOf(sbox: Byte -> W16, key: TkipKey): Mixer { Mixer(sbox, key[..16]) }

  /** Two stations with one temporal key, each receiving under the integrity key the other sends with. */
  predicate Paired(a: TkipKey, b: TkipKey) {
    a[..16] == b[..16] && a[16..24] == b[24..32] && a[24..32] == b[16..24]
  }

  /** What the sender in state tx makes of a frame, with the phase 1 result it keeps. */
  function SentFrame(sbox: Byte -> W16, icv: CheckSum, idx: Byte, key: TkipKey, ta: Mac, tx: Tx<Ttak>, h: nat,
                     f: seq<Byte>): (g: seq<Byte>)
    requires HasAddresses(f) && h <= |f|
    ensures |g| == |f| + 20
  {
    SealedFrame(Rc4Stream, icv, SentKey(MixerOf(sbox, key), ta, tx), tx.iv32, tx.iv16, idx, h, SentBody(key, h, f))
  }

  function SentKey(m: Mixer, ta: Mac, tx: Tx<Ttak>): seq<Byte> {
    KeyNow(Phase1Of(m, ta), Phase2Of(m), tx)
  }

  function SentBody(key: TkipKey, h: nat, f: seq<Byte>): (g: seq<Byte>)
    requires HasAddresses(f) && h <= |f|
    ensures |g| == |f| + 8
  {
    Signed(MichaelOf(key[16..24]), h, f)
  }

  function ReceiverOf(sbox: Byte -> W16, icv: CheckSum, idx: Byte, key: TkipKey): Receiver<Ttak> {
    TkipReceiver(MixerOf(sbox, key), icv, idx, true, key[24..32])
  }

  /** The sender's frame is sealed under a fresh mix of its counter. */
  lemma SentIsOnAir(sbox: Byte -> W16, icv: CheckSum, idx: Byte, a: TkipKey, b: TkipKey, ta: Mac, tx: Tx<Ttak>,
                    h: nat, f: seq<Byte>)
    requires Paired(a, b) && HeaderHas(h, f) && Cached(Phase1Of(MixerOf(sbox, a), ta), tx)
    ensures var r := ReceiverOf(sbox, icv, idx, b);
            SentFrame(sbox, icv, idx, a, ta, tx, h, f) == OnAir(r, ta, tx.iv32, tx.iv16, h, Signed(r.mic, h, f))
  {
    var r, m := ReceiverOf(sbox, icv, idx, b), MixerOf(sbox, a);
    NextStep(Phase1Of(m, ta), tx);
    assert SentKey(m, ta, tx) == r.p2(r.p1(ta, tx.iv32), tx.iv16);
    assert r.mic == MichaelOf(a[16..24]);
  }

  /** The n-th frame a sender makes after key setup, however its header changed on the way except for the
      addresses, is an intact one under the counter n + 1. */
  lemma SentIsIntact(sbox: Byte -> W16, icv: CheckSum, idx: Byte, a: TkipKey, b: TkipKey, ta: Mac, tx: Tx<Ttak>,
                     n: nat, h: nat, f: seq<Byte>, g: seq<Byte>)
    requires Paired(a, b) && HeaderHas(h, f) && TkipCounter.Initial(tx)
    requires var s := SentFrame(sbox, icv, idx, a, ta, After(Phase1Of(MixerOf(sbox, a), ta), tx, n), h, f);
             |g| == |s| && g[h..] == s[h..] && HeaderHas(h, g) && Addr2(g) == ta && MicHdr(g) == MicHdr(f)
    ensures var t := After(Phase1Of(MixerOf(sbox, a), ta), tx, n);
            Intact(ReceiverOf(sbox, icv, idx, b), ta, t.iv32, t.iv16, h, f, g) && Tsc(t) == (n + 1) % TSC_SIZE
  {
    var p1 := Phase1Of(MixerOf(sbox, a), ta);
    TkipCounter.Run(p1, tx, n);
    SentIsOnAir(sbox, icv, idx, a, b, ta, After(p1, tx, n), h, f);
  }
}
