/** ieee80211/ieee80211_rx.c with the handlers of ieee80211/ieee80211_crypt_tkip.c: every protected frame is
    decrypted by the first, every whole MSDU checked by the second. */
module TkipLink {
  import opened Bytes
  import opened Options
  import opened Numbers
  import opened Dot11
  import opened Fragmentation
  import opened Reassembly
  import opened TkipMixing
  import opened TkipCounter
  import opened Rc4Body
  import opened Tkip
  import Link = Receive
  import DataPath
  import LinkCiphers
  import Transmit

  // ---- The handlers of a TKIP key ----

  function TkipOpen<T>(r: Receiver<T>, q: Rx<T>, h: nat, f: seq<Byte>): (Rx<T>, Option<seq<Byte>>) {
    if h < HDR_LEN && |f| < HDR_LEN then (q, None) else
      var d := Decrypt(r, q, h, f);
      (d.0, if d.1.Opened? then Some(d.1.frame) else None)
  }

  function TkipCheck<T>(r: Receiver<T>, q: Rx<T>, h: nat, m: seq<Byte>): (Rx<T>, Option<seq<Byte>>) {
    var v := VerifyMsdu(r, q, h, m);
    (v.0, if v.1.Opened? then Some(v.1.frame) else None)
  }

  function TkipHandlers<T>(r: Receiver<T>): Link.Handlers<Rx<T>> {
    Link.Handlers((q: Rx<T>, h: nat, f: seq<Byte>) => TkipOpen(r, q, h, f),
                  Some((q: Rx<T>, h: nat, m: seq<Byte>) => TkipCheck(r, q, h, m)))
  }

  lemma TkipKeepsHeader<T(!new)>(r: Receiver<T>)
    ensures Link.KeepsHeader(TkipHandlers(r).open)
  {
    var o := TkipHandlers(r).open;
    forall q: Rx<T>, h: nat, f {:trigger o(q, h, f)} | h <= |f| && o(q, h, f).1.Some?
      ensures |o(q, h, f).1.value| >= h && o(q, h, f).1.value[..h] == f[..h]
    {
      assert Decrypt(r, q, h, f).1.Opened?;
    }
  }

  /** Key i of the receiver is a TKIP key. */
  ghost predicate Installed<T>(c: Link.Config<Rx<T>>, i: nat, r: Receiver<T>) {
    |c.keys| == 4 && i < 4 && c.hostDecrypt && c.keys[i] == Some(TkipHandlers(r))
  }

  // ---- What ieee80211_rx does to the state of the key ----

  /** The frame gets as far as the decryption, with key i. */
  predicate Reaches<Q>(c: Link.Config<Q>, st: Link.RxState<Q>, f: seq<Byte>, x: Link.Context, i: nat) {
    |f| >= HDR_LEN && !Link.DuplicateStep(c, st, f, x).0 && !Link.IsManagement(f) &&
    (FourAddresses(f) ==> |f| >= 30) && Link.CarriesData(f) && Link.AddressesOf(f, c.bssid).bssid == c.bssid &&
    Protected(f) && Link.KeyIndex(f, x.behind) == i
  }

  /** The MSDU that the frame f, once it is decrypted, completes. */
  function Completes(cache: State, f: seq<Byte>, lim: Limits, x: Link.Context): Completion
    requires Whole(f) && cache.next < CACHE_LEN
  {
    (g: seq<Byte>) =>
      if !Whole(g) then None else
        match Link.Assembled(cache, f, g, lim, x).1
        case Complete(m) => if Whole(m) then Some((HdrLen(m), m)) else None
        case _ => None
  }

  /** Neither handler of another key is called for the state of key i. */
  lemma OtherKey<Q(!new)>(c: Link.Config<Q>, priv: seq<Q>, f: seq<Byte>, m: seq<Byte>, x: Link.Context, i: nat)
    requires Whole(f) && |c.keys| == |priv| == 4 && i < 4 && (Protected(f) ==> Link.KeyIndex(f, x.behind) != i)
    ensures Link.Clear(c, priv, f, x).0[i] == priv[i] && Link.Checked(c, priv, f, m, x).0[i] == priv[i]
  {
  }

  lemma NotReached<Q(!new)>(c: Link.Config<Q>, st: Link.RxState<Q>, f: seq<Byte>, x: Link.Context, i: nat)
    requires Link.Ready(c, st) && i < 4 && !Reaches(c, st, f, x, i)
    ensures Link.Rx(c, st, f, x).0.priv[i] == st.priv[i]
  {
    if Whole(f) && (Protected(f) ==> Link.KeyIndex(f, x.behind) != i) {
      var d := Link.DuplicateStep(c, st, f, x).1;
      var r := Link.Clear(c, d.priv, f, x);
      OtherKey(c, d.priv, f, [], x, i);
      if r.1.Some? && Whole(r.1.value) {
        match Link.Assembled(d.cache, f, r.1.value, c.lim, x).1
        case Complete(m) => OtherKey(c, r.0, f, m, x, i);
        case _ =>
      }
    }
  }

  lemma Opens<T(!new)>(c: Link.Config<Rx<T>>, i: nat, r: Receiver<T>, priv: seq<Rx<T>>, f: seq<Byte>, x: Link.Context)
    requires Installed(c, i, r) && |priv| == 4 && Whole(f) && Protected(f) && Link.KeyIndex(f, x.behind) == i
    ensures var d := Decrypt(r, priv[i], HdrLen(f), f);
            Link.Clear(c, priv, f, x) == (priv[i := d.0], if d.1.Opened? then Some(d.1.frame) else None)
  {
    assert c.keys[i].value.open(priv[i], HdrLen(f), f) == TkipOpen(r, priv[i], HdrLen(f), f);
  }

  lemma Checks<T(!new)>(c: Link.Config<Rx<T>>, i: nat, r: Receiver<T>, priv: seq<Rx<T>>, f: seq<Byte>, m: seq<Byte>,
                        x: Link.Context)
    requires Installed(c, i, r) && |priv| == 4 && Whole(f) && Protected(f) && Link.KeyIndex(f, x.behind) == i
    ensures Whole(m) ==>
              var v := VerifyMsdu(r, priv[i], HdrLen(m), m);
              Link.Checked(c, priv, f, m, x) == (priv[i := v.0], if v.1.Opened? then Some(v.1.frame) else None)
    ensures !Whole(m) ==> Link.Checked(c, priv, f, m, x).0 == priv
  {
    if Whole(m) {
      assert c.keys[i].value.check.value(priv[i], HdrLen(m), m) == TkipCheck(r, priv[i], HdrLen(m), m);
    }
  }

  /** Where ieee80211_rx stands behind the decryption. */
  lemma BehindDecryption<Q(!new)>(c: Link.Config<Q>, st: Link.RxState<Q>, f: seq<Byte>, x: Link.Context, i: nat)
    requires Link.Ready(c, st) && i < 4 && Reaches(c, st, f, x, i) && Link.KeyFor(c, f, x).Some?
    ensures Whole(f) &&
            var q := Link.Clear(c, st.priv, f, x);
            var t := Link.DuplicateStep(c, st, f, x).1.(priv := q.0);
            Link.Rx(c, st, f, x) ==
            if q.1.None? || !Whole(q.1.value) then (t, Link.Dropped)
            else Link.Reassembling(c, t, f, Link.AddressesOf(f, c.bssid), q.1.value, x)
  {
  }

  lemma Reached<T(!new)>(c: Link.Config<Rx<T>>, i: nat, r: Receiver<T>, st: Link.RxState<Rx<T>>, f: seq<Byte>,
                         x: Link.Context)
    requires Installed(c, i, r) && Link.Ready(c, st) && Reaches(c, st, f, x, i) && Whole(f)
    ensures Link.Rx(c, st, f, x).0.priv[i]
         == Receive(r, st.priv[i], HdrLen(f), f, Completes(st.cache, f, c.lim, x)).0
  {
    BehindDecryption(c, st, f, x, i);
    Opens(c, i, r, st.priv, f, x);
    var q := Link.Clear(c, st.priv, f, x);
    if q.1.Some? && Whole(q.1.value) {
      match Link.Assembled(st.cache, f, q.1.value, c.lim, x).1
      case Complete(m) => Checks(c, i, r, q.0, f, m, x);
      case _ =>
    }
  }

  /** Every frame changes the state of a TKIP key as Tkip.Receive says, or does not get that far. */
  lemma KeyStep<T(!new)>(c: Link.Config<Rx<T>>, i: nat, r: Receiver<T>, st: Link.RxState<Rx<T>>, f: seq<Byte>,
                         x: Link.Context)
    requires Installed(c, i, r) && Link.Ready(c, st)
    ensures Reaches(c, st, f, x, i) ==> Whole(f)
    ensures Link.Rx(c, st, f, x).0.priv[i] ==
            if Reaches(c, st, f, x, i) then
              Receive(r, st.priv[i], HdrLen(f), f, Completes(st.cache, f, c.lim, x)).0
            else st.priv[i]
  {
    if Reaches(c, st, f, x, i) {
      BehindDecryption(c, st, f, x, i);
      Reached(c, i, r, st, f, x);
    } else {
      NotReached(c, st, f, x, i);
    }
  }

  // ---- When the receiver's cache can be trusted ----

  /** The frame gets to key i and spoils what is cached there for the transmitter ta. */
  predicate SpoilsKey<T(==)>(c: Link.Config<Rx<T>>, i: nat, r: Receiver<T>, ta: Mac, st: Link.RxState<Rx<T>>,
                             f: seq<Byte>, x: Link.Context)
    requires Link.Ready(c, st) && i < 4
  {
    Reaches(c, st, f, x, i) && Whole(f) &&
    Spoils(r, ta, st.priv[i], HdrLen(f), f, Completes(st.cache, f, c.lim, x))
  }

  /** Whatever frame ieee80211_rx is given, the cache stays right exactly if the frame does not spoil it. */
  lemma CoherentIffNotSpoilt<T(!new)>(c: Link.Config<Rx<T>>, i: nat, r: Receiver<T>, ta: Mac,
                                      st: Link.RxState<Rx<T>>, f: seq<Byte>, x: Link.Context)
    requires Installed(c, i, r) && Link.Ready(c, st) && Separates1(r) && Coherent(r, ta, st.priv[i])
    ensures Coherent(r, ta, Link.Rx(c, st, f, x).0.priv[i]) <==> !SpoilsKey(c, i, r, ta, st, f, x)
  {
    KeyStep(c, i, r, st, f, x);
    if Reaches(c, st, f, x, i) {
      Tkip.CoherentIffNotSpoilt(r, ta, st.priv[i], HdrLen(f), f, Completes(st.cache, f, c.lim, x));
    }
  }

  // ---- Runs ----

  /** A frame and its surroundings. */
  datatype Arrival = Arrival(f: seq<Byte>, x: Link.Context)

  function StateAfter<Q>(c: Link.Config<Q>, st: Link.RxState<Q>, run: seq<Arrival>): (t: Link.RxState<Q>)
    requires Link.Ready(c, st)
    ensures Link.Ready(c, t)
    decreases |run|
  {
    if run == [] then st else StateAfter(c, Link.Rx(c, st, run[0].f, run[0].x).0, run[1..])
  }

  /** No frame of the run spoils the cache; otherwise they are any frames of anybody, garbled, in pieces or
      in the clear, in any order. */
  predicate Harmless<T(==)>(c: Link.Config<Rx<T>>, i: nat, r: Receiver<T>, ta: Mac, st: Link.RxState<Rx<T>>,
                            run: seq<Arrival>)
    requires Link.Ready(c, st) && i < 4
    decreases |run|
  {
    run == [] ||
    (!SpoilsKey(c, i, r, ta, st, run[0].f, run[0].x) &&
     Harmless(c, i, r, ta, Link.Rx(c, st, run[0].f, run[0].x).0, run[1..]))
  }

  lemma {:induction false} RunCoherent<T(!new)>(c: Link.Config<Rx<T>>, i: nat, r: Receiver<T>, ta: Mac,
                                                st: Link.RxState<Rx<T>>, run: seq<Arrival>)
    requires Installed(c, i, r) && Link.Ready(c, st) && Separates1(r) && Coherent(r, ta, st.priv[i])
    requires Harmless(c, i, r, ta, st, run)
    ensures Coherent(r, ta, StateAfter(c, st, run).priv[i])
    decreases |run|
  {
    if run != [] {
      CoherentIffNotSpoilt(c, i, r, ta, st, run[0].f, run[0].x);
      RunCoherent(c, i, r, ta, Link.Rx(c, st, run[0].f, run[0].x).0, run[1..]);
    }
  }

  // ---- An intact frame ----

  /** A data frame that is a whole MSDU in itself. */
  predicate WholeMsdu(f: seq<Byte>) {
    Whole(f) && HasAddresses(f) && FragOf(f) == 0 && !More(f)
  }

  /** The check takes off the code, and the rest is handed up. */
  lemma HandedUp<T(!new)>(c: Link.Config<Rx<T>>, i: nat, r: Receiver<T>, st: Link.RxState<Rx<T>>, f: seq<Byte>,
                          a: Link.Addresses, m: seq<Byte>, n: seq<Byte>, x: Link.Context)
    requires Installed(c, i, r) && Link.Ready(c, st) && Whole(f) && Protected(f) && Link.KeyIndex(f, x.behind) == i
    requires Whole(m) && VerifyMsdu(r, st.priv[i], HdrLen(m), m).1 == Opened(n) && |n| >= HdrLen(f)
    ensures Link.Finished(c, st, f, a, m, x).1 == Link.Delivered(Ethernet(a.dst, a.src, n[HdrLen(f)..]))
  {
    Checks(c, i, r, st.priv, f, m, x);
  }

  /** An intact frame that gets as far as the decryption is handed up as it was signed, and the receiver
      takes over its counter. */
  lemma IntactDelivered<T(!new)>(c: Link.Config<Rx<T>>, i: nat, r: Receiver<T>, ta: Mac, st: Link.RxState<Rx<T>>,
                                 iv32: U32, iv16: W16, f: seq<Byte>, g: seq<Byte>, x: Link.Context)
    requires Installed(c, i, r) && Link.Ready(c, st) && Reads(r) && Coherent(r, ta, st.priv[i]) && r.keySet && r.idx < 4
    requires WholeMsdu(g) && HeaderHas(HdrLen(g), f) && Intact(r, ta, iv32, iv16, HdrLen(g), f, g)
    requires Reaches(c, st, g, x, i)
    ensures var a := Link.AddressesOf(g, c.bssid);
            var q := Link.Rx(c, st, g, x);
            q.1 == Link.Delivered(Ethernet(a.dst, a.src, f[HdrLen(g)..])) &&
            q.0.priv[i].iv32 == iv32 && q.0.priv[i].iv16 == iv16 && Coherent(r, ta, q.0.priv[i])
  {
    var h, whole := HdrLen(g), Completes(st.cache, g, c.lim, x);
    var p := Unchecked(r, h, f, g);
    UncheckedHeader(r, h, f, g);
    assert whole(p) == Some((h, p));
    RoundTrip(r, ta, st.priv[i], iv32, iv16, h, f, g, whole);
    KeyStep(c, i, r, st, g, x);
    BehindDecryption(c, st, g, x, i);
    Opens(c, i, r, st.priv, g, x);
    DecryptArrived(r, ta, st.priv[i], iv32, iv16, h, Signed(r.mic, h, f), g);
    var t := Link.DuplicateStep(c, st, g, x).1.(priv := Link.Clear(c, st.priv, g, x).0);
    HandedUp(c, i, r, t, g, Link.AddressesOf(g, c.bssid), p, g[..h] + f[h..], x);
  }

  lemma UncheckedHeader<T>(r: Receiver<T>, h: nat, f: seq<Byte>, g: seq<Byte>)
    requires HeaderHas(h, f) && HeaderHas(h, g) && HdrLen(g) == h
    ensures var p := Unchecked(r, h, f, g);
            Whole(p) && HdrLen(p) == h && FragOf(p) == FragOf(g) && More(p) == More(g)
  {
    var p := Unchecked(r, h, f, g);
    assert p[..h] == g[..h];
    assert p[0] == p[..h][0] && p[1] == p[..h][1] && p[22] == p[..h][22];
    assert g[0] == g[..h][0] && g[1] == g[..h][1] && g[22] == g[..h][22];
  }

  // ---- From ieee80211_xmit to ieee80211_rx ----

  /** ieee80211_michael_mic_add and ieee80211_tkip_encrypt; a frame without room for its addresses is never
      sent. */
  function TkipSeal(sbox: Byte -> W16, icv: CheckSum, idx: Byte, key: TkipKey, tx: Tx<Ttak>, f: seq<Byte>)
    : (Tx<Ttak>, seq<Byte>)
  {
    if !HasAddresses(f) then (tx, f + Zeros(20)) else
      (Next(Phase1Of(MixerOf(sbox, key), Addr2(f)), tx), SentFrame(sbox, icv, idx, key, Addr2(f), tx, HDR_LEN, f))
  }

  function TkipCipher(sbox: Byte -> W16, icv: CheckSum, idx: Byte, key: TkipKey): Cipher<Tx<Ttak>> {
    Cipher(8, 12, (tx: Tx<Ttak>, f: seq<Byte>) => TkipSeal(sbox, icv, idx, key, tx, f))
  }

  /** TKIP can be used to send, and stand among the keys of a receiver. */
  lemma TkipFits(sbox: Byte -> W16, icv: CheckSum, idx: Byte, key: TkipKey)
    ensures Transmit.Sound(TkipCipher(sbox, icv, idx, key))
    ensures Link.KeepsHeader(TkipHandlers(ReceiverOf(sbox, icv, idx, key)).open)
  {
    TkipKeepsHeader(ReceiverOf(sbox, icv, idx, key));
    var c := TkipCipher(sbox, icv, idx, key);
    forall k: Tx<Ttak>, f {:trigger c.seal(k, f)} | |f| >= HDR_LEN ensures |c.seal(k, f).1| == |f| + 20 {
      assert c.seal(k, f) == TkipSeal(sbox, icv, idx, key, k, f);
    }
  }

  /** The first frame of an MSDU. */
  lemma FirstFrame<K(!new)>(cs: Transmit.Config<K>, k: K, s: Seq12, e: seq<Byte>)
    requires |e| >= 14 && 0 < |Transmit.PiecesOf(cs, e)| <= MAX_NUM_FRAGS && Transmit.CipherFor(cs, e[12..14]).Some?
    ensures Transmit.FramesOf(cs, k, s, e).1[0]
         == Transmit.CipherFor(cs, e[12..14]).value.seal(k, DataPath.PlainAt(DataPath.SentOf(cs, e, s), 0)).1
  {
  }

  /** The header of a frame on the air, and the key it asks for. */
  lemma ArrivedHeader<T>(r: Receiver<T>, ta: Mac, iv32: U32, iv16: W16, m: seq<Byte>, g: seq<Byte>, behind: Byte)
    requires r.idx < 4 && HDR_LEN <= |m| && Arrived(r, ta, iv32, iv16, HDR_LEN, m, g) && HdrLen(g) == HDR_LEN
    ensures Link.KeyIndex(g, behind) == Link.TopBits(r.idx << 6)
  {
    var hdr := TkipHdr(iv32, iv16, r.idx);
    ArrivedSections(r, ta, iv32, iv16, HDR_LEN, m, g, hdr,
                    SealedBody(r.ks, r.icv, r.p2(r.p1(ta, iv32), iv16), m[HDR_LEN..]));
    IndexByte(iv32, iv16, r.idx);
    LinkCiphers.TopBitsOf(r.idx, hdr[3]);
    assert (g + [behind])[HDR_LEN + 3] == g[HDR_LEN + 3];
  }

  /** A frame that an ad-hoc station sends and the other has not recorded gets as far as the decryption. */
  lemma SentReaches<Q(!new)>(cr: Link.Config<Q>, st: Link.RxState<Q>, m: DataPath.Sent, g: seq<Byte>, x: Link.Context,
                             i: nat)
    requires DataPath.ValidSent(m, true) && |g| >= HDR_LEN && g[..HDR_LEN] == DataPath.PlainAt(m, 0)[..HDR_LEN]
    requires cr.bssid == m.s.a3 && Link.KeyIndex(g, x.behind) == i && !Link.DuplicateStep(cr, st, g, x).0
    ensures Reaches(cr, st, g, x, i) && Whole(g) && HdrLen(g) == HDR_LEN && HasAddresses(g)
    ensures FragOf(g) == 0 && (More(g) <==> 1 < |m.chunks|) && Addr2(g) == m.s.a2
    ensures Link.AddressesOf(g, cr.bssid) == Link.Addresses(m.s.a1, m.s.a2, m.s.a3)
  {
    DataPath.PlainFields(m, true, 0, g);
    FragByteIs(0);
  }

  /** g is the first fragment of m on the air, as its addressee with key i gets it. */
  ghost predicate Comes<T>(c: Link.Config<Rx<T>>, i: nat, r: Receiver<T>, m: DataPath.Sent, iv32: U32, iv16: W16,
                           g: seq<Byte>) {
    DataPath.ValidSent(m, true) && HeaderHas(HDR_LEN, DataPath.PlainAt(m, 0)) && c.bssid == m.s.a3 &&
    Intact(r, m.s.a2, iv32, iv16, HDR_LEN, DataPath.PlainAt(m, 0), g) &&
    g[..HDR_LEN] == DataPath.PlainAt(m, 0)[..HDR_LEN] && r.idx < 4 && i == Link.TopBits(r.idx << 6) && r.keySet
  }

  /** The receiver has not recorded the frame. */
  predicate Unseen<Q>(c: Link.Config<Q>, st: Link.RxState<Q>, g: seq<Byte>, x: Link.Context) {
    |g| >= HDR_LEN && !Link.DuplicateStep(c, st, g, x).0
  }

  lemma FirstReaches<T(!new)>(c: Link.Config<Rx<T>>, i: nat, r: Receiver<T>, st: Link.RxState<Rx<T>>,
                              m: DataPath.Sent, iv32: U32, iv16: W16, g: seq<Byte>, x: Link.Context)
    requires Comes(c, i, r, m, iv32, iv16, g) && Unseen(c, st, g, x)
    ensures Reaches(c, st, g, x, i) && Whole(g) && HdrLen(g) == HDR_LEN && HasAddresses(g)
    ensures FragOf(g) == 0 && (More(g) <==> 1 < |m.chunks|) && Addr2(g) == m.s.a2
    ensures Link.AddressesOf(g, c.bssid) == Link.Addresses(m.s.a1, m.s.a2, m.s.a3)
  {
    DataPath.PlainFields(m, true, 0, g);
    ArrivedHeader(r, m.s.a2, iv32, iv16, Signed(r.mic, HDR_LEN, DataPath.PlainAt(m, 0)), g, x.behind);
    SentReaches(c, st, m, g, x, i);
  }

  /** An MSDU in one frame is handed up. */
  lemma WholeComes<T(!new)>(c: Link.Config<Rx<T>>, i: nat, r: Receiver<T>, st: Link.RxState<Rx<T>>, m: DataPath.Sent,
                            iv32: U32, iv16: W16, g: seq<Byte>, x: Link.Context)
    requires Installed(c, i, r) && Link.Ready(c, st) && Reads(r) && Coherent(r, m.s.a2, st.priv[i])
    requires Comes(c, i, r, m, iv32, iv16, g) && Unseen(c, st, g, x) && |m.chunks| == 1
    ensures var q := Link.Rx(c, st, g, x);
            q.1 == DataPath.Result(m) && q.0.priv[i].iv32 == iv32 && q.0.priv[i].iv16 == iv16
  {
    var p := DataPath.PlainAt(m, 0);
    FirstReaches(c, i, r, st, m, iv32, iv16, g, x);
    IntactDelivered(c, i, r, m.s.a2, st, iv32, iv16, p, g, x);
    assert p[HDR_LEN..] == m.chunks[0] == Joined(m.chunks) by { assert m.chunks[..0] == []; }
  }

  /** The first of several fragments spoils the cache if its upper counter is a new one. */
  lemma FragmentComes<T(!new)>(c: Link.Config<Rx<T>>, i: nat, r: Receiver<T>, st: Link.RxState<Rx<T>>,
                               m: DataPath.Sent, iv32: U32, iv16: W16, g: seq<Byte>, x: Link.Context)
    requires Installed(c, i, r) && Link.Ready(c, st) && Reads(r) && Coherent(r, m.s.a2, st.priv[i])
    requires Comes(c, i, r, m, iv32, iv16, g) && Unseen(c, st, g, x) && |m.chunks| > 1 && iv32 != st.priv[i].iv32
    ensures SpoilsKey(c, i, r, m.s.a2, st, g, x)
  {
    var p := DataPath.PlainAt(m, 0);
    FirstReaches(c, i, r, st, m, iv32, iv16, g, x);
    UncheckedHeader(r, HDR_LEN, p, g);
    FragmentSpoils(r, m.s.a2, st.priv[i], iv32, iv16, HDR_LEN, Signed(r.mic, HDR_LEN, p), g,
                   Completes(st.cache, g, c.lim, x));
  }

  /** S-box, check sum, key index, and the two stations' halves of one key. */
  datatype Pair = Pair(sbox: Byte -> W16, icv: CheckSum, idx: Byte, a: TkipKey, b: TkipKey)

  /** Two ad-hoc stations with one TKIP key, which is the receiver's key i. */
  ghost predicate Stations(cs: Transmit.Config<Tx<Ttak>>, cr: Link.Config<Rx<Ttak>>, i: nat, w: Pair, t: seq<Byte>) {
    cs.mode == Adhoc && cr.bssid == cs.bssid && Transmit.ValidConfig(cs) && Paired(w.a, w.b) && w.idx < 4 &&
    Transmit.CipherFor(cs, t) == Some(TkipCipher(w.sbox, w.icv, w.idx, w.a)) && i == Link.TopBits(w.idx << 6) &&
    Installed(cr, i, ReceiverFor(w))
  }

  function ReceiverFor(w: Pair): Receiver<Ttak> { ReceiverOf(w.sbox, w.icv, w.idx, w.b) }

  /** The sender's state after n frames. */
  function TxAfter(w: Pair, ta: Mac, tx: Tx<Ttak>, n: nat): Tx<Ttak> {
    TkipCounter.After(Phase1Of(MixerOf(w.sbox, w.a), ta), tx, n)
  }

  /** The first 802.11 frame of the Ethernet frame e, sent behind n others. */
  function FirstOf(cs: Transmit.Config<Tx<Ttak>>, w: Pair, tx: Tx<Ttak>, n: nat, s: Seq12, e: seq<Byte>): seq<Byte>
    requires |e| >= 14 && 0 < |Transmit.PiecesOf(cs, e)| <= MAX_NUM_FRAGS
  {
    Transmit.FramesOf(cs, TxAfter(w, e[6..12], tx, n), s, e).1[0]
  }

  /** The frame as sent is sealed from the plain one, and arrives intact. */
  lemma SentArrives(w: Pair, tx: Tx<Ttak>, n: nat, p: seq<Byte>)
    requires Paired(w.a, w.b) && w.idx < 4 && HeaderHas(HDR_LEN, p) && TkipCounter.Initial(tx)
    ensures var t := TxAfter(w, Addr2(p), tx, n);
            var g := TkipSeal(w.sbox, w.icv, w.idx, w.a, t, p).1;
            Intact(ReceiverFor(w), Addr2(p), t.iv32, t.iv16, HDR_LEN, p, g) && g[..HDR_LEN] == p[..HDR_LEN] &&
            Tsc(t) == (n + 1) % TSC_SIZE
  {
    var t := TxAfter(w, Addr2(p), tx, n);
    var g := TkipSeal(w.sbox, w.icv, w.idx, w.a, t, p).1;
    assert g[..HDR_LEN] == p[..HDR_LEN];
    SameHeader(HDR_LEN, p, g);
    SentIsIntact(w.sbox, w.icv, w.idx, w.a, w.b, Addr2(p), tx, n, HDR_LEN, p, g);
  }

  lemma FirstIsIntact(cs: Transmit.Config<Tx<Ttak>>, cr: Link.Config<Rx<Ttak>>, i: nat, w: Pair, tx: Tx<Ttak>, n: nat,
                      s: Seq12, e: seq<Byte>)
    requires 14 <= |e| <= 1514 && Stations(cs, cr, i, w, e[12..14]) && TkipCounter.Initial(tx)
    requires 0 < |Transmit.PiecesOf(cs, e)| <= MAX_NUM_FRAGS
    ensures var t := TxAfter(w, e[6..12], tx, n);
            Comes(cr, i, ReceiverFor(w), DataPath.SentOf(cs, e, s), t.iv32, t.iv16, FirstOf(cs, w, tx, n, s, e)) &&
            Tsc(t) == (n + 1) % TSC_SIZE
  {
    var m := DataPath.SentOf(cs, e, s);
    FirstFrame(cs, TxAfter(w, e[6..12], tx, n), s, e);
    DataPath.PlainFields(m, true, 0, DataPath.PlainAt(m, 0));
    SentArrives(w, tx, n, DataPath.PlainAt(m, 0));
  }

  /** An Ethernet frame that needs one 802.11 frame, sent as the n-th since key setup: after any run of frames
      that does not spoil its cache, the other station hands it up byte for byte, and its counter is the
      sender's. */
  lemma SenderToReceiver(cs: Transmit.Config<Tx<Ttak>>, cr: Link.Config<Rx<Ttak>>, i: nat, w: Pair, tx: Tx<Ttak>,
                         n: nat, s: Seq12, e: seq<Byte>, st: Link.RxState<Rx<Ttak>>, run: seq<Arrival>,
                         x: Link.Context)
    requires 14 <= |e| <= 1514 && Stations(cs, cr, i, w, e[12..14]) && TkipCounter.Initial(tx)
    requires |Transmit.PiecesOf(cs, e)| == 1
    requires Link.Ready(cr, st) && Coherent(ReceiverFor(w), e[6..12], st.priv[i])
    requires Harmless(cr, i, ReceiverFor(w), e[6..12], st, run)
    requires Unseen(cr, StateAfter(cr, st, run), FirstOf(cs, w, tx, n, s, e), x)
    ensures var q := Link.Rx(cr, StateAfter(cr, st, run), FirstOf(cs, w, tx, n, s, e), x);
            q.1 == Link.Delivered(e) && q.0.priv[i].iv32 * 0x1_0000 + q.0.priv[i].iv16 == (n + 1) % TSC_SIZE
  {
    var t, m, r := TxAfter(w, e[6..12], tx, n), DataPath.SentOf(cs, e, s), ReceiverFor(w);
    FirstIsIntact(cs, cr, i, w, tx, n, s, e);
    TkipSeparates(MixerOf(w.sbox, w.b), w.icv, w.idx, true, w.b[24..32]);
    RunCoherent(cr, i, r, e[6..12], st, run);
    WholeComes(cr, i, r, StateAfter(cr, st, run), m, t.iv32, t.iv16, FirstOf(cs, w, tx, n, s, e), x);
    ResultIs(cs, e, s);
  }

  lemma ResultIs<K(!new)>(cs: Transmit.Config<K>, e: seq<Byte>, s: Seq12)
    requires |e| >= 14 && |Transmit.PiecesOf(cs, e)| == 1 && cs.mode == Adhoc
    ensures DataPath.Result(DataPath.SentOf(cs, e, s)) == Link.Delivered(e)
  {
    var c := Snap(e[12..14]) + e[14..];
    DataPath.SinglePiece(cs, e);
    assert Joined([c]) == c by { assert [c][..0] == []; }
    EncapsulationUndone(e[..6], e[6..12], e[12..14], e[14..]);
    assert e[..6] + e[6..12] + e[12..14] + e[14..] == e;
  }

  /** The first frame of an Ethernet frame that needs several, if it is the first under a new upper counter,
      spoils the receiver's cache. */
  lemma SentFragmentSpoils(cs: Transmit.Config<Tx<Ttak>>, cr: Link.Config<Rx<Ttak>>, i: nat, w: Pair, tx: Tx<Ttak>,
                           n: nat, s: Seq12, e: seq<Byte>, st: Link.RxState<Rx<Ttak>>, x: Link.Context)
    requires 14 <= |e| <= 1514 && Stations(cs, cr, i, w, e[12..14]) && TkipCounter.Initial(tx)
    requires 1 < |Transmit.PiecesOf(cs, e)| <= MAX_NUM_FRAGS
    requires Link.Ready(cr, st) && Coherent(ReceiverFor(w), e[6..12], st.priv[i])
    requires TxAfter(w, e[6..12], tx, n).iv32 != st.priv[i].iv32
    requires Unseen(cr, st, FirstOf(cs, w, tx, n, s, e), x)
    ensures !Coherent(ReceiverFor(w), e[6..12], Link.Rx(cr, st, FirstOf(cs, w, tx, n, s, e), x).0.priv[i])
  {
    var t, m, r := TxAfter(w, e[6..12], tx, n), DataPath.SentOf(cs, e, s), ReceiverFor(w);
    FirstIsIntact(cs, cr, i, w, tx, n, s, e);
    TkipSeparates(MixerOf(w.sbox, w.b), w.icv, w.idx, true, w.b[24..32]);
    FragmentComes(cr, i, r, st, m, t.iv32, t.iv16, FirstOf(cs, w, tx, n, s, e), x);
    CoherentIffNotSpoilt(cr, i, r, e[6..12], st, FirstOf(cs, w, tx, n, s, e), x);
  }
}
