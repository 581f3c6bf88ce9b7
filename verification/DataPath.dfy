/** From one station's network stack to the other's: ieee80211_xmit, the air, ieee80211_rx. */
module DataPath {
  import opened Bytes
  import opened Options
  import opened Dot11
  import opened Fragmentation
  import Transmit
  import opened Reassembly
  import opened ReassemblyProofs
  import opened Receive

  // ---- Sender and receiver fit together ----

  /** The handlers undo the cipher, whatever is kept with the key, and check no MSDUs; the key is found by the
      index idx, and the header is in the clear. */
  ghost predicate Undone<K(!new), Q(!new)>(c: Cipher<K>, o: Handlers<Q>, idx: nat) {
    o.check.None? &&
    forall k, f {:trigger c.seal(k, f)} :: |f| >= HDR_LEN ==>
      var g := c.seal(k, f).1;
      |g| >= HDR_LEN + 4 && g[..HDR_LEN] == f[..HDR_LEN] && TopBits(g[HDR_LEN + 3]) == idx &&
      forall q {:trigger o.open(q, HDR_LEN, g)} :: o.open(q, HDR_LEN, g).1 == Some(f)
  }

  /** What is sent encrypted, the receiver has a key for; nothing is asked of frames in the clear. */
  ghost predicate KeysAgree<K(!new), Q(!new)>(cr: Config<Q>, cipher: Option<Cipher<K>>)
    requires |cr.keys| == 4
  {
    cipher.Some? ==>
      cr.hostDecrypt &&
      exists i {:trigger cr.keys[i]} :: 0 <= i < 4 && cr.keys[i].Some? && Undone(cipher.value, cr.keys[i].value, i)
  }

  /** Two stations of one ad-hoc network that agree on the key for protocol t. */
  ghost predicate Agree<K(!new), Q(!new)>(cs: Transmit.Config<K>, cr: Config<Q>, t: seq<Byte>) {
    cs.mode == Adhoc && cr.mode == Adhoc && cr.bssid == cs.bssid && Receive.ValidConfig(cr) &&
      Transmit.ValidConfig(cs) &&
    cr.lim.capacity >= HDR_LEN + SNAP_LEN + 1500 && KeysAgree(cr, Transmit.CipherFor(cs, t))
  }

  // ---- One MSDU ----

  /** The pieces of an MSDU and what all its fragments say. */
  datatype Sent = Sent(s: Msdu, chunks: seq<seq<Byte>>)

  predicate ValidSent(m: Sent, encrypted: bool) {
    0 < |m.chunks| <= MAX_NUM_FRAGS && m.s.flags == (if encrypted then PROTECTED else 0)
  }

  function SentKey(m: Sent): Key {
    Key(SeqBytes(m.s.seqNo), m.s.a2, m.s.a1)
  }

  function PlainAt(m: Sent, i: nat): seq<Byte>
    requires i < |m.chunks| <= MAX_NUM_FRAGS
  {
    Plain(m.s, i, |m.chunks|, m.chunks[i])
  }

  /** What the receiver has after i fragments. */
  function Got(m: Sent, i: nat): seq<Byte>
    requires 0 < i <= |m.chunks| <= MAX_NUM_FRAGS
  {
    if i == 1 then PlainAt(m, 0) else Got(m, i - 1) + m.chunks[i - 1]
  }

  lemma {:induction false} GotJoined(m: Sent, i: nat)
    requires 0 < i <= |m.chunks| <= MAX_NUM_FRAGS
    ensures |Got(m, i)| >= HDR_LEN && Got(m, i)[HDR_LEN..] == Joined(m.chunks[..i])
  {
    JoinedLast(m.chunks[..i]);
    assert m.chunks[..i][..i - 1] == m.chunks[..i - 1];
    if i > 1 {
      GotJoined(m, i - 1);
      assert (Got(m, i - 1) + m.chunks[i - 1])[HDR_LEN..] == Got(m, i - 1)[HDR_LEN..] + m.chunks[i - 1];
    } else {
      assert m.chunks[..0] == [];
    }
  }

  lemma {:induction false} JoinedPrefix(c: seq<seq<Byte>>, i: nat)
    requires i <= |c|
    ensures |Joined(c[..i])| <= |Joined(c)|
    decreases |c| - i
  {
    if i < |c| {
      JoinedPrefix(c, i + 1);
      JoinedLast(c[..i + 1]);
      assert c[..i + 1][..i] == c[..i];
    } else {
      assert c[..i] == c;
    }
  }

  /** The bits of the frame control field that the receiver looks at. */
  lemma Flags(encrypted: bool, more: bool)
    ensures var b: Byte := (if encrypted then PROTECTED else 0) | (if more then MOREFRAGS else 0);
            b & 0x03 == 0 && (b & MOREFRAGS != 0 <==> more) && (b & PROTECTED != 0 <==> encrypted)
  {
  }

  lemma PlainFields(m: Sent, encrypted: bool, i: nat, f: seq<Byte>)
    requires ValidSent(m, encrypted) && i < |m.chunks| && |f| >= HDR_LEN && f[..HDR_LEN] == PlainAt(m, i)[..HDR_LEN]
    ensures f[0] == 0x08 && HdrLen(f) == HDR_LEN && Whole(f) && !FourAddresses(f)
    ensures KeyOf(f) == SentKey(m) && Addr3(f) == m.s.a3 && FragOf(f) == FragByte(i)
    ensures (More(f) <==> i + 1 < |m.chunks|) && (Protected(f) <==> encrypted)
    ensures AddressesOf(f, m.s.a3) == Addresses(m.s.a1, m.s.a2, m.s.a3)
  {
    var n := |m.chunks|;
    Flags(encrypted, i + 1 < n);
    var flags := if i + 1 < n then m.s.flags | MOREFRAGS else m.s.flags;
    assert f[..HDR_LEN] == Header(flags, m.s.a1, m.s.a2, m.s.a3, m.s.seqNo, i);
    HeaderFields(flags, m.s.a1, m.s.a2, m.s.a3, m.s.seqNo, i, f);
    FlagBits(flags);
  }

  lemma FlagBits(b: Byte)
    requires b & 0x03 == 0
    ensures b & FROMDS == 0 && b & TODS == 0
  {
  }

  // ---- One frame of ours ----

  /** f is what fragment i looks like on the air, under some state of the cipher. */
  ghost predicate OnAir<K(!new)>(cipher: Option<Cipher<K>>, m: Sent, i: nat, f: seq<Byte>)
    requires i < |m.chunks| <= MAX_NUM_FRAGS
  {
    exists k {:trigger SealOne(cipher, k, PlainAt(m, i))} :: f == SealOne(cipher, k, PlainAt(m, i)).1
  }

  /** The receiver gets the plain fragment out of it. */
  lemma Opened<K(!new), Q(!new)>(cr: Config<Q>, cipher: Option<Cipher<K>>, m: Sent, i: nat, f: seq<Byte>, x: Context)
    requires |cr.keys| == 4 && KeysAgree(cr, cipher) && ValidSent(m, cipher.Some?) && i < |m.chunks| &&
             OnAir(cipher, m, i, f)
    ensures |f| >= HDR_LEN && f[..HDR_LEN] == PlainAt(m, i)[..HDR_LEN]
    ensures Whole(f) && forall priv: seq<Q> {:trigger Clear(cr, priv, f, x)} :: |priv| == 4 ==>
              Clear(cr, priv, f, x).1 == Some(PlainAt(m, i))
    ensures Protected(f) ==> KeyFor(cr, f, x).Some? && KeyFor(cr, f, x).value.check.None?
    ensures Protected(f) <==> cipher.Some?
  {
    var p := PlainAt(m, i);
    var k :| f == SealOne(cipher, k, p).1;
    if cipher.Some? {
      var idx :| 0 <= idx < 4 && cr.keys[idx].Some? && Undone(cipher.value, cr.keys[idx].value, idx);
      assert cipher.value.seal(k, p).1 == f;
      PlainFields(m, true, i, f);
      assert (f + [x.behind])[HDR_LEN + 3] == f[HDR_LEN + 3];
      assert KeyIndex(f, x.behind) == idx;
    } else {
      PlainFields(m, false, i, f);
    }
  }

  /** The receiver turns down the MSDU that f completes, because it came in the clear although there is a
      key under the index that f seems to name. */
  predicate Refuses<K, Q>(cr: Config<Q>, cipher: Option<Cipher<K>>, f: seq<Byte>, x: Context)
    requires |f| >= HDR_LEN && |cr.keys| == 4
  {
    cipher.None? && !cr.openWep && KeyFor(cr, f, x).Some?
  }

  /** Between the stations of an ad-hoc network, EAPOL frames are not told from others. */
  lemma {:induction false} NotEapol(m: Sent, encrypted: bool, i: nat, own: Mac)
    requires ValidSent(m, encrypted) && 0 < i <= |m.chunks|
    ensures |Got(m, i)| >= HDR_LEN && Got(m, i)[1] & 0x03 == 0 && !IsEapol(Got(m, i), own)
    decreases i
  {
    if i > 1 {
      NotEapol(m, encrypted, i - 1, own);
      assert Got(m, i)[1] == Got(m, i - 1)[1];
    } else {
      Flags(encrypted, 1 < |m.chunks|);
    }
    NoDsBits(Got(m, i)[1]);
  }

  lemma NoDsBits(b: Byte)
    requires b & 0x03 == 0
    ensures b & 0x03 != TODS && b & 0x03 != FROMDS
  {
  }

  /** With the duplicate filter passed, the frame gets as far as the reassembly. */
  lemma OursAccepted<K(!new), Q(!new)>(cr: Config<Q>, cipher: Option<Cipher<K>>, m: Sent, i: nat, f: seq<Byte>,
                     st: RxState<Q>, x: Context)
    requires |cr.keys| == 4 && KeysAgree(cr, cipher) && ValidSent(m, cipher.Some?) && i < |m.chunks| &&
             OnAir(cipher, m, i, f)
    requires cr.bssid == m.s.a3 && Ready(cr, st) && |f| >= HDR_LEN && !DuplicateStep(cr, st, f, x).0
    ensures Whole(f) &&
            var t := DuplicateStep(cr, st, f, x).1.(priv := Clear(cr, st.priv, f, x).0);
            Rx(cr, st, f, x) == Reassembling(cr, t, f, Addresses(m.s.a1, m.s.a2, m.s.a3), PlainAt(m, i), x)
    ensures Unprotected(cr, KeyFor(cr, f, x), f, Got(m, |m.chunks|)) <==> Refuses(cr, cipher, f, x)
  {
    NotEapol(m, cipher.Some?, |m.chunks|, cr.own);
    Opened(cr, cipher, m, i, f, x);
    PlainFields(m, cipher.Some?, i, f);
    PlainFields(m, cipher.Some?, i, PlainAt(m, i));
  }

  // ---- The state between two of our frames ----

  /** Slot z holds fragments 0 to i - 1; no other slot can be taken for it; starts of other MSDUs since. */
  ghost predicate Kept(c: State, m: Sent, i: nat, z: nat, starts: nat, t0: nat, hz: nat)
    requires 0 < i <= |m.chunks| <= MAX_NUM_FRAGS
  {
    z < CACHE_LEN && starts < CACHE_LEN && c.next == (z + 1 + starts) % CACHE_LEN &&
    c.slots[z] == Held(t0, SentKey(m), FragByte(i - 1), Got(m, i)) &&
    forall j {:trigger c.slots[j]} ::
      0 <= j < CACHE_LEN && j != z && c.slots[j].Held? && c.slots[j].key == SentKey(m) ==>
        t0 > c.slots[j].first + 2 * hz
  }

  /** If the sender's last accepted frame was of this MSDU, it was fragment i - 1. */
  ghost predicate Passes(ibss: map<Mac, Seen>, m: Sent, i: nat)
    requires 0 < i <= MAX_NUM_FRAGS
  {
    m.s.a2 in ibss && ibss[m.s.a2].seqNo == SeqBytes(m.s.seqNo) ==> ibss[m.s.a2].frag == FragByte(i - 1)
  }

  lemma OursPasses<Q(!new)>(cr: Config<Q>, m: Sent, encrypted: bool, i: nat, f: seq<Byte>, st: RxState<Q>, x: Context)
    requires ValidSent(m, encrypted) && 0 < i < |m.chunks| && cr.mode == Adhoc && Passes(st.ibss, m, i)
    requires |f| >= HDR_LEN && f[..HDR_LEN] == PlainAt(m, i)[..HDR_LEN]
    ensures !DuplicateStep(cr, st, f, x).0 && Passes(DuplicateStep(cr, st, f, x).1.ibss, m, i + 1)
  {
    PlainFields(m, encrypted, i, f);
    NextFragByte(i - 1);
  }

  /** The cache's part of our fragment i > 0. */
  lemma OursArrives(c: State, m: Sent, encrypted: bool, i: nat, z: nat, starts: nat, t0: nat, lim: Limits, now: nat,
                    mem: bool)
    requires ValidSent(m, encrypted) && 0 < i < |m.chunks| && Kept(c, m, i, z, starts, t0, lim.hz)
    requires t0 <= now <= t0 + 2 * lim.hz && |Got(m, i + 1)| <= lim.capacity && Whole(PlainAt(m, i))
    ensures var r := Arrive(c, PlainAt(m, i), now, lim, mem);
            if i + 1 < |m.chunks| then r.1 == Waiting && Kept(r.0, m, i + 1, z, starts, t0, lim.hz)
            else r.1 == Complete(Got(m, i + 1)) && r.0.next < CACHE_LEN
  {
    var p := PlainAt(m, i);
    PlainFields(m, encrypted, i, p);
    FragByteIs(i);
    NextFragByte(i - 1);
    SearchFinds(c.slots, SentKey(m), Some(FragByte(i)), now, lim.hz, 0);
    var q := Search(c.slots, SentKey(m), Some(FragByte(i)), now, lim.hz, 0);
    assert Hit(c.slots[z], SentKey(m), Some(FragByte(i)), now, lim.hz);
    assert q.1 == z;
    assert Payload(p) == m.chunks[i];
  }

  // ---- Frames of others ----

  /** Neither a control frame nor of our sender and sequence number. */
  predicate Foreign(f: seq<Byte>, m: Sent) {
    |f| < HDR_LEN || (!Control(f) && (Addr2(f) != m.s.a2 || SeqOf(f) != SeqBytes(m.s.seqNo)))
  }

  /** May take a slot of the cache. */
  predicate Starts(f: seq<Byte>) {
    |f| >= HDR_LEN && FragOf(f) == 0 && More(f)
  }

  lemma ForeignEntered(c: State, m: Sent, i: nat, z: nat, starts: nat, t0: nat, hz: nat, g: seq<Byte>, now: nat,
                       mem: bool)
    requires 0 < i <= |m.chunks| <= MAX_NUM_FRAGS && Kept(c, m, i, z, starts, t0, hz) && t0 <= now <= t0 + 2 * hz
    requires Whole(g) && KeyOf(g) != SentKey(m) && (FragOf(g) == 0 ==> starts + 1 < CACHE_LEN)
    ensures var e := Entered(c, g, now, hz, mem);
            Kept(e.0, m, i, z, if FragOf(g) == 0 && mem then starts + 1 else starts, t0, hz) && e.1 != z &&
            (e.1 < CACHE_LEN ==> e.0.slots[e.1].key == KeyOf(g))
  {
    SearchFinds(c.slots, KeyOf(g), Some(FragOf(g)), now, hz, 0);
  }

  lemma ForeignInvalidated(c: State, m: Sent, i: nat, z: nat, starts: nat, t0: nat, hz: nat, k: Key, now: nat)
    requires 0 < i <= |m.chunks| <= MAX_NUM_FRAGS && Kept(c, m, i, z, starts, t0, hz) && now <= t0 + 2 * hz &&
             k != SentKey(m)
    ensures Kept(State(Invalidated(c.slots, k, now, hz), c.next), m, i, z, starts, t0, hz)
  {
    SearchFinds(c.slots, k, None, now, hz, 0);
  }

  /** A foreign fragment leaves our entry alone. */
  lemma ForeignArrives(c: State, m: Sent, i: nat, z: nat, starts: nat, t0: nat, lim: Limits, g: seq<Byte>, now: nat,
                       mem: bool)
    requires 0 < i <= |m.chunks| <= MAX_NUM_FRAGS && Kept(c, m, i, z, starts, t0, lim.hz) &&
             t0 <= now <= t0 + 2 * lim.hz
    requires Whole(g) && KeyOf(g) != SentKey(m) && (FragOf(g) == 0 ==> starts + 1 < CACHE_LEN)
    ensures Kept(Arrive(c, g, now, lim, mem).0, m, i, z, if FragOf(g) == 0 && mem then starts + 1 else starts, t0,
                 lim.hz)
  {
    var e := Entered(c, g, now, lim.hz, mem);
    var more := if FragOf(g) == 0 && mem then starts + 1 else starts;
    ForeignEntered(c, m, i, z, starts, t0, lim.hz, g, now, mem);
    if e.1 < CACHE_LEN {
      var data := e.0.slots[e.1].data + Part(g);
      var d := State(e.0.slots[e.1 := e.0.slots[e.1].(data := data)], e.0.next);
      assert Kept(d, m, i, z, more, t0, lim.hz);
      ForeignInvalidated(e.0, m, i, z, more, t0, lim.hz, KeyOf(g), now);
      ForeignInvalidated(d, m, i, z, more, t0, lim.hz, KeyOf(g), now);
    }
  }

  /** The header of a decrypted frame. */
  lemma ForeignOpened<Q(!new)>(cr: Config<Q>, m: Sent, priv: seq<Q>, f: seq<Byte>, x: Context, g: seq<Byte>)
    requires Receive.ValidConfig(cr) && |f| >= HDR_LEN && Whole(f) && Foreign(f, m) &&
             |priv| == 4 && Clear(cr, priv, f, x).1 == Some(g)
    ensures Whole(g) && KeyOf(g) == KeyOf(f) && FragOf(g) == FragOf(f) && KeyOf(g) != SentKey(m)
  {
    var h := HdrLen(f);
    assert |g| >= h >= HDR_LEN && g[..h] == f[..h];
    assert forall j {:trigger g[j]} :: 0 <= j < h ==> g[j] == g[..h][j] && f[j] == f[..h][j];
    assert g[4..10] == f[4..10] && g[10..16] == f[10..16];
  }

  lemma ForeignSeen<Q(!new)>(cr: Config<Q>, m: Sent, i: nat, f: seq<Byte>, st: RxState<Q>, x: Context)
    requires |f| >= HDR_LEN && Foreign(f, m) && 0 < i <= MAX_NUM_FRAGS && Passes(st.ibss, m, i)
    ensures Passes(DuplicateStep(cr, st, f, x).1.ibss, m, i)
  {
  }

  /** A foreign frame leaves our MSDU alone. */
  lemma ForeignStep<Q(!new)>(cr: Config<Q>, m: Sent, i: nat, z: nat, starts: nat, t0: nat, f: seq<Byte>, st: RxState<Q>,
                    x: Context)
    requires Receive.ValidConfig(cr) && 0 < i <= |m.chunks| <= MAX_NUM_FRAGS && Foreign(f, m)
    requires Kept(st.cache, m, i, z, starts, t0, cr.lim.hz) && Passes(st.ibss, m, i) && |st.priv| == 4
    requires t0 <= x.now <= t0 + 2 * cr.lim.hz && (Starts(f) ==> starts + 1 < CACHE_LEN)
    ensures var r := Rx(cr, st, f, x).0;
            Passes(r.ibss, m, i) &&
            (Kept(r.cache, m, i, z, starts, t0, cr.lim.hz) ||
             (Starts(f) && Kept(r.cache, m, i, z, starts + 1, t0, cr.lim.hz)))
  {
    if |f| >= HDR_LEN {
      ForeignSeen(cr, m, i, f, st, x);
      if Whole(f) && Clear(cr, st.priv, f, x).1.Some? {
        var g := Clear(cr, st.priv, f, x).1.value;
        ForeignOpened(cr, m, st.priv, f, x, g);
        if FragOf(f) != 0 || More(f) {
          ForeignArrives(st.cache, m, i, z, starts, t0, cr.lim, g, x.now, x.mem);
        }
      }
    }
  }

  // ---- The first fragment ----

  /** No live entry, and no recent record of a duplicate, stands in the way of a new MSDU. */
  ghost predicate Fresh<Q(!new)>(st: RxState<Q>, m: Sent, now: nat, hz: nat) {
    st.cache.next < CACHE_LEN && |st.priv| == 4 &&
    (forall j {:trigger st.cache.slots[j]} :: 0 <= j < CACHE_LEN ==>
        !HoldsKey(st.cache.slots[j], SentKey(m), now, hz)) &&
    (m.s.a2 in st.ibss ==> st.ibss[m.s.a2].seqNo != SeqBytes(m.s.seqNo) || st.ibss[m.s.a2].time + 5 * hz <= now)
  }

  lemma FirstPasses<Q(!new)>(cr: Config<Q>, m: Sent, encrypted: bool, f: seq<Byte>, st: RxState<Q>, x: Context)
    requires ValidSent(m, encrypted) && cr.mode == Adhoc && Fresh(st, m, x.now, cr.lim.hz)
    requires |f| >= HDR_LEN && f[..HDR_LEN] == PlainAt(m, 0)[..HDR_LEN]
    ensures !DuplicateStep(cr, st, f, x).0 && Passes(DuplicateStep(cr, st, f, x).1.ibss, m, 1)
  {
    PlainFields(m, encrypted, 0, f);
  }

  lemma FirstArrives(c: State, m: Sent, encrypted: bool, lim: Limits, now: nat)
    requires ValidSent(m, encrypted) && 1 < |m.chunks| && c.next < CACHE_LEN && |Got(m, 1)| <= lim.capacity &&
             Whole(PlainAt(m, 0))
    requires forall j {:trigger c.slots[j]} :: 0 <= j < CACHE_LEN ==> !HoldsKey(c.slots[j], SentKey(m), now, lim.hz)
    ensures var r := Arrive(c, PlainAt(m, 0), now, lim, true);
            r.1 == Waiting && Kept(r.0, m, 1, c.next, 0, now, lim.hz)
  {
    var p := PlainAt(m, 0);
    PlainFields(m, encrypted, 0, p);
    FragByteIs(0);
    assert [] + p == p;
  }

  // ---- The whole way ----

  /** What reaches the receiver: our next fragment, or a frame of somebody else. */
  datatype Event = Ours(x: Context) | Other(f: seq<Byte>, x: Context)

  function OursIn(evs: seq<Event>): nat {
    if evs == [] then 0 else (if evs[0].Ours? then 1 else 0) + OursIn(evs[1..])
  }

  function StartsIn(evs: seq<Event>): nat {
    if evs == [] then 0 else (if evs[0].Other? && Starts(evs[0].f) then 1 else 0) + StartsIn(evs[1..])
  }

  /** The receiver's state after the events and its last outcome; fr[i] is our next fragment. */
  function Play<Q>(cr: Config<Q>, st: RxState<Q>, fr: seq<seq<Byte>>, i: nat, evs: seq<Event>, last: Outcome)
    : (RxState<Q>, Outcome)
    requires Ready(cr, st) && i + OursIn(evs) <= |fr|
    decreases |evs|
  {
    if evs == [] then (st, last) else
      match evs[0]
      case Ours(x) => var r := Rx(cr, st, fr[i], x); Play(cr, r.0, fr, i + 1, evs[1..], r.1)
      case Other(f, x) => var r := Rx(cr, st, f, x); Play(cr, r.0, fr, i, evs[1..], r.1)
  }

  /** Everything arrives within two seconds of t0, and frames of others are foreign. */
  ghost predicate WithinTime(evs: seq<Event>, m: Sent, t0: nat, hz: nat) {
    forall j {:trigger evs[j]} :: 0 <= j < |evs| ==>
        t0 <= evs[j].x.now <= t0 + 2 * hz && (evs[j].Other? ==> Foreign(evs[j].f, m))
  }

  ghost predicate AllOnAir<K(!new)>(cipher: Option<Cipher<K>>, m: Sent, fr: seq<seq<Byte>>)
    requires |m.chunks| <= MAX_NUM_FRAGS
  {
    |fr| == |m.chunks| && forall i {:trigger fr[i]} :: 0 <= i < |fr| ==> OnAir(cipher, m, i, fr[i])
  }

  /** What the MSDU is handed up as. */
  function Result(m: Sent): Outcome {
    Delivered(Ethernet(m.s.a1, m.s.a2, Joined(m.chunks)))
  }

  /** What the receiver does with the MSDU that f completes. */
  function Final<K, Q>(cr: Config<Q>, cipher: Option<Cipher<K>>, m: Sent, f: seq<Byte>, x: Context): Outcome
    requires |f| >= HDR_LEN && |cr.keys| == 4
  {
    if Refuses(cr, cipher, f, x) then Dropped else Result(m)
  }

  ghost predicate FitTogether<K(!new), Q(!new)>(cr: Config<Q>, cipher: Option<Cipher<K>>, m: Sent) {
    Receive.ValidConfig(cr) && cr.mode == Adhoc && cr.bssid == m.s.a3 && KeysAgree(cr, cipher) &&
      ValidSent(m, cipher.Some?) &&
    HDR_LEN + |Joined(m.chunks)| <= cr.lim.capacity
  }

  lemma GotFits(m: Sent, i: nat)
    requires 0 < i <= |m.chunks| <= MAX_NUM_FRAGS
    ensures |Got(m, i)| <= HDR_LEN + |Joined(m.chunks)|
  {
    GotJoined(m, i);
    JoinedPrefix(m.chunks, i);
  }

  /** Without a check of whole MSDUs, ours is handed up as it is. */
  lemma HandedUp<Q(!new)>(cr: Config<Q>, st: RxState<Q>, m: Sent, f: seq<Byte>, x: Context)
    requires Ready(cr, st) && |f| >= HDR_LEN && HdrLen(f) == HDR_LEN && 0 < |m.chunks| <= MAX_NUM_FRAGS
    requires Protected(f) ==> KeyFor(cr, f, x).Some? && KeyFor(cr, f, x).value.check.None?
    ensures Finished(cr, st, f, Addresses(m.s.a1, m.s.a2, m.s.a3), Got(m, |m.chunks|), x).1
         == if Unprotected(cr, KeyFor(cr, f, x), f, Got(m, |m.chunks|)) then Dropped else Result(m)
  {
    GotJoined(m, |m.chunks|);
    assert m.chunks[..|m.chunks|] == m.chunks;
  }

  /** The state in which the MSDU that fragment i completes is checked. */
  function BeforeLast<Q>(cr: Config<Q>, st: RxState<Q>, i: nat, m: Sent, f: seq<Byte>, x: Context): RxState<Q>
    requires Ready(cr, st) && |f| >= HDR_LEN && Whole(f) && i < |m.chunks| <= MAX_NUM_FRAGS && Whole(PlainAt(m, i))
  {
    var t := DuplicateStep(cr, st, f, x).1;
    t.(priv := Clear(cr, t.priv, f, x).0, cache := Assembled(t.cache, f, PlainAt(m, i), cr.lim, x).0)
  }

  /** Our next fragment continues the MSDU, or completes it. */
  lemma OursStep<K(!new), Q(!new)>(cr: Config<Q>, cipher: Option<Cipher<K>>, m: Sent, i: nat, z: nat, starts: nat,
                 t0: nat, f: seq<Byte>, st: RxState<Q>, x: Context)
    requires FitTogether(cr, cipher, m) && 0 < i < |m.chunks| && OnAir(cipher, m, i, f)
    requires Kept(st.cache, m, i, z, starts, t0, cr.lim.hz) && Passes(st.ibss, m, i) && |st.priv| == 4 &&
             t0 <= x.now <= t0 + 2 * cr.lim.hz
    ensures var r := Rx(cr, st, f, x);
            if i + 1 < |m.chunks| then r.1 == Pending && Kept(r.0.cache, m, i + 1, z, starts, t0, cr.lim.hz) &&
              Passes(r.0.ibss, m, i + 1)
            else |f| >= HDR_LEN && r.1 == Final(cr, cipher, m, f, x)
  {
    Opened(cr, cipher, m, i, f, x);
    OursPasses(cr, m, cipher.Some?, i, f, st, x);
    OursAccepted(cr, cipher, m, i, f, st, x);
    PlainFields(m, cipher.Some?, i, f);
    PlainFields(m, cipher.Some?, i, PlainAt(m, i));
    FragByteIs(i);
    GotFits(m, i + 1);
    OursArrives(st.cache, m, cipher.Some?, i, z, starts, t0, cr.lim, x.now, x.mem);
    if i + 1 == |m.chunks| {
      HandedUp(cr, BeforeLast(cr, st, i, m, f, x), m, f, x);
    }
  }

  lemma FirstStep<K(!new), Q(!new)>(cr: Config<Q>, cipher: Option<Cipher<K>>, m: Sent, f: seq<Byte>, st: RxState<Q>,
                  x: Context)
    requires FitTogether(cr, cipher, m) && OnAir(cipher, m, 0, f) && Fresh(st, m, x.now, cr.lim.hz) && x.mem
    ensures var r := Rx(cr, st, f, x);
            if 1 < |m.chunks| then r.1 == Pending && Kept(r.0.cache, m, 1, st.cache.next, 0, x.now, cr.lim.hz) &&
              Passes(r.0.ibss, m, 1)
            else |f| >= HDR_LEN && r.1 == Final(cr, cipher, m, f, x)
  {
    Opened(cr, cipher, m, 0, f, x);
    FirstPasses(cr, m, cipher.Some?, f, st, x);
    OursAccepted(cr, cipher, m, 0, f, st, x);
    PlainFields(m, cipher.Some?, 0, f);
    PlainFields(m, cipher.Some?, 0, PlainAt(m, 0));
    FragByteIs(0);
    GotFits(m, 1);
    if 1 < |m.chunks| {
      FirstArrives(st.cache, m, cipher.Some?, cr.lim, x.now);
    } else {
      HandedUp(cr, BeforeLast(cr, st, 0, m, f, x), m, f, x);
    }
  }

  /** What is left of the run still completes the MSDU, of which i fragments are there. */
  ghost predicate Remaining<K(!new), Q(!new)>(cr: Config<Q>, cipher: Option<Cipher<K>>, m: Sent, fr: seq<seq<Byte>>,
                            i: nat, z: nat, starts: nat, t0: nat, st: RxState<Q>, evs: seq<Event>) {
    FitTogether(cr, cipher, m) && 0 < i < |m.chunks| && AllOnAir(cipher, m, fr) &&
    Kept(st.cache, m, i, z, starts, t0, cr.lim.hz) && Passes(st.ibss, m, i) && |st.priv| == 4 &&
    WithinTime(evs, m, t0, cr.lim.hz) &&
    evs != [] && evs[|evs| - 1].Ours? && i + OursIn(evs) == |fr| && starts + StartsIn(evs) < CACHE_LEN
  }

  lemma AfterOurs<K(!new), Q(!new)>(cr: Config<Q>, cipher: Option<Cipher<K>>, m: Sent, fr: seq<seq<Byte>>, i: nat,
                  z: nat, starts: nat, t0: nat, st: RxState<Q>, evs: seq<Event>)
    requires Remaining(cr, cipher, m, fr, i, z, starts, t0, st, evs) && evs[0].Ours?
    ensures var r := Rx(cr, st, fr[i], evs[0].x);
            if i + 1 < |m.chunks| then Remaining(cr, cipher, m, fr, i + 1, z, starts, t0, r.0, evs[1..])
            else evs[1..] == [] && |fr[i]| >= HDR_LEN && r.1 == Final(cr, cipher, m, fr[i], evs[0].x)
  {
    OursStep(cr, cipher, m, i, z, starts, t0, fr[i], st, evs[0].x);
    StillRemaining(cr, cipher, m, fr, i, z, starts, t0, st, evs, Rx(cr, st, fr[i], evs[0].x).0);
  }

  lemma StillRemaining<K(!new), Q(!new)>(cr: Config<Q>, cipher: Option<Cipher<K>>, m: Sent, fr: seq<seq<Byte>>, i: nat,
                       z: nat, starts: nat, t0: nat, st: RxState<Q>, evs: seq<Event>, r: RxState<Q>)
    requires Remaining(cr, cipher, m, fr, i, z, starts, t0, st, evs) && evs[0].Ours?
    ensures i + 1 == |m.chunks| ==> evs[1..] == []
    ensures i + 1 < |m.chunks| && Kept(r.cache, m, i + 1, z, starts, t0, cr.lim.hz) && Passes(r.ibss, m, i + 1) &&
            |r.priv| == 4 ==>
              Remaining(cr, cipher, m, fr, i + 1, z, starts, t0, r, evs[1..])
  {
    RestWithinTime(evs, m, t0, cr.lim.hz);
    var rest := evs[1..];
    assert OursIn(rest) == |m.chunks| - i - 1;
    if i + 1 == |m.chunks| {
      NoneLeft(rest);
    } else {
      assert rest != [] && rest[|rest| - 1] == evs[|evs| - 1];
    }
  }

  lemma AfterOther<K(!new), Q(!new)>(cr: Config<Q>, cipher: Option<Cipher<K>>, m: Sent, fr: seq<seq<Byte>>, i: nat,
                   z: nat, starts: nat, t0: nat, st: RxState<Q>, evs: seq<Event>)
    requires Remaining(cr, cipher, m, fr, i, z, starts, t0, st, evs) && evs[0].Other?
    ensures var r := Rx(cr, st, evs[0].f, evs[0].x).0;
            Remaining(cr, cipher, m, fr, i, z, starts, t0, r, evs[1..]) ||
            Remaining(cr, cipher, m, fr, i, z, starts + 1, t0, r, evs[1..])
  {
    RestWithinTime(evs, m, t0, cr.lim.hz);
    ForeignStep(cr, m, i, z, starts, t0, evs[0].f, st, evs[0].x);
  }

  lemma {:induction false} Continues<K(!new), Q(!new)>(cr: Config<Q>, cipher: Option<Cipher<K>>, m: Sent,
                                     fr: seq<seq<Byte>>, i: nat, z: nat, starts: nat, t0: nat, st: RxState<Q>,
                                     evs: seq<Event>, last: Outcome)
    requires Remaining(cr, cipher, m, fr, i, z, starts, t0, st, evs)
    ensures |fr[|fr| - 1]| >= HDR_LEN &&
            Play(cr, st, fr, i, evs, last).1 == Final(cr, cipher, m, fr[|fr| - 1], evs[|evs| - 1].x)
    decreases |evs|
  {
    match evs[0]
    case Ours(x) =>
      AfterOurs(cr, cipher, m, fr, i, z, starts, t0, st, evs);
      var r := Rx(cr, st, fr[i], x);
      if i + 1 < |m.chunks| {
        Continues(cr, cipher, m, fr, i + 1, z, starts, t0, r.0, evs[1..], r.1);
      }
    case Other(f, x) =>
      AfterOther(cr, cipher, m, fr, i, z, starts, t0, st, evs);
      var r := Rx(cr, st, f, x);
      var s := if Remaining(cr, cipher, m, fr, i, z, starts, t0, r.0, evs[1..]) then starts else starts + 1;
      Continues(cr, cipher, m, fr, i, z, s, t0, r.0, evs[1..], r.1);
  }

  lemma {:induction false} NoneLeft(evs: seq<Event>)
    requires OursIn(evs) == 0 && (evs != [] ==> evs[|evs| - 1].Ours?)
    ensures evs == []
    decreases |evs|
  {
    if evs != [] {
      NoneLeft(evs[1..]);
    }
  }

  /** The fragments of an MSDU, with up to three other fragmented MSDUs starting in between, all within
      two seconds: with the last one the whole MSDU is handed up or turned down. */
  lemma MsduArrives<K(!new), Q(!new)>(cr: Config<Q>, cipher: Option<Cipher<K>>, m: Sent, fr: seq<seq<Byte>>,
                    st: RxState<Q>, evs: seq<Event>)
    requires FitTogether(cr, cipher, m) && AllOnAir(cipher, m, fr)
    requires evs != [] && evs[0].Ours? && evs[0].x.mem && evs[|evs| - 1].Ours? && OursIn(evs) == |fr|
    requires Fresh(st, m, evs[0].x.now, cr.lim.hz) && WithinTime(evs, m, evs[0].x.now, cr.lim.hz) &&
             StartsIn(evs) < CACHE_LEN
    ensures |fr[|fr| - 1]| >= HDR_LEN &&
            Play(cr, st, fr, 0, evs, Pending).1 == Final(cr, cipher, m, fr[|fr| - 1], evs[|evs| - 1].x)
  {
    AfterFirst(cr, cipher, m, fr, st, evs);
    var r := Rx(cr, st, fr[0], evs[0].x);
    if 1 < |m.chunks| {
      Continues(cr, cipher, m, fr, 1, st.cache.next, 0, evs[0].x.now, r.0, evs[1..], r.1);
    }
  }

  lemma AfterFirst<K(!new), Q(!new)>(cr: Config<Q>, cipher: Option<Cipher<K>>, m: Sent, fr: seq<seq<Byte>>,
                   st: RxState<Q>, evs: seq<Event>)
    requires FitTogether(cr, cipher, m) && AllOnAir(cipher, m, fr)
    requires evs != [] && evs[0].Ours? && evs[0].x.mem && evs[|evs| - 1].Ours? && OursIn(evs) == |fr|
    requires Fresh(st, m, evs[0].x.now, cr.lim.hz) && WithinTime(evs, m, evs[0].x.now, cr.lim.hz) &&
             StartsIn(evs) < CACHE_LEN
    ensures var r := Rx(cr, st, fr[0], evs[0].x);
            if 1 < |m.chunks| then Remaining(cr, cipher, m, fr, 1, st.cache.next, 0, evs[0].x.now, r.0, evs[1..])
            else evs[1..] == [] && |fr[0]| >= HDR_LEN && r.1 == Final(cr, cipher, m, fr[0], evs[0].x)
  {
    var x, rest := evs[0].x, evs[1..];
    FirstStep(cr, cipher, m, fr[0], st, x);
    RestWithinTime(evs, m, x.now, cr.lim.hz);
    if 1 < |m.chunks| {
      assert rest != [];
    } else {
      NoneLeft(rest);
    }
  }

  lemma RestWithinTime(evs: seq<Event>, m: Sent, t0: nat, hz: nat)
    requires evs != [] && WithinTime(evs, m, t0, hz)
    ensures WithinTime(evs[1..], m, t0, hz)
  {
    var rest := evs[1..];
    assert forall j {:trigger rest[j]} :: 0 <= j < |rest| ==> rest[j] == evs[j + 1];
  }

  lemma {:induction false} FramesOnAir<K(!new)>(c: Option<Cipher<K>>, k: K, m: Sent, i: nat, j: nat)
    requires i <= j < |m.chunks| <= MAX_NUM_FRAGS
    ensures OnAir(c, m, j, Frames(c, k, m.s, m.chunks, i).1[j - i])
    decreases j - i
  {
    var q := SealOne(c, k, PlainAt(m, i));
    if i < j {
      FramesOnAir(c, q.0, m, i + 1, j);
    }
  }

  /** Every Ethernet frame of up to 1500 payload bytes that ieee80211_xmit sends in ad-hoc mode, cut and
      encrypted however the sender is configured, comes out of the receiver byte for byte, unless it was sent
      in the clear and the receiver has a key under the index that the last fragment seems to name. */
  lemma EndToEnd<K(!new), Q(!new)>(cs: Transmit.Config<K>, cr: Config<Q>, k: K, s: Seq12, e: seq<Byte>, st: RxState<Q>,
                   evs: seq<Event>)
    requires 14 <= |e| <= 1514 && Agree(cs, cr, e[12..14]) && |Transmit.PiecesOf(cs, e)| <= MAX_NUM_FRAGS
    requires var fr := Transmit.FramesOf(cs, k, s, e).1;
             evs != [] && evs[0].Ours? && evs[0].x.mem && evs[|evs| - 1].Ours? && OursIn(evs) == |fr|
    requires var m := SentOf(cs, e, s);
             Fresh(st, m, evs[0].x.now, cr.lim.hz) && WithinTime(evs, m, evs[0].x.now, cr.lim.hz) &&
               StartsIn(evs) < CACHE_LEN
    ensures var fr := Transmit.FramesOf(cs, k, s, e).1;
            var f, x := fr[|fr| - 1], evs[|evs| - 1].x;
            |f| >= HDR_LEN && Play(cr, st, fr, 0, evs, Pending).1 ==
            if Refuses(cr, Transmit.CipherFor(cs, e[12..14]), f, x) then Dropped else Delivered(e)
  {
    var c := Transmit.CipherFor(cs, e[12..14]);
    var m := SentOf(cs, e, s);
    SentFits(cs, cr, e, s);
    FramesOnAirAll(c, k, m);
    MsduArrives(cr, c, m, Transmit.FramesOf(cs, k, s, e).1, st, evs);
  }

  /** The MSDU of an Ethernet frame. */
  function SentOf<K>(cs: Transmit.Config<K>, e: seq<Byte>, s: Seq12): Sent
    requires |e| >= 14
  {
    Sent(Transmit.MsduFor(cs, e[..6], e[6..12], Transmit.CipherFor(cs, e[12..14]).Some?, s), Transmit.PiecesOf(cs, e))
  }

  lemma SentFits<K(!new), Q(!new)>(cs: Transmit.Config<K>, cr: Config<Q>, e: seq<Byte>, s: Seq12)
    requires 14 <= |e| <= 1514 && Agree(cs, cr, e[12..14])
    ensures FitTogether(cr, Transmit.CipherFor(cs, e[12..14]), SentOf(cs, e, s)) &&
            Result(SentOf(cs, e, s)) == Delivered(e)
  {
    var t := e[12..14];
    var body := Snap(t) + e[14..];
    var over := Transmit.Overhead(Transmit.CipherFor(cs, t));
    FitsPool(body, Transmit.FragSize(cs, e[..6]), cs.fcs, over);
    ChunksJoined(body, PerFragment(Transmit.FragSize(cs, e[..6]), cs.fcs, over));
    EncapsulationUndone(e[..6], e[6..12], t, e[14..]);
    assert e[..6] + e[6..12] + t + e[14..] == e;
  }

  lemma FramesOnAirAll<K(!new)>(c: Option<Cipher<K>>, k: K, m: Sent)
    requires |m.chunks| <= MAX_NUM_FRAGS
    ensures AllOnAir(c, m, Frames(c, k, m.s, m.chunks, 0).1)
  {
    var fr := Frames(c, k, m.s, m.chunks, 0).1;
    forall i | 0 <= i < |fr| ensures OnAir(c, m, i, fr[i]) {
      FramesOnAir(c, k, m, 0, i);
    }
  }

  // ---- Frames in the clear ----

  /** The last fragment of an MSDU in the clear. */
  function LastClear(m: Sent): seq<Byte>
    requires 0 < |m.chunks| <= MAX_NUM_FRAGS
  {
    PlainAt(m, |m.chunks| - 1)
  }

  /** A frame sent in the clear is delivered exactly when the receiver does not decrypt, or accepts frames in
      the clear, or has no key under the index read from the last fragment's fourth payload byte. */
  lemma ClearDeliveredIff<K(!new), Q(!new)>(cs: Transmit.Config<K>, cr: Config<Q>, k: K, s: Seq12, e: seq<Byte>,
                          st: RxState<Q>, evs: seq<Event>)
    requires 14 <= |e| <= 1514 && Agree(cs, cr, e[12..14]) && |Transmit.PiecesOf(cs, e)| <= MAX_NUM_FRAGS
    requires Transmit.CipherFor(cs, e[12..14]).None?
    requires evs != [] && evs[0].Ours? && evs[0].x.mem && evs[|evs| - 1].Ours?
    requires OursIn(evs) == |Transmit.FramesOf(cs, k, s, e).1|
    requires var m := SentOf(cs, e, s);
             Fresh(st, m, evs[0].x.now, cr.lim.hz) && WithinTime(evs, m, evs[0].x.now, cr.lim.hz) &&
               StartsIn(evs) < CACHE_LEN
    ensures var idx := KeyIndex(LastClear(SentOf(cs, e, s)), evs[|evs| - 1].x.behind);
            var out := Play(cr, st, Transmit.FramesOf(cs, k, s, e).1, 0, evs, Pending).1;
            (out == Delivered(e) <==> !cr.hostDecrypt || cr.openWep || cr.keys[idx].None?) &&
              (out == Delivered(e) || out == Dropped)
  {
    var m, fr := SentOf(cs, e, s), Transmit.FramesOf(cs, k, s, e).1;
    EndToEnd(cs, cr, k, s, e, st, evs);
    FramesOnAirAll(None, k, m);
    assert OnAir<K>(None, m, |fr| - 1, fr[|fr| - 1]);
  }

  /** The fourth byte behind the header of an MSDU in one fragment is that of the SNAP header. */
  lemma SingleKeyIndex(m: Sent, t: seq<Byte>, data: seq<Byte>, behind: Byte)
    requires ValidSent(m, false) && |t| == 2 && m.chunks == [Snap(t) + data]
    ensures KeyIndex(LastClear(m), behind) == 0
  {
    PlainFields(m, false, 0, PlainAt(m, 0));
    var f := PlainAt(m, 0) + [behind];
    assert f[HDR_LEN + 3] == (Snap(t) + data)[3] == Snap(t)[3];
  }

  /** With 802.1X the sender leaves EAPOL frames in the clear even if it has a cipher. A receiver with a key
      in its first place drops every one of them that needs only one fragment, whatever it received before. */
  lemma EapolDropped<K(!new), Q(!new)>(cs: Transmit.Config<K>, cr: Config<Q>, k: K, s: Seq12, e: seq<Byte>,
                     st: RxState<Q>, x: Context)
    requires 14 <= |e| <= 1514 && Agree(cs, cr, e[12..14]) && |Transmit.PiecesOf(cs, e)| == 1
    requires cs.ieee8021x && e[12..14] == Transmit.ETH_P_PAE && cr.hostDecrypt && !cr.openWep && cr.keys[0].Some?
    requires Ready(cr, st)
    ensures Rx(cr, st, Transmit.FramesOf(cs, k, s, e).1[0], x).1 == Dropped
  {
    var m, f := SentOf(cs, e, s), Transmit.FramesOf(cs, k, s, e).1[0];
    SentFits(cs, cr, e, s);
    FramesOnAirAll(None, k, m);
    SinglePiece(cs, e);
    SingleKeyIndex(m, e[12..14], e[14..], x.behind);
    PlainFields(m, false, 0, f);
    if !DuplicateStep(cr, st, f, x).0 {
      OursAccepted<K, Q>(cr, None, m, 0, f, st, x);
      FragByteIs(0);
    }
  }

  lemma SinglePiece<K>(cs: Transmit.Config<K>, e: seq<Byte>)
    requires |e| >= 14 && |Transmit.PiecesOf(cs, e)| == 1
    ensures Transmit.PiecesOf(cs, e) == [Snap(e[12..14]) + e[14..]]
  {
  }
}
