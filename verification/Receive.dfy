/** ieee80211/ieee80211_rx.c: ieee80211_rx, from a received 802.11 frame to an Ethernet frame. */
module Receive {
  import opened Bytes
  import opened Options
  import opened Dot11
  import opened Reassembly

  // ---- Duplicate detection ----

  /** The last accepted frame of a sender. */
  datatype Seen = Seen(seqNo: (Byte, Byte), frag: Byte, time: nat)

  function SeenOf(f: seq<Byte>, now: nat): Seen
    requires |f| >= HDR_LEN
  {
    Seen(SeqOf(f), FragOf(f), now)
  }

  /** The same sequence number within five seconds, and not the next fragment. */
  predicate Repeats(s: Seen, f: seq<Byte>, now: nat, hz: nat)
    requires |f| >= HDR_LEN
  {
    s.seqNo == SeqOf(f) && s.time + 5 * hz > now && s.frag + 1 != FragOf(f)
  }

  // ---- Addresses and protocols ----

  predicate Control(f: seq<Byte>) requires |f| >= 2 { f[0] & 0x0c == 0x04 }

  predicate IsManagement(f: seq<Byte>) requires |f| >= 2 { f[0] & 0x0c == 0x00 }

  /** Data, alone or with an acknowledgement or a poll. */
  predicate CarriesData(f: seq<Byte>) requires |f| >= 2 { f[0] & 0xc0 == 0 }

  datatype Addresses = Addresses(dst: Mac, src: Mac, bssid: Mac)

  function AddressesOf(f: seq<Byte>, bssid: Mac): Addresses
    requires |f| >= HDR_LEN && (FourAddresses(f) ==> |f| >= 30)
  {
    Addresses(DstOf(f), SrcOf(f),
              if FourAddresses(f) then bssid else if f[1] & FROMDS != 0 then Addr2(f) else if f[1] & TODS != 0
                then Addr1(f) else Addr3(f))
  }

  /** ieee80211_is_eapol_frame. */
  predicate IsEapol(m: seq<Byte>, own: Mac) {
    |m| >= HDR_LEN + 8 && m[30..32] == [0x88, 0x8e] &&
    ((m[1] & 0x03 == TODS && Addr1(m) == own && Addr3(m) == own) || (m[1] & 0x03 == FROMDS && Addr1(m) == own))
  }

  // ---- The receiver ----

  /** Works on a frame with a header of the given length, and on what is kept with the key. */
  type Handler<!Q> = (Q, nat, seq<Byte>) -> (Q, Option<seq<Byte>>)

  /** The handlers of a key: open, decrypt_mpdu, decrypts each frame; check, decrypt_msdu, is called for each
      whole MSDU. */
  datatype Handlers<!Q> = Handlers(open: Handler<Q>, check: Option<Handler<Q>>)

  datatype Config<!Q> = Config(mode: Mode, bssid: Mac, own: Mac, hostDecrypt: bool, openWep: bool,
                               keys: seq<Option<Handlers<Q>>>, lim: Limits)

  /** Decryption leaves the header and nothing in front of it. */
  ghost predicate KeepsHeader<Q(!new)>(o: Handler<Q>) {
    forall q, h: nat, f {:trigger o(q, h, f)} :: h <= |f| && o(q, h, f).1.Some? ==>
        |o(q, h, f).1.value| >= h && o(q, h, f).1.value[..h] == f[..h]
  }

  ghost predicate ValidConfig<Q(!new)>(c: Config<Q>) {
    |c.keys| == 4 &&
    forall i {:trigger c.keys[i]} :: 0 <= i < 4 && c.keys[i].Some? ==> KeepsHeader(c.keys[i].value.open)
  }

  /** The last frames, the fragment cache, and what is kept with each key. */
  datatype RxState<Q> = RxState(ibss: map<Mac, Seen>, infra: Seen, cache: State, priv: seq<Q>)

  predicate Ready<Q>(c: Config<Q>, st: RxState<Q>) {
    |c.keys| == 4 && |st.priv| == 4 && st.cache.next < CACHE_LEN
  }

  /** What surrounds a frame: the time, the byte behind it in memory, and whether there is memory for a
      sender's record and for a reassembly buffer. */
  datatype Context = Context(now: nat, behind: Byte, memSeen: bool, mem: bool)

  /** Garbled: fragments with headers of different lengths, whose remains are handed up. */
  datatype Outcome = Dropped | Management | Pending | Delivered(frame: seq<Byte>) | Garbled

  /** is_duplicate_packet: the verdict, and the records afterwards. */
  function DuplicateStep<Q>(c: Config<Q>, st: RxState<Q>, f: seq<Byte>, x: Context): (r: (bool, RxState<Q>))
    requires |f| >= HDR_LEN
    ensures r.1.cache == st.cache && r.1.priv == st.priv
  {
    var seen := SeenOf(f, x.now);
    match c.mode
    case OtherMode => (false, st)
    case Infra =>
      if Repeats(st.infra, f, x.now, c.lim.hz) then (true, st) else (false, st.(infra := seen))
    case Adhoc =>
      if Addr2(f) !in st.ibss then (false, if x.memSeen then st.(ibss := st.ibss[Addr2(f) := seen]) else st)
      else if Repeats(st.ibss[Addr2(f)], f, x.now, c.lim.hz) then (true, st)
      else (false, st.(ibss := st.ibss[Addr2(f) := seen]))
  }

  /** The key a frame asks for: the top bits of the fourth byte behind the header. */
  function KeyIndex(f: seq<Byte>, behind: Byte): (i: nat)
    requires |f| >= 2
    ensures i < 4
  {
    if |f| >= HdrLen(f) + 3 then TopBits((f + [behind])[HdrLen(f) + 3]) else 0
  }

  function TopBits(b: Byte): (i: nat)
    ensures i < 4
  {
    if b >> 6 == 0 then 0 else if b >> 6 == 1 then 1 else if b >> 6 == 2 then 2 else 3
  }

  function KeyFor<Q>(c: Config<Q>, f: seq<Byte>, x: Context): Option<Handlers<Q>>
    requires |f| >= 2 && |c.keys| == 4
  {
    if c.hostDecrypt then c.keys[KeyIndex(f, x.behind)] else None
  }

  /** ieee80211_rx_frame_decrypt: what is kept with the keys afterwards, and the frame in the clear. */
  function Clear<Q>(c: Config<Q>, priv: seq<Q>, f: seq<Byte>, x: Context): (r: (seq<Q>, Option<seq<Byte>>))
    requires Whole(f) && |c.keys| == |priv| == 4
    ensures |r.0| == 4
  {
    var i, key := KeyIndex(f, x.behind), KeyFor(c, f, x);
    if Protected(f) && key.Some? then
      var r := key.value.open(priv[i], HdrLen(f), f);
      (priv[i := r.0], r.1)
    else (priv, Some(f))
  }

  /** ieee80211_rx_frame_decrypt_msdu for the MSDU m that the frame f completed. */
  function Checked<Q>(c: Config<Q>, priv: seq<Q>, f: seq<Byte>, m: seq<Byte>, x: Context)
    : (r: (seq<Q>, Option<seq<Byte>>))
    requires |f| >= 2 && |c.keys| == |priv| == 4
    ensures |r.0| == 4
  {
    var i, key := KeyIndex(f, x.behind), KeyFor(c, f, x);
    if Protected(f) && key.Some? && key.value.check.Some? && Whole(m) then
      var r := key.value.check.value(priv[i], HdrLen(m), m);
      (priv[i := r.0], r.1)
    else (priv, Some(m))
  }

  /** An unencrypted MSDU although there is a key for it. */
  predicate Unprotected<Q>(c: Config<Q>, key: Option<Handlers<Q>>, f: seq<Byte>, m: seq<Byte>)
    requires |f| >= 2
  {
    key.Some? && !Protected(f) && !c.openWep && !IsEapol(m, c.own)
  }

  /** The Ethernet frame of an MSDU m that the frame f completed. */
  function Decapsulate<Q>(c: Config<Q>, key: Option<Handlers<Q>>, f: seq<Byte>, a: Addresses, m: seq<Byte>): Outcome
    requires |f| >= 2
  {
    if Unprotected(c, key, f, m) then Dropped
    else if |m| < HdrLen(f) then Garbled
    else Delivered(Ethernet(a.dst, a.src, m[HdrLen(f)..]))
  }

  /** The MSDU m, which f completed, is checked and handed up. */
  function Finished<Q>(c: Config<Q>, st: RxState<Q>, f: seq<Byte>, a: Addresses, m: seq<Byte>, x: Context)
    : (r: (RxState<Q>, Outcome))
    requires |f| >= 2 && |c.keys| == |st.priv| == 4
    ensures |r.0.priv| == 4 && r.0.cache == st.cache && r.0.ibss == st.ibss
  {
    var r := Checked(c, st.priv, f, m, x);
    (st.(priv := r.0),
     match r.1 case None => Dropped case Some(n) => Decapsulate(c, KeyFor(c, f, x), f, a, n))
  }

  /** The cache after the frame g, which is f in the clear, and whether it completes an MSDU. */
  function Assembled(cache: State, f: seq<Byte>, g: seq<Byte>, lim: Limits, x: Context): (r: (State, Reply))
    requires Whole(f) && Whole(g) && cache.next < CACHE_LEN
    ensures r.0.next < CACHE_LEN
  {
    if FragOf(f) != 0 || More(f) then Arrive(cache, g, x.now, lim, x.mem) else (cache, Complete(g))
  }

  /** From the frame g, which is f in the clear, on. */
  function Reassembling<Q>(c: Config<Q>, st: RxState<Q>, f: seq<Byte>, a: Addresses, g: seq<Byte>, x: Context)
    : (r: (RxState<Q>, Outcome))
    requires Whole(f) && Whole(g) && Ready(c, st)
    ensures Ready(c, r.0) && r.0.ibss == st.ibss && r.0.cache == Assembled(st.cache, f, g, c.lim, x).0
  {
    var s := Assembled(st.cache, f, g, c.lim, x);
    match s.1
    case Rejected => (st.(cache := s.0), Dropped)
    case Waiting => (st.(cache := s.0), Pending)
    case Complete(m) => Finished(c, st.(cache := s.0), f, a, m, x)
  }

  /** ieee80211_rx, behind the duplicate detection. */
  function Accepted<Q>(c: Config<Q>, st: RxState<Q>, f: seq<Byte>, x: Context): (r: (RxState<Q>, Outcome))
    requires Ready(c, st) && |f| >= HDR_LEN
    ensures Ready(c, r.0) && r.0.ibss == st.ibss
  {
    if IsManagement(f) then (st, Management)
    else if FourAddresses(f) && |f| < 30 then (st, Dropped)
    else if !CarriesData(f) || AddressesOf(f, c.bssid).bssid != c.bssid then (st, Dropped)
    else
      var r := Clear(c, st.priv, f, x);
      var t := st.(priv := r.0);
      if r.1.None? || !Whole(r.1.value) then (t, Dropped)
      else Reassembling(c, t, f, AddressesOf(f, c.bssid), r.1.value, x)
  }

  /** ieee80211_rx. */
  function Rx<Q>(c: Config<Q>, st: RxState<Q>, f: seq<Byte>, x: Context): (r: (RxState<Q>, Outcome))
    requires Ready(c, st)
    ensures Ready(c, r.0)
  {
    if |f| < 10 || (c.hostDecrypt && KeyFor(c, f, x).None? && Protected(f)) || |f| < HDR_LEN then (st, Dropped)
    else
      var d := DuplicateStep(c, st, f, x);
      if d.0 then (st, Dropped) else Accepted(c, d.1, f, x)
  }

  // ---- The same in place ----

  class Receiver<!Q(!new)> {
    const config: Config<Q>
    const frags: FragCache
    var ibss: map<Mac, Seen>
    var infra: Seen
    var priv: seq<Q>

    constructor (config: Config<Q>, priv: seq<Q>)
      requires ValidConfig(config) && |priv| == 4
      ensures Valid() && fresh(frags) && fresh(frags.cache) && this.config == config && this.priv == priv
      ensures ibss == map[] && frags.Contents() == EMPTY_CACHE
    {
      this.config, this.priv := config, priv;
      frags := new FragCache(config.lim);
      ibss, infra := map[], Seen((0, 0), 0, 0);
    }

    ghost predicate Valid()
      reads this, frags
    {
      |config.keys| == |priv| == 4 && frags.Valid() && frags.lim == config.lim
    }

    ghost function View(): (st: RxState<Q>)
      requires Valid()
      reads this, frags, frags.cache
      ensures Ready(config, st)
    {
      RxState(ibss, infra, frags.Contents(), priv)
    }

    /** is_duplicate_packet. */
    method IsDuplicate(f: seq<Byte>, x: Context) returns (dup: bool)
      requires Valid() && |f| >= HDR_LEN
      modifies `ibss, `infra
      ensures Valid() && (dup, View()) == DuplicateStep(config, old(View()), f, x)
    {
      var s, hz := SeenOf(f, x.now), config.lim.hz;
      var last: Seen;
      match config.mode {
        case OtherMode =>
          return false;
        case Infra =>
          last := infra;
        case Adhoc =>
          if Addr2(f) !in ibss {
            if x.memSeen {
              ibss := ibss[Addr2(f) := s];
            }
            return false;
          }
          last := ibss[Addr2(f)];
      }
      if last.seqNo == s.seqNo && last.time + 5 * hz > x.now {
        if last.frag == s.frag {
          return true;
        }
        if last.frag + 1 != s.frag {
          return true;
        }
      }
      if config.mode.Infra? {
        infra := s;
      } else {
        ibss := ibss[Addr2(f) := s];
      }
      return false;
    }

    /** ieee80211_rx_frame_decrypt. */
    method FrameDecrypt(f: seq<Byte>, key: Option<Handlers<Q>>, x: Context) returns (g: Option<seq<Byte>>)
      requires Valid() && Whole(f) && key == KeyFor(config, f, x)
      modifies `priv
      ensures Valid() && (priv, g) == Clear(config, old(priv), f, x)
    {
      if !Protected(f) || key.None? {
        return Some(f);
      }
      var i := KeyIndex(f, x.behind);
      var r := key.value.open(priv[i], HdrLen(f), f);
      priv, g := priv[i := r.0], r.1;
    }

    /** ieee80211_rx_frame_decrypt_msdu. */
    method FrameDecryptMsdu(f: seq<Byte>, key: Option<Handlers<Q>>, m: seq<Byte>, x: Context)
      returns (n: Option<seq<Byte>>)
      requires Valid() && Whole(f) && key == KeyFor(config, f, x)
      modifies `priv
      ensures Valid() && (priv, n) == Checked(config, old(priv), f, m, x)
    {
      if !Protected(f) || key.None? || key.value.check.None? || !Whole(m) {
        return Some(m);
      }
      var i := KeyIndex(f, x.behind);
      var r := key.value.check.value(priv[i], HdrLen(m), m);
      priv, n := priv[i := r.0], r.1;
    }

    /** ieee80211_rx from the complete MSDU on. */
    method HandUp(f: seq<Byte>, m: seq<Byte>, key: Option<Handlers<Q>>, a: Addresses, x: Context) returns (r: Outcome)
      requires Valid() && Whole(f) && key == KeyFor(config, f, x)
      modifies `priv
      ensures Valid() && (View(), r) == Finished(config, old(View()), f, a, m, x)
    {
      var n := FrameDecryptMsdu(f, key, m, x);
      if n.None? {
        return Dropped;
      }
      if key.Some? && !Protected(f) && !config.openWep && !IsEapol(n.value, config.own) {
        return Dropped;
      }
      var h := HdrLen(f);
      if |n.value| < h {
        return Garbled;
      }
      var p := n.value[h..];
      if |p| >= 8 &&
        ((p[..6] == RFC1042 && p[6..8] != [0x80, 0xf3] && p[6..8] != [0x81, 0x37]) || p[..6] == BRIDGE_TUNNEL) {
        return Delivered(a.dst + a.src + p[6..]);
      }
      return Delivered(a.dst + a.src + (LengthField(|p|) + p));
    }

    /** ieee80211_rx from the reassembly on. */
    method Finish(f: seq<Byte>, g: seq<Byte>, key: Option<Handlers<Q>>, a: Addresses, x: Context) returns (r: Outcome)
      requires Valid() && Whole(f) && Whole(g) && key == KeyFor(config, f, x)
      modifies `priv, frags, frags.cache
      ensures Valid() && (View(), r) == Reassembling(config, old(View()), f, a, g, x)
    {
      var m := g;
      if FragOf(f) != 0 || More(f) {
        var reply := frags.Reassemble(g, x.now, x.mem);
        match reply {
          case Rejected => return Dropped;
          case Waiting => return Pending;
          case Complete(msdu) => m := msdu;
        }
      }
      r := HandUp(f, m, key, a, x);
    }

    /** ieee80211_rx. */
    method Receive(f: seq<Byte>, x: Context) returns (r: Outcome)
      requires Valid()
      modifies this, frags, frags.cache
      ensures Valid() && (View(), r) == Rx(config, old(View()), f, x)
    {
      if |f| < 10 {
        return Dropped;
      }
      var key := None;
      if config.hostDecrypt {
        key := config.keys[KeyIndex(f, x.behind)];
        if key.None? && Protected(f) {
          return Dropped;
        }
      }
      if |f| < HDR_LEN {
        return Dropped;
      }
      var dup := IsDuplicate(f, x);
      if dup {
        return Dropped;
      }
      if IsManagement(f) {
        return Management;
      }
      if FourAddresses(f) && |f| < 30 {
        return Dropped;
      }
      var a := AddressesOf(f, config.bssid);
      if !CarriesData(f) || a.bssid != config.bssid {
        return Dropped;
      }
      var g := FrameDecrypt(f, key, x);
      if g.None? || !Whole(g.value) {
        return Dropped;
      }
      r := Finish(f, g.value, key, a, x);
    }
  }
}
