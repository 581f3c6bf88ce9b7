/** A run of ieee80211_rx (ieee80211/ieee80211_rx.c) that shows what invalidation by key, not by entry, can
    come to. */
module ReassemblyClash {
  import opened Bytes
  import opened Options
  import opened Dot11
  import opened Reassembly
  import opened ReassemblyProofs
  import opened Receive

  // ---- Frames in the clear ----

  /** Time passes between no two of the frames, and there is memory. */
  function Around(now: nat): Context { Context(now, 0, true, true) }

  /** A data frame in the clear, whole or a fragment, within the network, for which the receiver has no key or
      needs none. */
  predicate InTheClear<Q>(c: Config<Q>, f: seq<Byte>) {
    |f| >= HDR_LEN && f[0] == 0x08 && (f[1] == 0 || f[1] == MOREFRAGS) && Addr3(f) == c.bssid && |c.keys| == 4 &&
    (c.openWep || KeyFor(c, f, Around(0)).None?)
  }

  /** A receiver that looks for duplicates, and takes some frames in the clear: all of them, as the driver sets
      it up, or, if open_wep is off, those that ask for a key that is not there. */
  ghost predicate Listens<Q>(c: Config<Q>) {
    |c.keys| == 4 && c.mode != OtherMode &&
    (!c.hostDecrypt || c.openWep || exists i {:trigger c.keys[i]} :: 0 <= i < 4 && c.keys[i].None?)
  }

  /** The last frame recorded of the sender a. */
  function Recorded<Q>(c: Config<Q>, st: RxState<Q>, a: Mac): Option<Seen> {
    if c.mode == Infra then Some(st.infra) else if a in st.ibss then Some(st.ibss[a]) else None
  }

  function OutcomeOf(f: seq<Byte>, r: Reply): Outcome
    requires |f| >= HDR_LEN
  {
    match r
    case Rejected => Dropped
    case Waiting => Pending
    case Complete(m) => if |m| < HDR_LEN then Garbled else Delivered(Ethernet(Addr1(f), Addr2(f), m[HDR_LEN..]))
  }

  /** What ieee80211_rx does with a frame in the clear that is no duplicate. */
  lemma Step<Q(!new)>(c: Config<Q>, st: RxState<Q>, f: seq<Byte>, now: nat)
    requires Ready(c, st) && Listens(c) && InTheClear(c, f)
    requires Recorded(c, st, Addr2(f)).Some? ==> !Repeats(Recorded(c, st, Addr2(f)).value, f, now, c.lim.hz)
    ensures Whole(f) &&
            var q, s := Rx(c, st, f, Around(now)), Assembled(st.cache, f, f, c.lim, Around(now));
            q.0.cache == s.0 && Recorded(c, q.0, Addr2(f)) == Some(SeenOf(f, now)) && q.1 == OutcomeOf(f, s.1)
  {
    FlagsInTheClear(f[1]);
    assert !DuplicateStep(c, st, f, Around(now)).0;
    assert AddressesOf(f, c.bssid) == Addresses(Addr1(f), Addr2(f), Addr3(f));
  }

  /** Every other receiver turns down all frames in the clear but EAPOL frames. */
  lemma OthersAreDeaf<Q(!new)>(c: Config<Q>, st: RxState<Q>, f: seq<Byte>, x: Context)
    requires Ready(c, st) && c.mode != OtherMode && !Listens(c) && |f| >= HDR_LEN && !Protected(f)
    ensures Rx(c, st, f, x).1.Delivered? ==>
              Whole(f) && var r := Assembled(st.cache, f, f, c.lim, x).1; r.Complete? && IsEapol(r.msdu, c.own)
  {
    assert KeyFor(c, f, x).Some?;
  }

  lemma FlagsInTheClear(b: Byte)
    requires b == 0 || b == MOREFRAGS
    ensures b & 0x03 == 0 && b & PROTECTED == 0 && b & FROMDS == 0 && b & TODS == 0 && (b & MOREFRAGS != 0 <==> b != 0)
  {
  }

  // ---- The run ----

  /** Six fragments of one key: 0, 0 again, 1 and 2 with more to come, then a last 1 and a last 2; and two
      frames of the same sender with another sequence number, before the second 0 and before the last 1. */
  datatype Frames = Frames(a: seq<Byte>, o: seq<Byte>, b: seq<Byte>, c: seq<Byte>, d: seq<Byte>, p: seq<Byte>,
                           e: seq<Byte>, f: seq<Byte>)

  predicate Is(f: seq<Byte>, k: Key, frag: Byte, more: bool) {
    Whole(f) && KeyOf(f) == k && FragOf(f) == frag && More(f) == more
  }

  predicate Between(f: seq<Byte>, k: Key) {
    |f| >= HDR_LEN && Addr2(f) == k.src && SeqOf(f) != k.seqNo && FragOf(f) == 0 && !More(f)
  }

  ghost predicate Clashing<Q>(s: Frames, k: Key, c: Config<Q>) {
    Is(s.a, k, 0, true) && Is(s.b, k, 0, true) && Is(s.c, k, 1, true) && Is(s.d, k, 2, true) && Is(s.e, k, 1, false) &&
    Is(s.f, k, 2, false) && Between(s.o, k) && Between(s.p, k) &&
    (forall f <- LogOf(s) :: InTheClear(c, f)) && Listens(c) &&
    |s.a| + |Payload(s.c)| + |Payload(s.d)| <= c.lim.capacity &&
    |s.b| + |Payload(s.e)| + |Payload(s.f)| <= c.lim.capacity
  }

  function LogOf(s: Frames): seq<seq<Byte>> { [s.a, s.o, s.b, s.c, s.d, s.p, s.e, s.f] }

  /** The receiver's state and last outcome after the frames of the log. */
  function Received<Q>(c: Config<Q>, st: RxState<Q>, log: seq<seq<Byte>>, now: nat): (r: (RxState<Q>, Outcome))
    requires Ready(c, st)
    ensures Ready(c, r.0)
  {
    if log == [] then (st, Pending) else
      Rx(c, Received(c, st, log[..|log| - 1], now).0, log[|log| - 1], Around(now))
  }

  function Two(x: Slot, y: Slot): Slots { [x, y, Free, Free] }

  /** A search among entries of which none is expired. */
  lemma Finds(s: Slots, k: Key, frag: Option<Byte>, now: nat, hz: nat, i: nat)
    requires i < CACHE_LEN && Hit(s[i], k, frag, now, hz) && forall j {:trigger s[j]} :: 0 <= j < i ==>
               !Hit(s[j], k, frag, now, hz)
    requires forall j {:trigger s[j]} :: 0 <= j < CACHE_LEN ==> !Expired(s[j], now, hz)
    ensures Search(s, k, frag, now, hz, 0) == (s, i)
  {
    SearchFinds(s, k, frag, now, hz, 0);
    var r := Search(s, k, frag, now, hz, 0);
    assert r.0 == s;
  }

  /** A first fragment takes the next slot. */
  lemma Begins(x: Slot, y: Slot, next: nat, f: seq<Byte>, k: Key, now: nat, lim: Limits)
    requires next < 2 && Is(f, k, 0, true) && |f| <= lim.capacity
    ensures Arrive(State(Two(x, y), next), f, now, lim, true)
         == (State(if next == 0 then Two(Held(now, k, 0, f), y) else Two(x, Held(now, k, 0, f)), next + 1), Waiting)
  {
    assert [] + f == f;
    var st := State(Two(x, y), next);
    var e := Entered(st, f, now, lim.hz, true);
    assert e == (State(Two(x, y)[next := Held(now, k, 0, [])], next + 1), next);
    assert Two(x, y)[next := Held(now, k, 0, [])][next := Held(now, k, 0, f)]
        == if next == 0 then Two(Held(now, k, 0, f), y) else Two(x, Held(now, k, 0, f));
  }

  /** A later fragment with more to come goes to the first entry. */
  lemma Extends(x: seq<Byte>, y: Slot, last: Byte, f: seq<Byte>, k: Key, now: nat, lim: Limits)
    requires y.Held? && y.first == now && last < 2 && last + 1 != 0 && Is(f, k, last + 1, true) &&
             |x| + |Payload(f)| <= lim.capacity
    ensures Arrive(State(Two(Held(now, k, last, x), y), 2), f, now, lim, true)
         == (State(Two(Held(now, k, last + 1, x + Payload(f)), y), 2), Waiting)
  {
    var s := Two(Held(now, k, last, x), y);
    Finds(s, k, Some(last + 1), now, lim.hz, 0);
    assert s[0 := Held(now, k, last + 1, x)] == Two(Held(now, k, last + 1, x), y);
    assert s[0 := Held(now, k, last + 1, x)][0 := Held(now, k, last + 1, x + Payload(f))]
           == Two(Held(now, k, last + 1, x + Payload(f)), y);
  }

  /** The last fragment 1 completes the second entry, and the first is released instead. */
  lemma Completes(x: seq<Byte>, y: seq<Byte>, f: seq<Byte>, k: Key, now: nat, lim: Limits)
    requires Is(f, k, 1, false) && |y| + |Payload(f)| <= lim.capacity
    ensures Arrive(State(Two(Held(now, k, 2, x), Held(now, k, 0, y)), 2), f, now, lim, true)
         == (State(Two(Free, Held(now, k, 1, y + Payload(f))), 2), Complete(y + Payload(f)))
  {
    var s := Two(Held(now, k, 2, x), Held(now, k, 0, y));
    Finds(s, k, Some(1), now, lim.hz, 1);
    var t := Two(Held(now, k, 2, x), Held(now, k, 1, y + Payload(f)));
    assert s[1 := Held(now, k, 1, y)][1 := Held(now, k, 1, y + Payload(f))] == t;
    Finds(t, k, None, now, lim.hz, 0);
    assert t[0 := Free] == Two(Free, Held(now, k, 1, y + Payload(f)));
  }

  /** What was handed out is still there, and is continued and handed out again. */
  lemma CompletesAgain(y: seq<Byte>, f: seq<Byte>, k: Key, now: nat, lim: Limits)
    requires Is(f, k, 2, false) && |y| + |Payload(f)| <= lim.capacity
    ensures Arrive(State(Two(Free, Held(now, k, 1, y)), 2), f, now, lim, true).1 == Complete(y + Payload(f))
  {
    Finds(Two(Free, Held(now, k, 1, y)), k, Some(2), now, lim.hz, 1);
  }

  // ---- The state as the frames come in ----

  /** Nothing is recorded of the sender yet that could make its next frame a duplicate. */
  predicate Start<Q>(c: Config<Q>, st: RxState<Q>, k: Key) {
    Ready(c, st) && st.cache == EMPTY_CACHE &&
    (Recorded(c, st, k.src).Some? ==> Recorded(c, st, k.src).value.seqNo != k.seqNo)
  }

  /** The cache, and the sender's last frame. */
  predicate Stands<Q>(c: Config<Q>, st: RxState<Q>, k: Key, cache: State, last: Seen) {
    Ready(c, st) && st.cache == cache && Recorded(c, st, k.src) == Some(last)
  }

  /** A frame in between only replaces the record. */
  lemma Passes<Q(!new)>(c: Config<Q>, st: RxState<Q>, k: Key, f: seq<Byte>, frag: Byte, now: nat, cache: State)
    requires Listens(c) && InTheClear(c, f) && Between(f, k) && Stands(c, st, k, cache, Seen(k.seqNo, frag, now))
    ensures Stands(c, Rx(c, st, f, Around(now)).0, k, cache, Seen(SeqOf(f), 0, now))
  {
    Step(c, st, f, now);
  }

  /** A fragment of the key gets to the cache if it comes behind another sequence number, or its predecessor. */
  lemma GetsIn<Q(!new)>(c: Config<Q>, st: RxState<Q>, k: Key, f: seq<Byte>, more: bool, now: nat)
    requires Ready(c, st) && Listens(c) && InTheClear(c, f) && Is(f, k, FragOf(f), more) && (FragOf(f) != 0 || more)
    requires var s := Recorded(c, st, k.src);
             s.Some? ==> s.value.seqNo != k.seqNo || s.value.frag + 1 == FragOf(f)
    ensures var q, s := Rx(c, st, f, Around(now)), Arrive(st.cache, f, now, c.lim, true);
            Stands(c, q.0, k, s.0, Seen(k.seqNo, FragOf(f), now)) && q.1 == OutcomeOf(f, s.1)
  {
    Step(c, st, f, now);
  }

  lemma OneMore<Q(!new)>(c: Config<Q>, st: RxState<Q>, log: seq<seq<Byte>>, f: seq<Byte>, now: nat)
    requires Ready(c, st)
    ensures Received(c, st, log + [f], now) == Rx(c, Received(c, st, log, now).0, f, Around(now))
  {
    assert (log + [f])[..|log|] == log;
  }

  lemma AfterThree<Q(!new)>(s: Frames, k: Key, c: Config<Q>, st: RxState<Q>, now: nat)
    requires Clashing(s, k, c) && Start(c, st, k)
    ensures Stands(c, Received(c, st, [s.a] + [s.o] + [s.b], now).0, k,
                   State(Two(Held(now, k, 0, s.a), Held(now, k, 0, s.b)), 2), Seen(k.seqNo, 0, now))
  {
    var none: seq<seq<Byte>> := [];
    assert none + [s.a] == [s.a];
    assert s.a in LogOf(s) && s.o in LogOf(s) && s.b in LogOf(s);
    OneMore(c, st, none, s.a, now);
    OneMore(c, st, [s.a], s.o, now);
    OneMore(c, st, [s.a] + [s.o], s.b, now);
    GetsIn(c, st, k, s.a, true, now);
    Begins(Free, Free, 0, s.a, k, now, c.lim);
    Passes(c, Received(c, st, [s.a], now).0, k, s.o, 0, now, State(Two(Held(now, k, 0, s.a), Free), 1));
    GetsIn(c, Received(c, st, [s.a] + [s.o], now).0, k, s.b, true, now);
    Begins(Held(now, k, 0, s.a), Free, 1, s.b, k, now, c.lim);
  }

  /** Two more of the first chain. */
  lemma AfterFive<Q(!new)>(s: Frames, k: Key, c: Config<Q>, st: RxState<Q>, log: seq<seq<Byte>>, now: nat)
    requires Clashing(s, k, c) && Ready(c, st)
    requires Stands(c, Received(c, st, log, now).0, k, State(Two(Held(now, k, 0, s.a), Held(now, k, 0, s.b)), 2),
                    Seen(k.seqNo, 0, now))
    ensures Stands(c, Received(c, st, log + [s.c] + [s.d], now).0, k,
                   State(Two(Held(now, k, 2, s.a + Payload(s.c) + Payload(s.d)), Held(now, k, 0, s.b)), 2),
                   Seen(k.seqNo, 2, now))
  {
    var y := Held(now, k, 0, s.b);
    assert s.c in LogOf(s) && s.d in LogOf(s);
    OneMore(c, st, log, s.c, now);
    OneMore(c, st, log + [s.c], s.d, now);
    GetsIn(c, Received(c, st, log, now).0, k, s.c, true, now);
    Extends(s.a, y, 0, s.c, k, now, c.lim);
    GetsIn(c, Received(c, st, log + [s.c], now).0, k, s.d, true, now);
    Extends(s.a + Payload(s.c), y, 1, s.d, k, now, c.lim);
  }

  /** The last fragment 1, and then the last fragment 2. */
  lemma AfterEight<Q(!new)>(s: Frames, k: Key, c: Config<Q>, st: RxState<Q>, log: seq<seq<Byte>>, x: seq<Byte>,
                            now: nat)
    requires Clashing(s, k, c) && Ready(c, st)
    requires Stands(c, Received(c, st, log, now).0, k, State(Two(Held(now, k, 2, x), Held(now, k, 0, s.b)), 2),
                    Seen(k.seqNo, 2, now))
    ensures Received(c, st, log + [s.p] + [s.e] + [s.f], now).1
            == OutcomeOf(s.f, Complete(s.b + Payload(s.e) + Payload(s.f)))
  {
    var cache := State(Two(Held(now, k, 2, x), Held(now, k, 0, s.b)), 2);
    assert s.p in LogOf(s) && s.e in LogOf(s) && s.f in LogOf(s);
    OneMore(c, st, log, s.p, now);
    OneMore(c, st, log + [s.p], s.e, now);
    OneMore(c, st, log + [s.p] + [s.e], s.f, now);
    Passes(c, Received(c, st, log, now).0, k, s.p, 2, now, cache);
    GetsIn(c, Received(c, st, log + [s.p], now).0, k, s.e, false, now);
    Completes(x, s.b, s.e, k, now, c.lim);
    GetsIn(c, Received(c, st, log + [s.p] + [s.e], now).0, k, s.f, false, now);
    CompletesAgain(s.b + Payload(s.e), s.f, k, now, c.lim);
  }

  // ---- What is handed up ----

  /** The two fragments 1 differ. */
  predicate Differ(s: Frames)
    requires Whole(s.c) && Whole(s.e)
  {
    |s.a| == |s.b| && |Payload(s.c)| == |Payload(s.e)| && Payload(s.c) != Payload(s.e)
  }

  /** The outcome is one of the MSDUs that were sent. */
  ghost predicate HandsUp(log: seq<seq<Byte>>, out: Outcome) {
    exists m :: Reassembled(log, m) && |m| >= HDR_LEN && out == OutcomeOf(m, Complete(m))
  }

  /** Every MSDU that the log ends has the first of the two fragments 1. */
  lemma OnlyMsdus<Q>(s: Frames, k: Key, c: Config<Q>, m: seq<Byte>)
    requires Clashing(s, k, c) && Differ(s) && Reassembled(LogOf(s), m)
    ensures m == s.a + Payload(s.c) + Payload(s.f) || m == s.b + Payload(s.c) + Payload(s.f)
  {
    var log := LogOf(s);
    var at, k' :| Chain(log, at, k') && |at| >= 2 && at[|at| - 1] == 7 && m == Join(log, at, k') &&
                  AllMore(log, at[..|at| - 1], k');
    FragByteInjective(|at| - 1, 2);
    OnlyChain(s, k, c, at, k');
  }

  /** A chain of three with more to come after the second takes the first of the two fragments 1. */
  lemma OnlyChain<Q>(s: Frames, k: Key, c: Config<Q>, at: seq<nat>, k': Key)
    requires Clashing(s, k, c) && Chain(LogOf(s), at, k') && |at| == 3 && at[2] == 7 && AllMore(LogOf(s), at[..2], k')
    ensures (at[0] == 0 || at[0] == 2) && Join(LogOf(s), at, k') == LogOf(s)[at[0]] + Payload(s.c) + Payload(s.f)
  {
    var log := LogOf(s);
    assert k' == k && KeyOf(log[at[0]]) == k && KeyOf(log[at[1]]) == k;
    assert FragOf(log[at[0]]) == 0 && FragOf(log[at[1]]) == 1 && FragOf(log[at[2]]) == 2;
    assert at[..2][1] == at[1] && More(log[at[1]]);
    assert at[0] < at[1] && at[1] < at[2];
    assert at[1] == 3;
    assert at[..2][..1] == [at[0]];
    assert Join(log, at, k') == Join(log, at[..2], k') + Payload(log[7]);
    assert Join(log, at[..2], k') == log[at[0]] + Payload(log[3]);
  }

  /** Bodies of one length make different Ethernet frames if they differ and are not encapsulated. */
  lemma EthernetDiffers(dst: Mac, src: Mac, p: seq<Byte>, q: seq<Byte>)
    requires |p| == |q| && p != q && !Encapsulated(p) && !Encapsulated(q)
    ensures Ethernet(dst, src, p) != Ethernet(dst, src, q)
  {
    var h := dst + src + LengthField(|p|);
    assert Ethernet(dst, src, p) == h + p && Ethernet(dst, src, q) == h + q;
    assert (h + p)[|h|..] == p && (h + q)[|h|..] == q;
  }

  /** What the run comes to. */
  lemma MixtureHandedUp<Q(!new)>(s: Frames, k: Key, c: Config<Q>, st: RxState<Q>, now: nat)
    requires Clashing(s, k, c) && Start(c, st, k)
    ensures Received(c, st, LogOf(s), now).1 == OutcomeOf(s.f, Complete(s.b + Payload(s.e) + Payload(s.f)))
  {
    var three := [s.a] + [s.o] + [s.b];
    AfterThree(s, k, c, st, now);
    AfterFive(s, k, c, st, three, now);
    AfterEight(s, k, c, st, three + [s.c] + [s.d], s.a + Payload(s.c) + Payload(s.d), now);
    LogInOrder(s);
  }

  lemma LogInOrder(s: Frames)
    ensures [s.a] + [s.o] + [s.b] + [s.c] + [s.d] + [s.p] + [s.e] + [s.f] == LogOf(s)
  {
  }

  /** After a clash, bytes are handed up that are no MSDU of the sender. */
  lemma ClashHandsUpWrongMsdu<Q(!new)>(s: Frames, k: Key, c: Config<Q>, st: RxState<Q>, now: nat)
    requires Clashing(s, k, c) && Differ(s) && Start(c, st, k) && Bare(s.a) && Bare(s.b)
    ensures var out := Received(c, st, LogOf(s), now).1; out.Delivered? && !HandsUp(LogOf(s), out)
  {
    var out := Received(c, st, LogOf(s), now).1;
    MixtureHandedUp(s, k, c, st, now);
    forall n | Reassembled(LogOf(s), n) && |n| >= HDR_LEN ensures out != OutcomeOf(n, Complete(n)) {
      OnlyMsdus(s, k, c, n);
      MixtureDiffers(if n == s.a + Payload(s.c) + Payload(s.f) then s.a else s.b, s.b, s.f, Payload(s.c),
                     Payload(s.e), Payload(s.f));
    }
  }

  /** A frame with a body that does not begin like an encapsulated one. */
  predicate Bare(f: seq<Byte>) {
    |f| > HDR_LEN && f[HDR_LEN] != RFC1042[0]
  }

  /** Two bodies that differ behind equally long beginnings. */
  lemma MixtureDiffers(first: seq<Byte>, b: seq<Byte>, f: seq<Byte>, x: seq<Byte>, y: seq<Byte>, z: seq<Byte>)
    requires |first| == |b| && Bare(first) && Bare(b) && |f| >= HDR_LEN && |x| == |y| && x != y
    requires Addr1(first) == Addr1(f) && Addr2(first) == Addr2(f)
    ensures OutcomeOf(first + x + z, Complete(first + x + z)) != OutcomeOf(f, Complete(b + y + z))
  {
    var n, m := first + x + z, b + y + z;
    SameAddresses(first, n);
    BodiesDiffer(first, b, x, y, z);
    assert n[HDR_LEN..][0] == first[HDR_LEN] && m[HDR_LEN..][0] == b[HDR_LEN];
    EthernetDiffers(Addr1(f), Addr2(f), n[HDR_LEN..], m[HDR_LEN..]);
  }

  lemma SameAddresses(f: seq<Byte>, n: seq<Byte>)
    requires |f| >= HDR_LEN && f <= n
    ensures Addr1(n) == Addr1(f) && Addr2(n) == Addr2(f)
  {
    assert n[4..10] == n[..|f|][4..10] && n[10..16] == n[..|f|][10..16];
  }

  lemma BodiesDiffer(a: seq<Byte>, b: seq<Byte>, x: seq<Byte>, y: seq<Byte>, z: seq<Byte>)
    requires |a| == |b| >= HDR_LEN && |x| == |y| && x != y
    ensures (a + x + z)[HDR_LEN..] != (b + y + z)[HDR_LEN..]
  {
    var i :| 0 <= i < |x| && x[i] != y[i];
    var j := |a| + i;
    assert (a + x + z)[j] == x[i] && (b + y + z)[j] == y[i];
    assert (a + x + z)[HDR_LEN..][j - HDR_LEN] == x[i] && (b + y + z)[HDR_LEN..][j - HDR_LEN] == y[i];
  }

  // ---- Such runs exist ----

  /** The fourth byte of a body that asks for key i. */
  function Asks(i: nat): (b: Byte)
    requires i < 4
    ensures TopBits(b) == i
  {
    if i == 0 then 0x00 else if i == 1 then 0x40 else if i == 2 then 0x80 else 0xc0
  }

  /** A frame with one telling byte b, that asks for key q. */
  function Frame(bssid: Mac, q: nat, s: Seq12, i: Index, more: bool, b: Byte): (f: seq<Byte>)
    requires q < 4
    ensures |f| == HDR_LEN + 4
  {
    var z: Mac := [0, 0, 0, 0, 0, 0];
    Header(if more then MOREFRAGS else 0, z, z, bssid, s, i) + [b, 0, 0, Asks(q)]
  }

  lemma FrameIs<Q>(c: Config<Q>, q: nat, s: Seq12, i: Index, more: bool, b: Byte)
    requires q < 4 && |c.keys| == 4 && (!c.hostDecrypt || c.openWep || c.keys[q].None?)
    ensures var f := Frame(c.bssid, q, s, i, more, b);
            InTheClear(c, f) && Is(f, KeyOf(Frame(c.bssid, q, s, 0, true, 0)), FragByte(i), more) &&
            Payload(f) == [b, 0, 0, Asks(q)] && SeqOf(f) == SeqBytes(s) && Addr2(f) == [0, 0, 0, 0, 0, 0]
  {
    var z: Mac := [0, 0, 0, 0, 0, 0];
    var flags := if more then MOREFRAGS else 0;
    FlagsInTheClear(flags);
    FlagsInTheClear(MOREFRAGS);
    HeaderFields(flags, z, z, c.bssid, s, i, Frame(c.bssid, q, s, i, more, b));
    HeaderFields(MOREFRAGS, z, z, c.bssid, s, 0, Frame(c.bssid, q, s, 0, true, 0));
    var f := Frame(c.bssid, q, s, i, more, b);
    assert (f + [Around(0).behind])[HDR_LEN + 3] == Asks(q);
  }

  function Example(bssid: Mac, q: nat): Frames
    requires q < 4
  {
    Frames(Frame(bssid, q, 1, 0, true, 1), Frame(bssid, q, 2, 0, false, 0), Frame(bssid, q, 1, 0, true, 1),
           Frame(bssid, q, 1, 1, true, 2), Frame(bssid, q, 1, 2, true, 3), Frame(bssid, q, 2, 0, false, 0),
           Frame(bssid, q, 1, 1, false, 4), Frame(bssid, q, 1, 2, false, 5))
  }

  lemma ExampleInTheClear<Q>(c: Config<Q>, q: nat)
    requires q < 4 && |c.keys| == 4 && (!c.hostDecrypt || c.openWep || c.keys[q].None?)
    ensures forall f <- LogOf(Example(c.bssid, q)) :: InTheClear(c, f)
  {
    FrameIs(c, q, 1, 0, true, 1); FrameIs(c, q, 1, 1, true, 2); FrameIs(c, q, 1, 2, true, 3);
    FrameIs(c, q, 1, 1, false, 4); FrameIs(c, q, 1, 2, false, 5); FrameIs(c, q, 2, 0, false, 0);
  }

  lemma ExampleFragments<Q>(c: Config<Q>, q: nat)
    requires q < 4 && |c.keys| == 4 && (!c.hostDecrypt || c.openWep || c.keys[q].None?)
    ensures var s := Example(c.bssid, q);
            var k := KeyOf(s.a);
            Is(s.a, k, 0, true) && Is(s.c, k, 1, true) && Is(s.d, k, 2, true) && Is(s.e, k, 1, false) &&
            Is(s.f, k, 2, false) && k.seqNo == SeqBytes(1) && k.src == [0, 0, 0, 0, 0, 0] &&
            Payload(s.c) == [2, 0, 0, Asks(q)] && Payload(s.d) == [3, 0, 0, Asks(q)] &&
            Payload(s.e) == [4, 0, 0, Asks(q)] && Payload(s.f) == [5, 0, 0, Asks(q)]
  {
    FrameIs(c, q, 1, 0, true, 1); FrameIs(c, q, 1, 1, true, 2); FrameIs(c, q, 1, 2, true, 3);
    FrameIs(c, q, 1, 1, false, 4); FrameIs(c, q, 1, 2, false, 5);
  }

  lemma ExampleClashes<Q>(c: Config<Q>, q: nat)
    requires Listens(c) && c.lim.capacity >= HDR_LEN + 12
    requires q < 4 && (!c.hostDecrypt || c.openWep || c.keys[q].None?)
    ensures var s := Example(c.bssid, q); Clashing(s, KeyOf(s.a), c) && Differ(s) && Bare(s.a) && SeqOf(s.a) != (0, 0)
  {
    ExampleInTheClear(c, q);
    ExampleFragments(c, q);
    FrameIs(c, q, 2, 0, false, 0);
    assert SeqBytes(1) != SeqBytes(2);
    assert [2, 0, 0, Asks(q)][0] != [4, 0, 0, Asks(q)][0];
  }

  /** A receiver that takes some frames in the clear, in its first state, in managed or ad-hoc mode, can be made
      to hand up such bytes by eight frames that all pass the duplicate filter. */
  lemma ClashHappens<Q(!new)>(c: Config<Q>, priv: seq<Q>, now: nat)
    requires Listens(c) && |priv| == 4 && c.lim.capacity >= HDR_LEN + 12
    ensures exists log :: |log| == 8 &&
              var out := Received(c, RxState(map[], Seen((0, 0), 0, 0), EMPTY_CACHE, priv), log, now).1;
              out.Delivered? && !HandsUp(log, out)
  {
    var q :| 0 <= q < 4 && (!c.hostDecrypt || c.openWep || c.keys[q].None?);
    var s := Example(c.bssid, q);
    ExampleClashes(c, q);
    ClashHandsUpWrongMsdu(s, KeyOf(s.a), c, RxState(map[], Seen((0, 0), 0, 0), EMPTY_CACHE, priv), now);
  }
}
