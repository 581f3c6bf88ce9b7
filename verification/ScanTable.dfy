/** ieee80211/ieee80211_rx.c: the table of networks heard, with the oldest replaced when it is full. */
module ScanTable {
  import opened Bytes
  import opened Recency

  const MAX_NETWORK_COUNT: nat := 128
  const CAPABILITY_BSS: bv16 := 0x0001
  const CAPABILITY_IBSS: bv16 := 0x0002

  /** struct ieee80211_network; info stands for the fields that are just copied. */
  datatype Network<I> = Network(bssid: seq<Byte>, channel: nat, capability: bv16, ssid: seq<Byte>, lastScanned: nat,
                                info: I)

  function Ibss(c: bv16): bv16 { c & CAPABILITY_IBSS }

  function Bss(c: bv16): bv16 { c & CAPABILITY_BSS }

  /** is_same_network; infra is the interface mode. */
  predicate IsSame<I>(infra: bool, src: Network<I>, dst: Network<I>) {
    (|src.ssid| == |dst.ssid| || infra) && src.channel == dst.channel && src.bssid == dst.bssid &&
    (infra || src.ssid == dst.ssid) &&
    Ibss(src.capability) == Ibss(dst.capability) && Bss(src.capability) == Bss(dst.capability)
  }

  /** What is_same_network compares: in infrastructure mode, not the name. */
  datatype Key = Key(bssid: seq<Byte>, channel: nat, ibss: bv16, bss: bv16, ssid: seq<Byte>)

  function KeyOf<I>(infra: bool, n: Network<I>): Key {
    Key(n.bssid, n.channel, Ibss(n.capability), Bss(n.capability), if infra then [] else n.ssid)
  }

  lemma SameIsSameKey<I>(infra: bool, a: Network<I>, b: Network<I>)
    ensures IsSame(infra, a, b) <==> KeyOf(infra, a) == KeyOf(infra, b)
  {
  }

  /** update_network: an empty name does not replace a known one. */
  function Updated<I>(dst: Network<I>, src: Network<I>, now: nat): Network<I> {
    dst.(capability := src.capability, ssid := if |src.ssid| > 0 then src.ssid else dst.ssid,
         lastScanned := now, info := src.info)
  }

  /** An update leaves a network recognisable. */
  lemma UpdatedKey<I>(infra: bool, dst: Network<I>, src: Network<I>, now: nat)
    requires IsSame(infra, dst, src)
    ensures KeyOf(infra, Updated(dst, src, now)) == KeyOf(infra, dst)
  {
  }

  // ---- One probe response or beacon ----

  /** The first entry that is the same network, or the length of the table. */
  function Find<I>(infra: bool, t: seq<Network<I>>, n: Network<I>): (i: nat)
    ensures i <= |t| && (i < |t| ==> IsSame(infra, t[i], n))
    ensures forall j :: 0 <= j < i ==> !IsSame(infra, t[j], n)
  {
    if t == [] then 0 else if IsSame(infra, t[0], n) then 0 else 1 + Find(infra, t[1..], n)
  }

  /** The first entry among those scanned least recently. */
  function Oldest<I>(t: seq<Network<I>>): (i: nat)
    requires t != []
    ensures i < |t| && forall j :: 0 <= j < |t| ==> t[i].lastScanned <= t[j].lastScanned
    ensures forall j :: 0 <= j < i ==> t[i].lastScanned < t[j].lastScanned
  {
    var n := |t| - 1;
    if n == 0 then 0 else
      var o := Oldest(t[..n]);
      if t[n].lastScanned < t[o].lastScanned then n else o
  }

  /** The table after hearing n at time now. */
  function Heard<I>(infra: bool, t: seq<Network<I>>, n: Network<I>, now: nat): (r: seq<Network<I>>)
    requires |t| <= MAX_NETWORK_COUNT
    ensures |r| <= MAX_NETWORK_COUNT
  {
    var i := Find(infra, t, n);
    var new' := n.(lastScanned := now);
    if i < |t| then t[i := Updated(t[i], n, now)]
    else if |t| < MAX_NETWORK_COUNT then t + [new']
    else t[..Oldest(t)] + t[Oldest(t) + 1..] + [new']
  }

  // ---- Runs ----

  /** The table after hearing all of hist at the given times. */
  function After<I>(infra: bool, hist: seq<Network<I>>, times: seq<nat>): (r: seq<Network<I>>)
    requires |times| == |hist|
    ensures |r| <= MAX_NETWORK_COUNT
  {
    var n := |hist| - 1;
    if n < 0 then [] else Heard(infra, After(infra, hist[..n], times[..n]), hist[n], times[n])
  }

  function Keys<I>(infra: bool, t: seq<Network<I>>): (ks: seq<Key>)
    ensures |ks| == |t|
  {
    seq(|t|, i requires 0 <= i < |t| => KeyOf(infra, t[i]))
  }

  ghost predicate Increasing(times: seq<nat>) {
    forall i, j :: 0 <= i < j < |times| ==> times[i] < times[j]
  }

  /** tk are exactly the most recently heard of the keys ks, as many as fit. */
  ghost predicate Holds(tk: seq<Key>, ks: seq<Key>) {
    var r := Recent(ks);
    |tk| == (if |r| < MAX_NETWORK_COUNT then |r| else MAX_NETWORK_COUNT) && Recency.Distinct(tk) &&
    forall k :: k in tk <==> k in r[..|tk|]
  }

  /** The table t holds exactly the most recently heard of the networks ks, with their times. */
  ghost predicate HoldsRecent<I>(infra: bool, t: seq<Network<I>>, ks: seq<Key>, times: seq<nat>)
    requires |times| == |ks|
  {
    Holds(Keys(infra, t), ks) && forall i :: 0 <= i < |t| ==> Timed(infra, t[i], ks, times)
  }

  /** An entry carries the time its network was last heard. */
  ghost predicate Timed<I>(infra: bool, e: Network<I>, ks: seq<Key>, times: seq<nat>)
    requires |times| == |ks|
  {
    KeyOf(infra, e) in ks && e.lastScanned == times[LastAt(ks, KeyOf(infra, e))]
  }

  /** Hearing k leaves the times of other networks and sets its own. */
  lemma TimedMore<I>(infra: bool, e: Network<I>, ks: seq<Key>, times: seq<nat>, k: Key, now: nat)
    requires |times| == |ks| && (if KeyOf(infra, e) == k then e.lastScanned == now else Timed(infra, e, ks, times))
    ensures Timed(infra, e, ks + [k], times + [now])
  {
    LastAtMore(ks, k, KeyOf(infra, e));
  }

  lemma FindKey<I>(infra: bool, t: seq<Network<I>>, n: Network<I>)
    ensures Find(infra, t, n) < |t| <==> KeyOf(infra, n) in Keys(infra, t)
    ensures Find(infra, t, n) < |t| ==> Keys(infra, t)[Find(infra, t, n)] == KeyOf(infra, n)
  {
    var i := Find(infra, t, n);
    if i < |t| {
      SameIsSameKey(infra, t[i], n);
      assert Keys(infra, t)[i] == KeyOf(infra, n);
    } else {
      forall j | 0 <= j < |t| ensures Keys(infra, t)[j] != KeyOf(infra, n) { SameIsSameKey(infra, t[j], n); }
    }
  }

  /** Hearing one more network only adds to the history. */
  lemma LastAtMore(ks: seq<Key>, k: Key, x: Key)
    requires x in ks || x == k
    ensures x in ks + [k] && LastAt(ks + [k], x) == if x == k then |ks| else LastAt(ks, x)
  {
    assert (ks + [k])[..|ks|] == ks;
    assert (ks + [k])[|ks|] == k;
  }

  lemma RecentMore(ks: seq<Key>, k: Key)
    ensures Recent(ks + [k]) == [k] + Without(Recent(ks), k)
  {
    assert (ks + [k])[..|ks|] == ks;
  }

  lemma KeysOfUpdate<I>(infra: bool, t: seq<Network<I>>, i: nat, u: Network<I>)
    requires i < |t| && KeyOf(infra, u) == KeyOf(infra, t[i])
    ensures Keys(infra, t[i := u]) == Keys(infra, t)
  {
  }

  lemma KeysOfAppend<I>(infra: bool, t: seq<Network<I>>, n: Network<I>)
    ensures Keys(infra, t + [n]) == Keys(infra, t) + [KeyOf(infra, n)]
  {
  }

  lemma KeysOfCut<I>(infra: bool, t: seq<Network<I>>, o: nat)
    requires o < |t|
    ensures Keys(infra, t[..o] + t[o + 1..]) == Keys(infra, t)[..o] + Keys(infra, t)[o + 1..]
  {
  }

  /** A key already in the table. */
  lemma HoldsKnown(tk: seq<Key>, ks: seq<Key>, k: Key)
    requires Holds(tk, ks) && k in tk
    ensures Holds(tk, ks + [k])
  {
    var r, n := Recent(ks), |tk|;
    RecentIs(ks); RecentMore(ks, k);
    WithoutInside(r, k, n);
    WithoutIs(r, k);
    assert k in r by { assert k in r[..n]; }
    assert ([k] + Without(r, k))[..n] == [k] + Without(r, k)[..n - 1];
  }

  /** A new key, with a free slot. */
  lemma HoldsNew(tk: seq<Key>, ks: seq<Key>, k: Key)
    requires Holds(tk, ks) && k !in tk && |tk| < MAX_NETWORK_COUNT
    ensures Holds(tk + [k], ks + [k])
  {
    var r := Recent(ks);
    RecentIs(ks); RecentMore(ks, k);
    assert r[..|tk|] == r && k !in r;
    WithoutPrefix(r, k, |r|);
    WithoutIs(r, k);
    assert ([k] + Without(r, k))[..|tk| + 1] == [k] + r;
  }

  /** A new key in a full table, in the place of the least recently heard one. */
  lemma HoldsFull(tk: seq<Key>, ks: seq<Key>, o: nat, k: Key)
    requires Holds(tk, ks) && k !in tk && |tk| == MAX_NETWORK_COUNT && o < |tk| &&
             tk[o] == Recent(ks)[MAX_NETWORK_COUNT - 1]
    ensures Holds(tk[..o] + tk[o + 1..] + [k], ks + [k])
  {
    var r, m := Recent(ks), MAX_NETWORK_COUNT - 1;
    RecentIs(ks); RecentMore(ks, k);
    WithoutPrefix(r, k, MAX_NETWORK_COUNT);
    WithoutIs(r, k);
    assert ([k] + Without(r, k))[..MAX_NETWORK_COUNT] == [k] + Without(r, k)[..MAX_NETWORK_COUNT][..m] == [k] + r[..m];
    CutKeys(tk, o, r, k);
  }

  lemma HearKnown<I>(infra: bool, t: seq<Network<I>>, ks: seq<Key>, times: seq<nat>, n: Network<I>, now: nat)
    requires |times| == |ks| && HoldsRecent(infra, t, ks, times) && |t| <= MAX_NETWORK_COUNT && Find(infra, t, n) < |t|
    ensures HoldsRecent(infra, Heard(infra, t, n, now), ks + [KeyOf(infra, n)], times + [now])
  {
    var i, k := Find(infra, t, n), KeyOf(infra, n);
    FindKey(infra, t, n);
    UpdatedKey(infra, t[i], n, now);
    KeysOfUpdate(infra, t, i, Updated(t[i], n, now));
    var tk, u := Keys(infra, t), t[i := Updated(t[i], n, now)];
    HoldsKnown(tk, ks, k);
    forall j | 0 <= j < |t| ensures Timed(infra, u[j], ks + [k], times + [now]) {
      if j != i { assert tk[j] != tk[i]; }
      TimedMore(infra, u[j], ks, times, k, now);
    }
  }

  lemma HearNew<I>(infra: bool, t: seq<Network<I>>, ks: seq<Key>, times: seq<nat>, n: Network<I>, now: nat)
    requires |times| == |ks| && HoldsRecent(infra, t, ks, times) && Find(infra, t, n) == |t| < MAX_NETWORK_COUNT
    ensures HoldsRecent(infra, Heard(infra, t, n, now), ks + [KeyOf(infra, n)], times + [now])
  {
    var k, e := KeyOf(infra, n), n.(lastScanned := now);
    FindKey(infra, t, n);
    KeysOfAppend(infra, t, e);
    HoldsNew(Keys(infra, t), ks, k);
    forall j | 0 <= j < |t| + 1 ensures Timed(infra, (t + [e])[j], ks + [k], times + [now]) {
      if j < |t| { assert Keys(infra, t)[j] in Keys(infra, t); }
      TimedMore(infra, (t + [e])[j], ks, times, k, now);
    }
  }

  /** In a full table the oldest entry is the least recently heard one. */
  lemma OldestIsLast<I>(infra: bool, t: seq<Network<I>>, ks: seq<Key>, times: seq<nat>)
    requires |times| == |ks| && HoldsRecent(infra, t, ks, times) && |t| == MAX_NETWORK_COUNT && Increasing(times)
    ensures Keys(infra, t)[Oldest(t)] == Recent(ks)[MAX_NETWORK_COUNT - 1]
  {
    var r, tk, o := Recent(ks), Keys(infra, t), Oldest(t);
    var last := r[MAX_NETWORK_COUNT - 1];
    assert last in r[..|t|];
    var m :| 0 <= m < |tk| && tk[m] == last;
    RecentOrdered(ks);
    assert tk[o] in r[..|t|];
    var x :| 0 <= x < |t| && r[x] == tk[o];
    assert Timed(infra, t[o], ks, times) && Timed(infra, t[m], ks, times);
    forall y | 0 <= y < MAX_NETWORK_COUNT - 1 ensures LastAt(ks, r[y]) > LastAt(ks, last) {}
  }

  lemma HearFull<I>(infra: bool, t: seq<Network<I>>, ks: seq<Key>, times: seq<nat>, n: Network<I>, now: nat)
    requires |times| == |ks| && HoldsRecent(infra, t, ks, times) && Find(infra, t, n) == |t| == MAX_NETWORK_COUNT &&
             Increasing(times)
    ensures HoldsRecent(infra, Heard(infra, t, n, now), ks + [KeyOf(infra, n)], times + [now])
  {
    var k, o, e := KeyOf(infra, n), Oldest(t), n.(lastScanned := now);
    FindKey(infra, t, n);
    OldestIsLast(infra, t, ks, times);
    KeysOfCut(infra, t, o);
    KeysOfAppend(infra, t[..o] + t[o + 1..], e);
    HoldsFull(Keys(infra, t), ks, o, k);
    TimedCut(infra, t, ks, times, o, e);
  }

  lemma TimedCut<I>(infra: bool, t: seq<Network<I>>, ks: seq<Key>, times: seq<nat>, o: nat, e: Network<I>)
    requires |times| == |ks| && o < |t| && KeyOf(infra, e) !in Keys(infra, t) && forall i :: 0 <= i < |t| ==>
               Timed(infra, t[i], ks, times)
    ensures var u := t[..o] + t[o + 1..] + [e];
            forall j :: 0 <= j < |u| ==> Timed(infra, u[j], ks + [KeyOf(infra, e)], times + [e.lastScanned])
  {
    var u := t[..o] + t[o + 1..] + [e];
    forall j | 0 <= j < |u| ensures Timed(infra, u[j], ks + [KeyOf(infra, e)], times + [e.lastScanned]) {
      var i := if j < o then j else j + 1;
      if i < |t| {
        assert u[j] == t[i] && Keys(infra, t)[i] in Keys(infra, t);
      }
      TimedMore(infra, u[j], ks, times, KeyOf(infra, e), e.lastScanned);
    }
  }

  lemma CutKeys(tk: seq<Key>, o: nat, r: seq<Key>, k: Key)
    requires o < |tk| && |tk| <= |r| && Recency.Distinct(tk) && Recency.Distinct(r) && tk[o] == r[|tk| - 1] && k !in tk
    requires forall x :: x in tk <==> x in r[..|tk|]
    ensures var ck := tk[..o] + tk[o + 1..];
            Recency.Distinct(ck + [k]) && forall x :: x in ck + [k] <==> x in [k] + r[..|tk| - 1]
  {
    var ck, n := tk[..o] + tk[o + 1..], |tk| - 1;
    assert r[..|tk|] == r[..n] + [r[n]];
    forall x ensures x in ck <==> x in tk && x != tk[o] {
      if x in tk && x != tk[o] {
        var i :| 0 <= i < |tk| && tk[i] == x;
        assert ck[if i < o then i else i - 1] == x;
      }
    }
  }

  /** After any history of at least one scan with increasing times, the table is exactly the at most 128
      most recently heard distinct networks, each with the time it was last heard. */
  lemma {:induction false} TableIsRecent<I>(infra: bool, hist: seq<Network<I>>, times: seq<nat>)
    requires |times| == |hist| && Increasing(times)
    ensures HoldsRecent(infra, After(infra, hist, times), Keys(infra, hist), times)
  {
    if hist != [] {
      var n := |hist| - 1;
      TableIsRecent(infra, hist[..n], times[..n]);
      var t := After(infra, hist[..n], times[..n]);
      var ks := Keys(infra, hist[..n]);
      KeysOfAppend(infra, hist[..n], hist[n]);
      assert hist == hist[..n] + [hist[n]] && times == times[..n] + [times[n]];
      if Find(infra, t, hist[n]) < |t| {
        HearKnown(infra, t, ks, times[..n], hist[n], times[n]);
      } else if |t| < MAX_NETWORK_COUNT {
        HearNew(infra, t, ks, times[..n], hist[n], times[n]);
      } else {
        HearFull(infra, t, ks, times[..n], hist[n], times[n]);
      }
    }
  }

  // ---- The table in its slots ----

  class Table<I> {
    const infra: bool
    const nets: array<Network<I>>
    var freeList: seq<nat>
    var netList: seq<nat>

    /** ieee80211_networks_initialize: all slots free; blank is their zeroed content. */
    constructor (infra: bool, blank: Network<I>)
      ensures Valid() && Entries() == [] && this.infra == infra && fresh(nets)
    {
      this.infra := infra;
      nets := new Network<I>[MAX_NETWORK_COUNT](_ => blank);
      freeList := seq(MAX_NETWORK_COUNT, i requires i >= 0 => i);
      netList := [];
    }

    /** The free list and the network list share out the slots. */
    ghost predicate Valid()
      reads this
    {
      nets.Length == MAX_NETWORK_COUNT == |freeList| + |netList| && Partition(freeList + netList)
    }

    ghost function Entries(): (t: seq<Network<I>>)
      requires nets.Length > 0
      reads this, nets
      ensures |t| == |netList|
    {
      EntriesOf(nets[..], netList)
    }

    /** Walks the network list for the same network, remembering the oldest on the way. */
    method Search(n: Network<I>) returns (i: nat, oldest: nat)
      requires Valid()
      ensures i == Find(infra, Entries(), n)
      ensures i == |netList| && netList != [] ==> oldest == Oldest(Entries())
    {
      ghost var t := Entries();
      i, oldest := 0, 0;
      while i < |netList|
        invariant i <= |netList| && forall j :: 0 <= j < i ==> !IsSame(infra, t[j], n)
        invariant i > 0 ==> oldest == Oldest(t[..i])
      {
        SlotInRange(i);
        var target := nets[netList[i]];
        assert target == t[i];
        if IsSame(infra, target, n) {
          FindFirst(infra, t, n, i);
          return;
        }
        assert t[..i + 1][..i] == t[..i];
        if i > 0 {
          SlotInRange(oldest);
          assert t[..i][oldest] == t[oldest];
        }
        if i == 0 || target.lastScanned < nets[netList[oldest]].lastScanned {
          oldest := i;
        }
        i := i + 1;
      }
      FindFirst(infra, t, n, i);
      assert t[..i] == t;
    }

    /** list_del of the oldest, or the head of the free list; then list_add_tail. */
    method Insert(e: Network<I>, oldest: nat)
      requires Valid() && (freeList == [] ==> oldest < |netList|)
      modifies this, nets
      ensures Valid()
      ensures var t := old(Entries());
              Entries() == (if old(freeList) == [] then t[..oldest] + t[oldest + 1..] else t) + [e]
    {
      var target;
      if freeList == [] {
        assert freeList + netList == netList;
        ReusedSlots(netList, oldest);
        ReusedEntries(nets[..], netList, oldest, e);
        target := netList[oldest];
        MovedToEnd(netList, oldest, target);
        MovedToEnd(Entries(), oldest, e);
        netList := netList[..oldest] + netList[oldest + 1..] + [target];
        assert netList == MoveToEnd(old(netList), oldest);
        assert freeList + netList == netList;
      } else {
        TakeFree(nets[..], freeList, netList, e);
        target := freeList[0];
        freeList := freeList[1..];
        netList := netList + [target];
      }
      nets[target] := e;
      assert nets[..] == old(nets[..])[target := e];
    }

    /** The table part of ieee80211_process_probe_response, for a network that parsed. */
    method Process(n: Network<I>, now: nat)
      requires Valid()
      modifies this, nets
      ensures Valid() && Entries() == Heard(infra, old(Entries()), n, now)
    {
      var i, oldest := Search(n);
      if i < |netList| {
        SlotInRange(i);
        var u := Updated(nets[netList[i]], n, now);
        UpdateSlot(nets[..], freeList, netList, i, u);
        nets[netList[i]] := u;
        assert nets[..] == old(nets[..])[netList[i] := u];
      } else {
        Insert(n.(lastScanned := now), oldest);
      }
    }

    /** Any history of scans, from an empty table: what remains is exactly the recently heard networks. */
    method ProcessAll(hist: seq<Network<I>>, times: seq<nat>)
      requires Valid() && Entries() == [] && |times| == |hist| && Increasing(times)
      modifies this, nets
      ensures Valid() && HoldsRecent(infra, Entries(), Keys(infra, hist), times)
    {
      for i := 0 to |hist|
        invariant Valid() && Entries() == After(infra, hist[..i], times[..i])
      {
        assert hist[..i + 1][..i] == hist[..i] && times[..i + 1][..i] == times[..i];
        Process(hist[i], times[i]);
      }
      assert hist[..|hist|] == hist && times[..|hist|] == times;
      TableIsRecent(infra, hist, times);
    }

    lemma SlotInRange(i: nat)
      requires Valid() && i < |netList|
      ensures netList[i] < nets.Length && nets[netList[i]] == Entries()[i]
    {
      assert (freeList + netList)[|freeList| + i] == netList[i];
    }
  }

  function EntriesOf<I>(nets: seq<Network<I>>, slots: seq<nat>): (t: seq<Network<I>>)
    requires |nets| > 0
    ensures |t| == |slots|
  {
    seq(|slots|, i requires 0 <= i < |slots| => if slots[i] < |nets| then nets[slots[i]] else nets[0])
  }

  /** All slots, each once. */
  ghost predicate Partition(slots: seq<nat>) {
    (forall i :: 0 <= i < |slots| ==> slots[i] < MAX_NETWORK_COUNT) &&
    forall i, j :: 0 <= i < j < |slots| ==> slots[i] != slots[j]
  }

  /** Rearranging the slots keeps the partition. */
  lemma Rearranged(a: seq<nat>, b: seq<nat>, f: nat -> nat)
    requires Partition(a) && |a| == |b| && forall i: nat {:trigger b[i]} :: i < |b| ==> f(i) < |a| && b[i] == a[f(i)]
    requires forall i: nat, j: nat :: i < j < |b| ==> f(i) != f(j)
    ensures Partition(b)
  {
    forall i, j | 0 <= i < j < |b| ensures b[i] != b[j] { assert f(i) != f(j); }
  }

  /** A slot of the free list goes to the end of the network list. */
  lemma TakeFree<I>(nets: seq<Network<I>>, free: seq<nat>, slots: seq<nat>, e: Network<I>)
    requires |nets| == MAX_NETWORK_COUNT && Partition(free + slots) && free != []
    ensures free[0] < |nets| && Partition(free[1..] + (slots + [free[0]]))
    ensures EntriesOf(nets[free[0] := e], slots + [free[0]]) == EntriesOf(nets, slots) + [e]
  {
    var a, b := free + slots, free[1..] + (slots + [free[0]]);
    Rearranged(a, b, i => if i < |a| - 1 then i + 1 else 0);
    assert a[0] == free[0];
    forall j | 0 <= j < |slots| ensures slots[j] < |nets| && slots[j] != free[0] {
      assert a[|free| + j] == slots[j];
    }
  }

  /** Element o moved to the end. */
  function MoveToEnd<T>(s: seq<T>, o: nat): (r: seq<T>)
    requires o < |s|
    ensures |r| == |s|
  {
    seq(|s|, i requires 0 <= i < |s| => if i < o then s[i] else if i < |s| - 1 then s[i + 1] else s[o])
  }

  lemma MovedToEnd<T>(s: seq<T>, o: nat, e: T)
    requires o < |s|
    ensures s[..o] + s[o + 1..] + [e] == MoveToEnd(s, o)[|s| - 1 := e]
  {
  }

  /** The oldest entry's slot goes to the end of the network list. */
  lemma ReusedSlots(slots: seq<nat>, o: nat)
    requires Partition(slots) && o < |slots|
    ensures Partition(MoveToEnd(slots, o))
  {
    Rearranged(slots, MoveToEnd(slots, o), i => if i < o then i else if i < |slots| - 1 then i + 1 else o);
  }

  lemma ReusedEntries<I>(nets: seq<Network<I>>, slots: seq<nat>, o: nat, e: Network<I>)
    requires |nets| == MAX_NETWORK_COUNT && Partition(slots) && o < |slots|
    ensures slots[o] < |nets|
    ensures EntriesOf(nets[slots[o] := e], MoveToEnd(slots, o))
            == MoveToEnd(EntriesOf(nets, slots), o)[|slots| - 1 := e]
  {
    forall j | 0 <= j < |slots| ensures slots[j] < |nets| && (j != o ==> slots[j] != slots[o]) {}
  }

  /** Writing one slot of the list changes that entry alone. */
  lemma UpdateSlot<I>(nets: seq<Network<I>>, free: seq<nat>, slots: seq<nat>, i: nat, u: Network<I>)
    requires |nets| == MAX_NETWORK_COUNT && Partition(free + slots) && i < |slots|
    ensures slots[i] < |nets| && EntriesOf(nets[slots[i] := u], slots) == EntriesOf(nets, slots)[i := u]
  {
    forall j | 0 <= j < |slots| ensures slots[j] < |nets| && (j != i ==> slots[j] != slots[i]) {
      assert (free + slots)[|free| + j] == slots[j] && (free + slots)[|free| + i] == slots[i];
    }
  }

  lemma FindFirst<I>(infra: bool, t: seq<Network<I>>, n: Network<I>, i: nat)
    requires i <= |t| && (i < |t| ==> IsSame(infra, t[i], n)) && forall j :: 0 <= j < i ==> !IsSame(infra, t[j], n)
    ensures Find(infra, t, n) == i
  {
  }
}



