/** What comes out of the fragment cache, whatever goes in. */
module ReassemblyProofs {
  import opened Bytes
  import opened Options
  import opened Dot11
  import opened Reassembly

  // ---- The search ----

  predicate Hit(s: Slot, k: Key, frag: Option<Byte>, now: nat, hz: nat) {
    Live(s, now, hz) && Matches(s, k, frag)
  }

  function Swept(s: Slot, now: nat, hz: nat): Slot {
    if Expired(s, now, hz) then Free else s
  }

  /** The search finds the first live match and has freed the expired slots before it. */
  lemma {:induction false} SearchFinds(s: Slots, k: Key, frag: Option<Byte>, now: nat, hz: nat, i: nat)
    requires i <= CACHE_LEN
    ensures var r := Search(s, k, frag, now, hz, i);
            (r.1 < CACHE_LEN ==> Hit(s[r.1], k, frag, now, hz)) &&
            (forall j {:trigger s[j]} :: i <= j < r.1 ==> !Hit(s[j], k, frag, now, hz)) &&
            (forall j {:trigger r.0[j]} :: 0 <= j < CACHE_LEN ==>
                r.0[j] == if i <= j <= r.1 then Swept(s[j], now, hz) else s[j])
    decreases CACHE_LEN - i
  {
    if i < CACHE_LEN {
      var d := if Expired(s[i], now, hz) then s[i := Free] else s;
      if !Matches(d[i], k, frag) {
        SearchFinds(d, k, frag, now, hz, i + 1);
      }
    }
  }

  predicate HoldsKey(s: Slot, k: Key, now: nat, hz: nat) {
    Live(s, now, hz) && s.key == k
  }

  /** Invalidation frees the first live entry of the key, and otherwise only expired ones. */
  lemma InvalidatedFrees(s: Slots, k: Key, now: nat, hz: nat, i: nat)
    requires i < CACHE_LEN && HoldsKey(s[i], k, now, hz)
    ensures var d := Invalidated(s, k, now, hz);
            (forall j {:trigger d[j]} :: 0 <= j < CACHE_LEN && Live(d[j], now, hz) ==> d[j] == s[j]) &&
            (d[i] == Free <==> forall j :: 0 <= j < i ==> !HoldsKey(s[j], k, now, hz))
  {
    SearchFinds(s, k, None, now, hz, 0);
    var r := Search(s, k, None, now, hz, 0);
    assert forall j :: 0 <= j < CACHE_LEN ==> (Hit(s[j], k, None, now, hz) <==> HoldsKey(s[j], k, now, hz));
    assert r.1 <= i;
  }

  // ---- Where an MSDU comes from ----

  /** at lists the positions, in order of arrival, of fragments 0, 1, 2, ... with key k. */
  ghost predicate Chain(log: seq<seq<Byte>>, at: seq<nat>, k: Key) {
    0 < |at| <= 16 &&
    (forall i, j {:trigger at[i], at[j]} :: 0 <= i < j < |at| ==> at[i] < at[j]) &&
    forall i {:trigger at[i]} :: 0 <= i < |at| ==>
      at[i] < |log| && Whole(log[at[i]]) && KeyOf(log[at[i]]) == k && FragOf(log[at[i]]) == FragByte(i)
  }

  /** Fragment 0 with its header, and the payloads of the others. */
  ghost function Join(log: seq<seq<Byte>>, at: seq<nat>, k: Key): seq<Byte>
    requires Chain(log, at, k)
  {
    var n := |at| - 1;
    if n == 0 then log[at[0]] else Join(log, at[..n], k) + Payload(log[at[n]])
  }

  ghost predicate AllMore(log: seq<seq<Byte>>, at: seq<nat>, k: Key)
    requires Chain(log, at, k)
  {
    forall i {:trigger at[i]} :: 0 <= i < |at| ==> More(log[at[i]])
  }

  /** The entry is what fragments 0 to last of its key amount to. */
  ghost predicate BackedBy(s: Slot, log: seq<seq<Byte>>, at: seq<nat>) {
    s.Held? && Chain(log, at, s.key) && s.last == FragByte(|at| - 1) && s.data == Join(log, at, s.key) &&
      AllMore(log, at, s.key)
  }

  ghost predicate Backed(s: Slot, log: seq<seq<Byte>>) {
    exists at :: BackedBy(s, log, at)
  }

  /** m is a whole MSDU: fragment 0's header and the payloads of fragments 0 to the last of one key, each
      once, in the order they came, the last of them now. */
  ghost predicate Reassembled(log: seq<seq<Byte>>, m: seq<Byte>) {
    exists at, k :: Chain(log, at, k) && |at| >= 2 && at[|at| - 1] == |log| - 1 && m == Join(log, at, k) &&
                    AllMore(log, at[..|at| - 1], k) && !More(log[|log| - 1])
  }

  lemma {:induction false} JoinLater(log: seq<seq<Byte>>, at: seq<nat>, k: Key, f: seq<Byte>)
    requires Chain(log, at, k)
    ensures Chain(log + [f], at, k) && Join(log + [f], at, k) == Join(log, at, k)
    decreases |at|
  {
    if |at| > 1 {
      JoinLater(log, at[..|at| - 1], k, f);
    }
  }

  lemma BackedLater(s: Slot, log: seq<seq<Byte>>, f: seq<Byte>)
    requires Backed(s, log)
    ensures Backed(s, log + [f])
  {
    var at :| BackedBy(s, log, at);
    JoinLater(log, at, s.key, f);
    assert BackedBy(s, log + [f], at);
  }

  lemma FragBound(f: seq<Byte>, n: nat)
    requires Whole(f) && 0 < n <= 16 && FragOf(f) == FragByte(n - 1) + 1 && FragOf(f) != 0
    ensures n < 16 && FragOf(f) == FragByte(n)
  {
    if n < 16 { NextFragByte(n - 1); }
  }

  /** The next fragment of an entry makes its chain longer by one. */
  lemma ChainGrows(log: seq<seq<Byte>>, at: seq<nat>, k: Key, f: seq<Byte>)
    requires Chain(log, at, k) && AllMore(log, at, k)
    requires Whole(f) && KeyOf(f) == k && FragOf(f) == FragByte(|at| - 1) + 1 && FragOf(f) != 0
    ensures var l, b := log + [f], at + [|log|];
            Chain(l, b, k) && FragOf(f) == FragByte(|b| - 1) && Join(l, b, k) == Join(log, at, k) + Payload(f) &&
            Chain(l, b[..|b| - 1], k) && AllMore(l, b[..|b| - 1], k)
  {
    FragBound(f, |at|);
    JoinLater(log, at, k, f);
    ChainExtended(log + [f], at, k, |log|);
  }

  /** A chain continued by the fragment at a later position. */
  lemma ChainExtended(l: seq<seq<Byte>>, at: seq<nat>, k: Key, p: nat)
    requires Chain(l, at, k) && |at| < 16 && at[|at| - 1] < p < |l|
    requires Whole(l[p]) && KeyOf(l[p]) == k && FragOf(l[p]) == FragByte(|at|)
    ensures var b := at + [p];
            Chain(l, b, k) && Join(l, b, k) == Join(l, at, k) + Payload(l[p]) && b[..|b| - 1] == at
  {
    assert (at + [p])[..|at|] == at;
  }

  // ---- The invariant ----

  /** No two live entries have the same key. */
  ghost predicate Unique(s: Slots, now: nat, hz: nat) {
    forall i, j {:trigger s[i], s[j]} :: 0 <= i < j < CACHE_LEN && Live(s[i], now, hz) && Live(s[j], now, hz) ==>
        s[i].key != s[j].key
  }

  ghost predicate AllBacked(s: Slots, log: seq<seq<Byte>>, now: nat, hz: nat) {
    forall i {:trigger s[i]} :: 0 <= i < CACHE_LEN && Live(s[i], now, hz) ==> Backed(s[i], log)
  }

  ghost predicate Inv(st: State, log: seq<seq<Byte>>, now: nat, hz: nat) {
    st.next < CACHE_LEN && Unique(st.slots, now, hz) && AllBacked(st.slots, log, now, hz)
  }

  /** A first fragment comes while an entry that it does not replace is still live under its key. */
  predicate Clash(st: State, f: seq<Byte>, now: nat, hz: nat, mem: bool)
    requires Whole(f)
  {
    FragOf(f) == 0 && mem && exists j :: 0 <= j < CACHE_LEN && j != st.next && HoldsKey(st.slots[j], KeyOf(f), now, hz)
  }

  /** Entries of other keys, and of this one except slot i, are as they were before. */
  lemma OthersKept(st: State, log: seq<seq<Byte>>, f: seq<Byte>, now: nat, hz: nat, s: Slots, i: nat)
    requires Inv(st, log, now, hz) && i < CACHE_LEN
    requires forall j {:trigger s[j]} :: 0 <= j < CACHE_LEN && j != i && Live(s[j], now, hz) ==> s[j] == st.slots[j]
    requires Live(s[i], now, hz) ==>
               Backed(s[i], log + [f]) &&
               forall j {:trigger s[j]} :: 0 <= j < CACHE_LEN && j != i && Live(s[j], now, hz) ==>
                 s[j].key != s[i].key
    ensures Unique(s, now, hz) && AllBacked(s, log + [f], now, hz)
  {
    forall j | 0 <= j < CACHE_LEN && j != i && Live(s[j], now, hz) ensures Backed(s[j], log + [f]) {
      assert s[j] == st.slots[j];
      BackedLater(s[j], log, f);
    }
    forall a, b | 0 <= a < b < CACHE_LEN && Live(s[a], now, hz) && Live(s[b], now, hz) ensures s[a].key != s[b].key {
      if a != i && b != i {
        assert s[a] == st.slots[a] && s[b] == st.slots[b];
      }
    }
  }

  /** Slot i of s got the fragment and is to be freed by its key; no other live slot has that key. */
  lemma FreedHere(st: State, log: seq<seq<Byte>>, f: seq<Byte>, now: nat, hz: nat, s: Slots, i: nat)
    requires Inv(st, log, now, hz) && Whole(f) && i < CACHE_LEN && HoldsKey(s[i], KeyOf(f), now, hz)
    requires forall j {:trigger s[j]} :: 0 <= j < CACHE_LEN && j != i && Live(s[j], now, hz) ==>
               s[j] == st.slots[j] && s[j].key != KeyOf(f)
    ensures var d := Invalidated(s, KeyOf(f), now, hz);
            d[i] == Free && Unique(d, now, hz) && AllBacked(d, log + [f], now, hz)
  {
    var d := Invalidated(s, KeyOf(f), now, hz);
    InvalidatedFrees(s, KeyOf(f), now, hz, i);
    OthersKept(st, log, f, now, hz, d, i);
  }

  lemma FirstStep(st: State, log: seq<seq<Byte>>, f: seq<Byte>, now: nat, lim: Limits, mem: bool)
    requires Inv(st, log, now, lim.hz) && Whole(f) && FragOf(f) == 0 && More(f) && !Clash(st, f, now, lim.hz, mem)
    ensures Inv(Arrive(st, f, now, lim, mem).0, log + [f], now, lim.hz) && !Arrive(st, f, now, lim, mem).1.Complete?
  {
    var i := st.next;
    if !mem {
      if Live(st.slots[i], now, lim.hz) { BackedLater(st.slots[i], log, f); }
      OthersKept(st, log, f, now, lim.hz, st.slots, i);
    } else {
      var e := Entered(st, f, now, lim.hz, mem).0.slots;
      var s := e[i := e[i].(data := f)];
      assert e[i].data + Part(f) == f;
      if |f| > lim.capacity {
        FreedHere(st, log, f, now, lim.hz, e, i);
      } else {
        assert BackedBy(s[i], log + [f], [|log|]);
        OthersKept(st, log, f, now, lim.hz, s, i);
      }
    }
  }

  lemma NextStep(st: State, log: seq<seq<Byte>>, f: seq<Byte>, now: nat, lim: Limits, mem: bool)
    requires Inv(st, log, now, lim.hz) && Whole(f) && FragOf(f) != 0
    ensures var r := Arrive(st, f, now, lim, mem);
            Inv(r.0, log + [f], now, lim.hz) && (r.1.Complete? ==> Reassembled(log + [f], r.1.msdu))
  {
    var k := KeyOf(f);
    SearchFinds(st.slots, k, Some(FragOf(f)), now, lim.hz, 0);
    var q := Search(st.slots, k, Some(FragOf(f)), now, lim.hz, 0);
    if q.1 == CACHE_LEN {
      if Live(q.0[0], now, lim.hz) { BackedLater(st.slots[0], log, f); }
      OthersKept(st, log, f, now, lim.hz, q.0, 0);
    } else {
      FoundStep(st, log, f, now, lim, mem, q.1);
    }
  }

  lemma FoundStep(st: State, log: seq<seq<Byte>>, f: seq<Byte>, now: nat, lim: Limits, mem: bool, i: nat)
    requires Inv(st, log, now, lim.hz) && Whole(f) && FragOf(f) != 0 && i < CACHE_LEN
    requires i == Search(st.slots, KeyOf(f), Some(FragOf(f)), now, lim.hz, 0).1
    ensures var r := Arrive(st, f, now, lim, mem);
            Inv(r.0, log + [f], now, lim.hz) && (r.1.Complete? ==> Reassembled(log + [f], r.1.msdu))
  {
    var was := st.slots[i];
    var e := Entered(st, f, now, lim.hz, mem).0.slots;
    EnteredAt(st, log, f, now, lim.hz, mem, i);
    var at: seq<nat> :| BackedBy(was, log, at);
    ChainGrows(log, at, was.key, f);
    var l, b := log + [f], at + [|log|];
    var data := was.data + Payload(f);
    if |data| > lim.capacity {
      FreedHere(st, log, f, now, lim.hz, e, i);
    } else {
      var s := e[i := Held(was.first, KeyOf(f), FragOf(f), data)];
      if More(f) {
        assert BackedBy(s[i], l, b);
        OthersKept(st, log, f, now, lim.hz, s, i);
      } else {
        FreedHere(st, log, f, now, lim.hz, s, i);
        assert Chain(l, b, KeyOf(f)) && data == Join(l, b, KeyOf(f));
      }
    }
  }

  /** The slots after a fragment was found to continue slot i. */
  lemma EnteredAt(st: State, log: seq<seq<Byte>>, f: seq<Byte>, now: nat, hz: nat, mem: bool, i: nat)
    requires Inv(st, log, now, hz) && Whole(f) && FragOf(f) != 0 && i < CACHE_LEN
    requires i == Search(st.slots, KeyOf(f), Some(FragOf(f)), now, hz, 0).1
    ensures var e, was := Entered(st, f, now, hz, mem), st.slots[i];
            e.1 == i && Live(was, now, hz) && was.key == KeyOf(f) && FragOf(f) == was.last + 1 &&
            e.0.slots[i] == Held(was.first, KeyOf(f), FragOf(f), was.data) &&
            forall j {:trigger e.0.slots[j]} :: 0 <= j < CACHE_LEN && j != i && Live(e.0.slots[j], now, hz) ==>
              e.0.slots[j] == st.slots[j] && e.0.slots[j].key != KeyOf(f)
  {
    SearchFinds(st.slots, KeyOf(f), Some(FragOf(f)), now, hz, 0);
  }

  // ---- Runs ----

  datatype Arrival = Arrival(frame: seq<Byte>, now: nat, mem: bool)

  /** A fragment as ieee80211_rx passes it on: of an MSDU with more than one. */
  predicate IsFragment(f: seq<Byte>) {
    Whole(f) && (FragOf(f) != 0 || More(f))
  }

  function FramesOf(run: seq<Arrival>): seq<seq<Byte>> {
    if run == [] then [] else FramesOf(run[..|run| - 1]) + [run[|run| - 1].frame]
  }

  predicate Timely(run: seq<Arrival>) {
    (forall i {:trigger run[i]} :: 0 <= i < |run| ==> IsFragment(run[i].frame)) &&
    forall i, j {:trigger run[i], run[j]} :: 0 <= i <= j < |run| ==> run[i].now <= run[j].now
  }

  function After(run: seq<Arrival>, lim: Limits): (st: State)
    requires Timely(run)
    ensures st.next < CACHE_LEN
  {
    if run == [] then EMPTY_CACHE else
      var a := run[|run| - 1];
      Arrive(After(run[..|run| - 1], lim), a.frame, a.now, lim, a.mem).0
  }

  ghost predicate NoClash(run: seq<Arrival>, lim: Limits)
    requires Timely(run)
  {
    run == [] || (NoClash(run[..|run| - 1], lim) &&
                  var a := run[|run| - 1]; !Clash(After(run[..|run| - 1], lim), a.frame, a.now, lim.hz, a.mem))
  }

  lemma LaterInv(st: State, log: seq<seq<Byte>>, t: nat, now: nat, hz: nat)
    requires Inv(st, log, t, hz) && t <= now
    ensures Inv(st, log, now, hz)
  {
    assert forall i {:trigger st.slots[i]} :: 0 <= i < CACHE_LEN && Live(st.slots[i], now, hz) ==>
             Live(st.slots[i], t, hz);
  }

  /** In every run with loss, duplicates, reordering, eviction and expiry in which no first fragment comes
      while its key is live, everything handed out is one whole MSDU. */
  lemma {:induction false} EveryRun(run: seq<Arrival>, lim: Limits)
    requires Timely(run) && NoClash(run, lim) && run != []
    ensures var a := run[|run| - 1];
            var r := Arrive(After(run[..|run| - 1], lim), a.frame, a.now, lim, a.mem);
            Inv(r.0, FramesOf(run), a.now, lim.hz) && (r.1.Complete? ==> Reassembled(FramesOf(run), r.1.msdu))
    decreases |run|
  {
    var n := |run| - 1;
    var a, st, log := run[n], After(run[..n], lim), FramesOf(run[..n]);
    if n > 0 {
      EveryRun(run[..n], lim);
      LaterInv(st, log, run[n - 1].now, a.now, lim.hz);
    }
    AnyStep(st, log, a.frame, a.now, lim, a.mem);
  }

  /** One step of a run. */
  lemma AnyStep(st: State, log: seq<seq<Byte>>, f: seq<Byte>, now: nat, lim: Limits, mem: bool)
    requires Inv(st, log, now, lim.hz) && IsFragment(f) && !Clash(st, f, now, lim.hz, mem)
    ensures var r := Arrive(st, f, now, lim, mem);
            Inv(r.0, log + [f], now, lim.hz) && (r.1.Complete? ==> Reassembled(log + [f], r.1.msdu))
  {
    if FragOf(f) == 0 {
      FirstStep(st, log, f, now, lim, mem);
    } else {
      NextStep(st, log, f, now, lim, mem);
    }
  }

  // ---- When keys clash ----

  /** A first fragment that fits leaves the keys of live entries distinct unless it clashes. */
  lemma ClashBreaksUnique(st: State, f: seq<Byte>, now: nat, lim: Limits, mem: bool)
    requires st.next < CACHE_LEN && Unique(st.slots, now, lim.hz) && Whole(f) && FragOf(f) == 0 && More(f) &&
             |f| <= lim.capacity
    ensures Unique(Arrive(st, f, now, lim, mem).0.slots, now, lim.hz) <==> !Clash(st, f, now, lim.hz, mem)
  {
    if mem {
      var i, s := st.next, Arrive(st, f, now, lim, mem).0.slots;
      assert Live(s[i], now, lim.hz) && s[i].key == KeyOf(f);
      assert forall j {:trigger s[j]} :: 0 <= j < CACHE_LEN && j != i ==> s[j] == st.slots[j];
      if Clash(st, f, now, lim.hz, mem) {
        var j :| 0 <= j < CACHE_LEN && j != i && HoldsKey(st.slots[j], KeyOf(f), now, lim.hz);
        assert s[j].key == s[i].key && (if i < j then s[i].key == s[j].key else s[j].key == s[i].key);
      } else {
        forall a, b | 0 <= a < b < CACHE_LEN && Live(s[a], now, lim.hz) &&
          Live(s[b], now, lim.hz) ensures s[a].key != s[b].key {
          assert a != i ==> s[a] == st.slots[a];
          assert b != i ==> s[b] == st.slots[b];
        }
      }
    }
  }

  /** The entry an MSDU is handed out of is released only if no slot before it is live under the same key:
      invalidation goes by key. */
  lemma ReleasedOnlyIfFirst(st: State, f: seq<Byte>, now: nat, lim: Limits, mem: bool)
    requires st.next < CACHE_LEN && Whole(f) && FragOf(f) != 0 && Arrive(st, f, now, lim, mem).1.Complete?
    ensures var i := Entered(st, f, now, lim.hz, mem).1;
            Arrive(st, f, now, lim, mem).0.slots[i] == Free <==>
            forall j :: 0 <= j < i ==> !HoldsKey(st.slots[j], KeyOf(f), now, lim.hz)
  {
    SearchFinds(st.slots, KeyOf(f), Some(FragOf(f)), now, lim.hz, 0);
    var e := Entered(st, f, now, lim.hz, mem);
    var i := e.1;
    var s := e.0.slots[i := e.0.slots[i].(data := e.0.slots[i].data + Part(f))];
    InvalidatedFrees(s, KeyOf(f), now, lim.hz, i);
    assert forall j {:trigger s[j]} :: 0 <= j < i ==>
             (HoldsKey(s[j], KeyOf(f), now, lim.hz) <==> HoldsKey(st.slots[j], KeyOf(f), now, lim.hz));
  }
}
