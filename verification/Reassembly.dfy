/** ieee80211/ieee80211_rx.c: the cache in which fragments wait for the rest of their MSDU. */
module Reassembly {
  import opened Bytes
  import opened Options
  import opened Dot11

  const CACHE_LEN: nat := 4

  /** What the fragments of one MSDU have in common. */
  datatype Key = Key(seqNo: (Byte, Byte), src: Mac, dst: Mac)

  /** One entry: the time of its first fragment, its key, the last fragment number and the bytes so far. */
  datatype Slot = Free | Held(first: nat, key: Key, last: Byte, data: seq<Byte>)

  type Slots = s: seq<Slot> | |s| == CACHE_LEN witness [Free, Free, Free, Free]

  datatype State = State(slots: Slots, next: nat)

  const EMPTY_CACHE: State := State([Free, Free, Free, Free], 0)

  /** Room in an entry, and the ticks of one second. */
  datatype Limits = Limits(capacity: nat, hz: nat)

  function KeyOf(f: seq<Byte>): Key
    requires |f| >= HDR_LEN
  {
    Key(SeqOf(f), Addr2(f), Addr1(f))
  }

  predicate Whole(f: seq<Byte>) {
    |f| >= HDR_LEN && |f| >= HdrLen(f)
  }

  function Payload(f: seq<Byte>): seq<Byte>
    requires Whole(f)
  {
    f[HdrLen(f)..]
  }

  predicate Expired(s: Slot, now: nat, hz: nat) {
    s.Held? && now > s.first + 2 * hz
  }

  predicate Live(s: Slot, now: nat, hz: nat) {
    s.Held? && !Expired(s, now, hz)
  }

  /** frag == None asks for an entry whatever its last fragment. */
  predicate Matches(s: Slot, k: Key, frag: Option<Byte>) {
    s.Held? && s.key == k && (frag.None? || s.last + 1 == frag.value)
  }

  // ---- What the cache does with a fragment ----

  /** The search from slot i on frees expired entries as it passes them; CACHE_LEN means not found. */
  function Search(s: Slots, k: Key, frag: Option<Byte>, now: nat, hz: nat, i: nat): (r: (Slots, nat))
    requires i <= CACHE_LEN
    ensures i <= r.1 <= CACHE_LEN
    decreases CACHE_LEN - i
  {
    if i == CACHE_LEN then (s, i) else
      var d := if Expired(s[i], now, hz) then s[i := Free] else s;
      if Matches(d[i], k, frag) then (d, i) else Search(d, k, frag, now, hz, i + 1)
  }

  function Invalidated(s: Slots, k: Key, now: nat, hz: nat): Slots {
    var r := Search(s, k, None, now, hz, 0);
    if r.1 == CACHE_LEN then r.0 else r.0[r.1 := Free]
  }

  /** The entry for a fragment, and its slot or CACHE_LEN; mem says whether there is memory for a new one. */
  function Entered(st: State, f: seq<Byte>, now: nat, hz: nat, mem: bool): (r: (State, nat))
    requires Whole(f) && st.next < CACHE_LEN
    ensures r.1 <= CACHE_LEN && r.0.next < CACHE_LEN && (r.1 < CACHE_LEN ==> r.0.slots[r.1].Held?)
  {
    if FragOf(f) == 0 then
      if !mem then (st, CACHE_LEN) else
        (State(st.slots[st.next := Held(now, KeyOf(f), 0, [])], (st.next + 1) % CACHE_LEN), st.next)
    else
      var r := Search(st.slots, KeyOf(f), Some(FragOf(f)), now, hz, 0);
      if r.1 == CACHE_LEN then (State(r.0, st.next), CACHE_LEN) else
        (State(r.0[r.1 := r.0[r.1].(last := FragOf(f))], st.next), r.1)
  }

  datatype Reply = Rejected | Waiting | Complete(msdu: seq<Byte>)

  function Part(f: seq<Byte>): seq<Byte>
    requires Whole(f)
  {
    if FragOf(f) == 0 then f else Payload(f)
  }

  /** The reassembly section of ieee80211_rx. */
  function Arrive(st: State, f: seq<Byte>, now: nat, lim: Limits, mem: bool): (r: (State, Reply))
    requires Whole(f) && st.next < CACHE_LEN
    ensures r.0.next < CACHE_LEN
  {
    var e := Entered(st, f, now, lim.hz, mem);
    if e.1 == CACHE_LEN then (e.0, Rejected) else
      var data := e.0.slots[e.1].data + Part(f);
      if |data| > lim.capacity then
        (State(Invalidated(e.0.slots, KeyOf(f), now, lim.hz), e.0.next), Rejected)
      else
        var s := e.0.slots[e.1 := e.0.slots[e.1].(data := data)];
        if More(f) then (State(s, e.0.next), Waiting)
        else (State(Invalidated(s, KeyOf(f), now, lim.hz), e.0.next), Complete(data))
  }

  // ---- The same in place ----

  class FragCache {
    const cache: array<Slot>
    const lim: Limits
    var nextIdx: nat

    constructor (lim: Limits)
      ensures Valid() && fresh(cache) && Contents() == EMPTY_CACHE && this.lim == lim
    {
      cache := new Slot[CACHE_LEN](_ => Free);
      this.lim := lim;
      nextIdx := 0;
    }

    ghost predicate Valid()
      reads this
    {
      cache.Length == CACHE_LEN && nextIdx < CACHE_LEN
    }

    ghost function Contents(): State
      requires Valid()
      reads this, cache
    {
      State(cache[..], nextIdx)
    }

    /** ieee80211_frag_cache_find. */
    method Find(k: Key, frag: Option<Byte>, now: nat) returns (i: nat)
      requires Valid()
      modifies cache
      ensures (cache[..], i) == Search(old(cache[..]), k, frag, now, lim.hz, 0)
    {
      ghost var goal := Search(cache[..], k, frag, now, lim.hz, 0);
      i := 0;
      while i < CACHE_LEN
        invariant i <= CACHE_LEN && Search(cache[..], k, frag, now, lim.hz, i) == goal
      {
        if cache[i].Held? && now > cache[i].first + 2 * lim.hz {
          cache[i] := Free;
        }
        if cache[i].Held? && cache[i].key == k && (frag.None? || cache[i].last + 1 == frag.value) {
          return;
        }
        i := i + 1;
      }
    }

    /** ieee80211_frag_cache_get. */
    method Get(f: seq<Byte>, now: nat, mem: bool) returns (i: nat)
      requires Valid() && Whole(f)
      modifies cache, `nextIdx
      ensures Valid() && (Contents(), i) == Entered(old(Contents()), f, now, lim.hz, mem)
    {
      var frag := FragOf(f);
      if frag == 0 {
        if !mem {
          return CACHE_LEN;
        }
        i := nextIdx;
        nextIdx := nextIdx + 1;
        if nextIdx >= CACHE_LEN {
          nextIdx := 0;
        }
        cache[i] := Held(now, KeyOf(f), frag, []);
      } else {
        i := Find(KeyOf(f), Some(frag), now);
        if i < CACHE_LEN {
          cache[i] := cache[i].(last := frag);
        }
      }
    }

    /** ieee80211_frag_cache_invalidate. */
    method Invalidate(k: Key, now: nat)
      requires Valid()
      modifies cache
      ensures cache[..] == Invalidated(old(cache[..]), k, now, lim.hz)
    {
      var i := Find(k, None, now);
      if i < CACHE_LEN {
        cache[i] := Free;
      }
    }

    /** A fragment is entered, appended, and the MSDU handed out when it was the last. */
    method Reassemble(f: seq<Byte>, now: nat, mem: bool) returns (r: Reply)
      requires Valid() && Whole(f)
      modifies cache, `nextIdx
      ensures Valid() && (Contents(), r) == Arrive(old(Contents()), f, now, lim, mem)
    {
      var i := Get(f, now, mem);
      if i == CACHE_LEN {
        return Rejected;
      }
      var data := cache[i].data + if FragOf(f) == 0 then f else f[HdrLen(f)..];
      if |data| > lim.capacity {
        Invalidate(KeyOf(f), now);
        return Rejected;
      }
      cache[i] := cache[i].(data := data);
      if More(f) {
        return Waiting;
      }
      Invalidate(KeyOf(f), now);
      return Complete(data);
    }
  }
}
