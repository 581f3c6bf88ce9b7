/** ieee80211/ieee80211_softmac.c: the transmit queue that parks the rest of a fragmented frame while
    the hardware is full. */
module TxQueue {
  import opened Options

  const MGMT_QUEUE_NUM: nat := 5

  /** What is handed to the hardware. */
  datatype Item<F> = Data(frag: F) | Mgmt

  /** The data fragments among the items, in order. */
  function DataOf<F>(log: seq<Item<F>>): seq<F> {
    if log == [] then [] else
      DataOf(log[..|log| - 1]) + match log[|log| - 1] { case Data(f) => [f] case Mgmt => [] }
  }

  lemma DataOfOneMore<F>(log: seq<Item<F>>, x: Item<F>)
    ensures DataOf(log + [x]) == DataOf(log) + match x { case Data(f) => [f] case Mgmt => [] }
  {
    assert (log + [x])[..|log|] == log;
  }

  /** Parts of transmitted frames, one after the other. */
  function Flatten<F>(parts: seq<seq<F>>): seq<F> {
    if parts == [] then [] else Flatten(parts[..|parts| - 1]) + parts[|parts| - 1]
  }

  lemma FlattenOneMore<F>(parts: seq<seq<F>>, p: seq<F>)
    ensures Flatten(parts + [p]) == Flatten(parts) + p
  {
    assert (parts + [p])[..|parts|] == parts;
  }

  predicate Suffix<F(==)>(s: seq<F>, t: seq<F>) {
    |s| <= |t| && t[|t| - |s|..] == s
  }

  lemma SuffixOfSuffix<F>(a: seq<F>, b: seq<F>, c: seq<F>)
    requires Suffix(a, b) && Suffix(b, c)
    ensures Suffix(a, c)
  {
    assert c[|c| - |a|..] == c[|c| - |b|..][|b| - |a|..];
  }

  /** The frames among the events that were accepted. */
  function Taken<F>(events: seq<Event<F>>, taken: seq<bool>): seq<seq<F>>
    requires |taken| == |events|
  {
    var n := |events|;
    if n == 0 then [] else
      Taken(events[..n - 1], taken[..n - 1]) + if taken[n - 1] && events[n - 1].Xmit? then [events[n - 1].txb] else []
  }

  /** Everything that can happen to the queue; a Stop comes from the driver at any time. */
  datatype Event<F> = Xmit(txb: seq<F>) | SendMgmt | Wake | Stop | Reset

  class Queue<F> {
    /** The driver calls back to stop the queue after its n-th item when stops(n). */
    const stops: nat -> bool
    const single: bool
    var queueStop: bool
    var netifStopped: bool
    /** The txb whose fragments from frag on are still to be sent. */
    var pending: Option<seq<F>>
    var frag: nat
    /** Management frames waiting in the ring. */
    var mgmtQueued: nat
    /** The number of items handed to the driver so far, and the items. */
    var handed: nat
    ghost var log: seq<Item<F>>

    constructor (stops: nat -> bool, single: bool)
      ensures Valid() && log == [] && Parked() == []
    {
      this.stops, this.single := stops, single;
      queueStop, netifStopped, pending, frag, mgmtQueued, handed := false, false, None, 0, 0, 0;
      log := [];
    }

    /** A running queue has nothing parked, and something parked means fragments left to send. */
    ghost predicate Valid()
      reads this
    {
      (!queueStop ==> pending.None?) && (pending.Some? ==> frag < |pending.value|) && mgmtQueued < MGMT_QUEUE_NUM
    }

    ghost function Sent(): seq<F>
      reads this
    {
      DataOf(log)
    }

    ghost function Parked(): seq<F>
      reads this
    {
      if pending.Some? && frag <= |pending.value| then pending.value[frag..] else []
    }

    /** ieee80211_stop_queue. */
    method StopQueue()
      modifies `queueStop, `netifStopped
      ensures queueStop
    {
      netifStopped := true;
      queueStop := true;
    }

    /** The driver takes one item and may stop the queue. */
    method Hand(x: Item<F>)
      modifies `queueStop, `netifStopped, `log, `handed
      ensures log == old(log) + [x] && (old(queueStop) ==> queueStop)
    {
      log := log + [x];
      handed := handed + 1;
      if stops(handed) {
        StopQueue();
      }
    }

    /** ieee80211_softmac_xmit: a frame is refused while another is parked; an accepted one is sent as
        far as the hardware takes it, and the rest parked. */
    method Xmit(txb: seq<F>) returns (accepted: bool)
      requires Valid()
      modifies this
      ensures Valid()
      ensures accepted <==> !(old(queueStop) && old(pending.Some?))
      ensures Sent() + Parked() == old(Sent() + Parked()) + if accepted then txb else []
      ensures !accepted ==> log == old(log) && pending == old(pending) && frag == old(frag)
      ensures accepted ==> Suffix(Parked(), txb)
    {
      if queueStop && pending.Some? {
        return false;
      }
      for i := 0 to |txb|
        invariant Valid() && pending.None? && Sent() == old(Sent()) + txb[..i]
      {
        assert txb[..i + 1] == txb[..i] + [txb[i]];
        if queueStop {
          pending := Some(txb);
          frag := i;
          assert txb == txb[..i] + txb[i..];
          return true;
        }
        DataOfOneMore(log, Data(txb[i]));
        Hand(Data(txb[i]));
      }
      assert txb[..|txb|] == txb;
      return true;
    }

    /** ieee80211_resume_tx. */
    method ResumeTx()
      requires pending.Some? && frag < |pending.value| && !queueStop && mgmtQueued < MGMT_QUEUE_NUM
      modifies this
      ensures Valid() && Sent() + Parked() == old(Sent() + Parked()) && mgmtQueued == old(mgmtQueued)
      ensures Suffix(Parked(), old(Parked()))
    {
      ghost var rest := pending.value[frag..];
      var start := frag;
      for i := start to |pending.value|
        invariant pending == old(pending) && frag == start && mgmtQueued == old(mgmtQueued)
        invariant Sent() == old(Sent()) + rest[..i - start]
      {
        assert rest == rest[..i - start] + pending.value[i..];
        if queueStop {
          frag := i;
          return;
        }
        assert rest[..i + 1 - start] == rest[..i - start] + [pending.value[i]];
        DataOfOneMore(log, Data(pending.value[i]));
        Hand(Data(pending.value[i]));
      }
      assert rest[..|rest|] == rest;
      pending := None;
    }

    /** ieee80211_wake_queue: first the waiting management frames, then the parked fragments. */
    method WakeQueue()
      requires Valid()
      modifies this
      ensures Valid() && Sent() + Parked() == old(Sent() + Parked()) && Suffix(Parked(), old(Parked()))
    {
      if !queueStop {
        return;
      }
      queueStop := false;
      if single {
        while !queueStop && mgmtQueued > 0
          invariant pending == old(pending) && frag == old(frag) && Sent() == old(Sent()) && mgmtQueued < MGMT_QUEUE_NUM
          decreases mgmtQueued
        {
          mgmtQueued := mgmtQueued - 1;
          DataOfOneMore(log, Mgmt);
          Hand(Mgmt);
        }
      }
      if !queueStop && pending.Some? {
        ResumeTx();
      }
      if !queueStop && netifStopped {
        netifStopped := false;
      }
    }

    /** softmac_mgmt_xmit. */
    method SendMgmt()
      requires Valid()
      modifies this
      ensures Valid() && Sent() == old(Sent()) && Parked() == old(Parked())
    {
      if single && queueStop {
        if mgmtQueued + 1 < MGMT_QUEUE_NUM {
          mgmtQueued := mgmtQueued + 1;
        }
      } else {
        DataOfOneMore(log, Mgmt);
        Hand(Mgmt);
      }
    }

    /** ieee80211_reset_queue drops exactly what was parked. */
    method ResetQueue()
      requires Valid()
      modifies this
      ensures Valid() && Sent() == old(Sent()) && Parked() == [] && !queueStop && mgmtQueued == 0
    {
      mgmtQueued := 0;
      pending := None;
      queueStop := false;
    }

    ghost predicate Accounts(accepted: seq<seq<F>>, parts: seq<seq<F>>, before: seq<F>)
      reads this
    {
      Contributed(accepted, parts, before, Sent(), Parked())
    }

    /** One event of a run. */
    method Perform(ev: Event<F>, ghost acc: seq<seq<F>>, ghost parts: seq<seq<F>>, ghost before: seq<F>)
      returns (ghost ok: bool, ghost parts': seq<seq<F>>)
      requires Valid() && Accounts(acc, parts, before)
      modifies this
      ensures Valid() && Accounts(if ok && ev.Xmit? then acc + [ev.txb] else acc, parts', before)
      ensures !ev.Reset? && parts == acc ==> parts' == if ok && ev.Xmit? then acc + [ev.txb] else acc
    {
      ghost var sent, parked := Sent(), Parked();
      parts' := parts;
      match ev
      case Xmit(txb) =>
        var accepted := Xmit(txb);
        ok := accepted;
        if accepted {
          parts' := parts + [txb];
          Contributes(acc, parts, before, sent, parked, txb, Sent(), Parked());
        }
      case SendMgmt => SendMgmt(); ok := true;
      case Wake =>
        WakeQueue();
        Progresses(acc, parts, before, sent, parked, Sent(), Parked());
        ok := true;
      case Stop => StopQueue(); ok := true;
      case Reset =>
        parts' := ResetParts(acc, parts, before, sent, parked);
        ResetQueue();
        ok := true;
    }

    /** Any run of the queue, with any behaviour of the hardware: the fragments sent and parked are the
        accepted frames' fragments, each once and in order; a reset takes away no more than what was parked. */
    method Execute(events: seq<Event<F>>) returns (ghost taken: seq<bool>, ghost parts: seq<seq<F>>)
      requires Valid() && Parked() == []
      modifies this
      ensures Valid() && |taken| == |events|
      ensures Accounts(Taken(events, taken), parts, old(Sent()))
      ensures Reset !in events ==> parts == Taken(events, taken)
    {
      ghost var before := Sent();
      taken, parts := [], [];
      for i := 0 to |events|
        invariant Valid() && |taken| == i && Accounts(Taken(events[..i], taken), parts, before)
        invariant Reset !in events[..i] ==> parts == Taken(events[..i], taken)
      {
        ghost var acc := Taken(events[..i], taken);
        assert events[..i + 1][..i] == events[..i] && events[..i + 1] == events[..i] + [events[i]];
        ghost var ok;
        ok, parts := Perform(events[i], acc, parts, before);
        taken := taken + [ok];
        assert taken[..i] == taken[..|taken| - 1];
        assert Taken(events[..i + 1], taken) == if ok && events[i].Xmit? then acc + [events[i].txb] else acc;
      }
      assert events[..|events|] == events;
    }
  }

  // ---- What a run has done with the accepted frames ----

  ghost predicate Part<F>(accepted: seq<seq<F>>, parts: seq<seq<F>>, i: nat)
    requires i < |parts| && i < |accepted|
  {
    parts[i] <= accepted[i]
  }

  /** The accepted frames' contributions: the whole frame, unless a reset dropped its parked rest. */
  ghost predicate Contributed<F>(accepted: seq<seq<F>>, parts: seq<seq<F>>, before: seq<F>, sent: seq<F>,
                                 parked: seq<F>) {
    |parts| == |accepted| &&
      (forall i: nat {:trigger Part(accepted, parts, i)} :: i < |parts| ==> Part(accepted, parts, i)) &&
    sent + parked == before + Flatten(parts) &&
    (parked == [] || (parts != [] && Suffix(parked, parts[|parts| - 1])))
  }

  lemma Contributes<F>(accepted: seq<seq<F>>, parts: seq<seq<F>>, before: seq<F>, sent: seq<F>, parked: seq<F>,
                       txb: seq<F>, sent': seq<F>, parked': seq<F>)
    requires Contributed(accepted, parts, before, sent, parked) && sent' + parked' == sent + parked + txb &&
             Suffix(parked', txb)
    ensures Contributed(accepted + [txb], parts + [txb], before, sent', parked')
  {
    FlattenOneMore(parts, txb);
    forall i: nat {:trigger Part(accepted + [txb], parts + [txb], i)} | i <= |parts|
      ensures Part(accepted + [txb], parts + [txb], i)
    {
      if i < |parts| { assert Part(accepted, parts, i); }
    }
    assert before + Flatten(parts) + txb == before + (Flatten(parts) + txb);
  }

  lemma Progresses<F>(accepted: seq<seq<F>>, parts: seq<seq<F>>, before: seq<F>, sent: seq<F>, parked: seq<F>,
                      sent': seq<F>, parked': seq<F>)
    requires Contributed(accepted, parts, before, sent, parked) && sent' + parked' == sent + parked &&
             Suffix(parked', parked)
    ensures Contributed(accepted, parts, before, sent', parked')
  {
    if parked != [] { SuffixOfSuffix(parked', parked, parts[|parts| - 1]); }
  }

  lemma ResetParts<F>(accepted: seq<seq<F>>, parts: seq<seq<F>>, before: seq<F>, sent: seq<F>,
                      parked: seq<F>) returns (cut: seq<seq<F>>)
    requires Contributed(accepted, parts, before, sent, parked)
    ensures Contributed(accepted, cut, before, sent, [])
  {
    cut := parts;
    if parked != [] {
      var n := |parts| - 1;
      var kept := parts[n][..|parts[n]| - |parked|];
      cut := parts[..n] + [kept];
      FlattenOneMore(parts[..n], kept);
      assert parts == parts[..n] + [parts[n]];
      FlattenOneMore(parts[..n], parts[n]);
      assert parts[n] == kept + parked;
      Cancel(sent, before + Flatten(cut), parked);
      forall i: nat {:trigger Part(accepted, cut, i)} | i < |cut| ensures Part(accepted, cut, i) {
        assert Part(accepted, parts, i);
      }
    }
  }

  lemma Cancel<F>(a: seq<F>, b: seq<F>, p: seq<F>)
    requires a + p == b + p
    ensures a == b
  {
    assert |a| == |b| && a == (a + p)[..|a|] && b == (b + p)[..|b|];
  }
}
