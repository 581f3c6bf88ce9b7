/** ieee80211/ieee80211_softmac.c: the managed-mode association machine. Work items and the timer are
    flags; their handlers, frames and user calls are atomic events. */
module Association {

  datatype Link = NoLink | Associating | Authenticating | Authenticated | Retry | Linked

  datatype Sta = Sta(link: Link, started: bool, procPending: bool, retryPending: bool, timerArmed: bool)

  /** alloc says whether the frame to be sent could be allocated; matches and found, whether a network
      the user asked for is there. */
  datatype Event =
    | NewNet(matches: bool)
    | Procedure(alloc: bool)
    | AuthResp(status: nat, challenge: bool, alloc: bool)
    | AssocResp(status: nat, alloc: bool)
    | Deauth
    | TimerFires
    | RetryRuns(found: bool)
    | Stop
    | Start(channel: bool, found: bool)

  const IDLE := Sta(NoLink, false, false, false, false)

  // ---- The transitions ----

  function Abort(s: Sta): Sta { s.(link := Retry, retryPending := true) }

  function NetFound(s: Sta, matches: bool): Sta {
    if s.link == NoLink && matches then s.(link := Associating, procPending := true) else s
  }

  function Step(openWep: bool, s: Sta, ev: Event): Sta {
    match ev
    case NewNet(matches) => NetFound(s, matches)
    case Procedure(alloc) =>
      if !s.procPending then s else
        var t := s.(procPending := false);
        if alloc then t.(link := Authenticating, timerArmed := true) else Abort(t)
    case AuthResp(status, challenge, alloc) =>
      if !s.started || s.link != Authenticating then s
      else if status != 0 then Abort(s)
      else if openWep || !challenge then
        var t := s.(link := Authenticated, timerArmed := false);
        if alloc then t.(timerArmed := true) else Abort(t)
      else if alloc then s.(timerArmed := true) else Abort(s)
    case AssocResp(status, _) =>
      if !s.started || s.link != Authenticated then s
      else if status == 0 then s.(link := Linked, timerArmed := false) else Abort(s)
    case Deauth =>
      if s.started && s.link == Linked then s.(link := Associating, procPending := true) else s
    case TimerFires =>
      if s.timerArmed then Abort(s.(timerArmed := false)) else s
    case RetryRuns(found) =>
      if !s.retryPending then s else
        var t := s.(retryPending := false);
        if s.started && s.link == Retry then NetFound(t.(link := NoLink), found) else t
    case Stop =>
      if s.started then s.(link := NoLink, started := false, retryPending := false, timerArmed := false) else s
    case Start(channel, found) =>
      if s.started then s
      else if channel then NetFound(s.(started := true), found) else s.(started := true)
  }

  // ---- What every run keeps ----

  /** Every waiting state has something that will end it. */
  predicate Live(s: Sta) {
    s.started ==>
      (s.link == Associating ==> s.procPending) &&
      (s.link == Authenticating || s.link == Authenticated ==> s.timerArmed) &&
      (s.link == Retry ==> s.retryPending)
  }

  /** Besides, nothing is left over while stopped, and no attempt is queued behind a running one. */
  predicate Inv(s: Sta) {
    Live(s) && (!s.started ==> s == IDLE) &&
    (s.procPending ==> s.link == Associating || s.link == Retry || s.link == NoLink) &&
    (s.link == Linked ==> !s.timerArmed)
  }

  /** Stopping does not cancel a queued association attempt, and networks are matched even while
      stopped: either leaves an attempt that outlives the stop. */
  predicate Hazard(s: Sta, ev: Event) {
    (ev.Stop? && s.started && s.procPending) || (ev.NewNet? && ev.matches && !s.started && s.link == NoLink)
  }

  function After(openWep: bool, s: Sta, evs: seq<Event>): Sta
    decreases |evs|
  {
    if evs == [] then s else After(openWep, Step(openWep, s, evs[0]), evs[1..])
  }

  predicate Harmless(openWep: bool, s: Sta, evs: seq<Event>)
    decreases |evs|
  {
    evs == [] || (!Hazard(s, evs[0]) && Harmless(openWep, Step(openWep, s, evs[0]), evs[1..]))
  }

  lemma StepKeepsInv(openWep: bool, s: Sta, ev: Event)
    requires Inv(s) && !Hazard(s, ev)
    ensures Inv(Step(openWep, s, ev))
  {
  }

  lemma {:induction false} HarmlessKeepsInv(openWep: bool, s: Sta, evs: seq<Event>)
    requires Inv(s) && Harmless(openWep, s, evs)
    ensures Inv(After(openWep, s, evs))
    decreases |evs|
  {
    if evs != [] {
      StepKeepsInv(openWep, s, evs[0]);
      HarmlessKeepsInv(openWep, Step(openWep, s, evs[0]), evs[1..]);
    }
  }

  /** Started, waiting to retry, and nothing pending at all. */
  predicate Stuck(s: Sta) {
    s == Sta(Retry, true, false, false, false)
  }

  /** Only stopping the protocol helps a stuck machine. */
  lemma StuckStays(openWep: bool, s: Sta, ev: Event)
    requires Stuck(s)
    ensures ev.Stop? <==> Step(openWep, s, ev) != s
  {
  }

  /** The leftover attempt runs, times out, gives up because the protocol is stopped, and the protocol
      is started again. */
  function GetStuck(): seq<Event> { [Procedure(true), TimerFires, RetryRuns(false), Start(true, true)] }

  lemma HazardSticks(openWep: bool, s: Sta, ev: Event)
    requires Inv(s) && Hazard(s, ev)
    ensures Stuck(After(openWep, Step(openWep, s, ev), GetStuck())) &&
            Harmless(openWep, Step(openWep, s, ev), GetStuck())
  {
    var s0 := Step(openWep, s, ev);
    var s1 := Step(openWep, s0, Procedure(true));
    var s2 := Step(openWep, s1, TimerFires);
    var s3 := Step(openWep, s2, RetryRuns(false));
    var s4 := Step(openWep, s3, Start(true, true));
    assert s4 == Sta(Retry, true, false, false, false);
    var e := GetStuck();
    assert e[1..] == [TimerFires, RetryRuns(false), Start(true, true)] &&
           e[1..][1..] == [RetryRuns(false), Start(true, true)];
    assert e[1..][1..][1..] == [Start(true, true)] && e[1..][1..][1..][1..] == [];
    assert After(openWep, s3, [Start(true, true)]) == s4;
    assert After(openWep, s2, e[1..][1..]) == s4;
    assert After(openWep, s1, e[1..]) == s4;
    assert Harmless(openWep, s3, [Start(true, true)]);
    assert Harmless(openWep, s2, e[1..][1..]);
    assert Harmless(openWep, s1, e[1..]);
  }

  /** If the continuation evs is harmless, the machine is live at its end. */
  predicate StaysLive(openWep: bool, s: Sta, evs: seq<Event>) {
    Harmless(openWep, s, evs) ==> Live(After(openWep, s, evs))
  }

  /** Exactly the hazardous events can spoil the future: after any other event, every harmless
      continuation stays live; after a hazardous one, some continuation gets stuck. */
  lemma LiveIffNoHazard(openWep: bool, s: Sta, ev: Event)
    requires Inv(s)
    ensures !Hazard(s, ev) <==> forall evs: seq<Event> :: StaysLive(openWep, Step(openWep, s, ev), evs)
  {
    var t := Step(openWep, s, ev);
    if Hazard(s, ev) {
      HazardSticks(openWep, s, ev);
      assert !StaysLive(openWep, t, GetStuck());
    } else {
      StepKeepsInv(openWep, s, ev);
      forall evs: seq<Event> ensures StaysLive(openWep, t, evs) {
        if Harmless(openWep, t, evs) { HarmlessKeepsInv(openWep, t, evs); }
      }
    }
  }

  // ---- The way to Linked ----

  /** The states of a run of any events whatsoever, from idle. */
  ghost predicate IsRun(openWep: bool, tr: seq<Sta>, evs: seq<Event>) {
    |tr| == |evs| + 1 && tr[0] == IDLE &&
    forall n :: 0 <= n < |evs| ==> tr[n + 1] == Step(openWep, tr[n], evs[n])
  }

  /** Link state l throughout tr[i..j]. */
  predicate Throughout(tr: seq<Sta>, l: Link, i: nat, j: nat) {
    forall n :: i <= n < j && n < |tr| ==> tr[n].link == l
  }

  lemma EnterLinked(openWep: bool, s: Sta, ev: Event)
    requires s.link != Linked && Step(openWep, s, ev).link == Linked
    ensures s.link == Authenticated && ev.AssocResp? && ev.status == 0
  {
  }

  lemma BeforeAuthenticated(openWep: bool, s: Sta, ev: Event)
    requires Step(openWep, s, ev).link == Authenticated
    ensures s.link == Authenticated || (s.link == Authenticating && ev.AuthResp? && ev.status == 0)
  {
  }

  lemma BeforeAuthenticating(openWep: bool, s: Sta, ev: Event)
    requires Step(openWep, s, ev).link == Authenticating
    ensures s.link == Authenticating || ev == Procedure(true)
  {
  }

  /** When a run enters Linked, an accepted association response ended a stretch of Authenticated, which an
      accepted authentication response began, ending a stretch of Authenticating, which an association
      attempt began. */
  lemma LinkedOnlyThrough(openWep: bool, tr: seq<Sta>, evs: seq<Event>, n: nat) returns (a: nat, b: nat)
    requires IsRun(openWep, tr, evs) && n < |evs| && tr[n].link != Linked && tr[n + 1].link == Linked
    ensures 0 < a < b <= n
    ensures evs[n].AssocResp? && evs[n].status == 0 && Throughout(tr, Authenticated, b, n + 1)
    ensures evs[b - 1].AuthResp? && evs[b - 1].status == 0 && Throughout(tr, Authenticating, a, b)
    ensures evs[a - 1] == Procedure(true)
  {
    EnterLinked(openWep, tr[n], evs[n]);
    b := n;
    while tr[b - 1].link == Authenticated
      invariant 0 < b <= n && Throughout(tr, Authenticated, b, n + 1) && tr[b].link == Authenticated
      decreases b
    {
      b := b - 1;
    }
    BeforeAuthenticated(openWep, tr[b - 1], evs[b - 1]);
    a := b - 1;
    while evs[a - 1] != Procedure(true)
      invariant 0 < a < b && Throughout(tr, Authenticating, a, b) && tr[a].link == Authenticating
      decreases a
    {
      BeforeAuthenticating(openWep, tr[a - 1], evs[a - 1]);
      a := a - 1;
    }
  }

  // ---- The handlers ----

  class Softmac {
    const openWep: bool
    var link: Link
    var protoStarted: bool
    var procPending: bool
    var retryPending: bool
    var timerArmed: bool

    constructor (openWep: bool)
      ensures State() == IDLE && this.openWep == openWep
    {
      this.openWep := openWep;
      link, protoStarted, procPending, retryPending, timerArmed := NoLink, false, false, false, false;
    }

    ghost function State(): Sta
      reads this
    {
      Sta(link, protoStarted, procPending, retryPending, timerArmed)
    }

    /** ieee80211_associate_abort. */
    method AssociateAbort()
      modifies this
      ensures State() == Abort(old(State()))
    {
      link := Retry;
      retryPending := true;
    }

    /** ieee80211_associate_step1, for an authentication request that could be allocated or not. */
    method AssociateStep1(alloc: bool)
      modifies this
      ensures State() == if alloc then old(State()).(link := Authenticating, timerArmed := true)
              else Abort(old(State()))
    {
      if !alloc {
        AssociateAbort();
      } else {
        link := Authenticating;
        timerArmed := true;
      }
    }

    /** ieee80211_associate_step2. */
    method AssociateStep2(alloc: bool)
      modifies this
      ensures var t := old(State()).(timerArmed := false);
              State() == if alloc then t.(timerArmed := true) else Abort(t)
    {
      timerArmed := false;
      if !alloc {
        AssociateAbort();
      } else {
        timerArmed := true;
      }
    }

    /** ieee80211_associate_procedure_wq. */
    method AssociateProcedure(alloc: bool)
      requires procPending
      modifies this
      ensures State() == Step(openWep, old(State()), Procedure(alloc))
    {
      procPending := false;
      AssociateStep1(alloc);
    }

    /** ieee80211_softmac_new_net. */
    method NewNet(matches: bool)
      modifies this
      ensures State() == Step(openWep, old(State()), Event.NewNet(matches))
    {
      if link != NoLink {
        return;
      }
      if matches {
        link := Associating;
        procPending := true;
      }
    }

    /** The authentication responses of ieee80211_rx_frame_softmac, and ieee80211_auth_challenge. */
    method RxAuth(status: nat, challenge: bool, alloc: bool)
      modifies this
      ensures State() == Step(openWep, old(State()), AuthResp(status, challenge, alloc))
    {
      if !protoStarted || link != Authenticating {
        return;
      }
      if status == 0 {
        if openWep || !challenge {
          link := Authenticated;
          AssociateStep2(alloc);
        } else if !alloc {
          AssociateAbort();
        } else {
          timerArmed := true;
        }
      } else {
        AssociateAbort();
      }
    }

    /** The association responses, and ieee80211_associate_complete. */
    method RxAssoc(status: nat, alloc: bool)
      modifies this
      ensures State() == Step(openWep, old(State()), AssocResp(status, alloc))
    {
      if !protoStarted || link != Authenticated {
        return;
      }
      if status == 0 {
        link := Linked;
        timerArmed := false;
      } else {
        AssociateAbort();
      }
    }

    /** Disassociation and deauthentication. */
    method RxDeauth()
      modifies this
      ensures State() == Step(openWep, old(State()), Deauth)
    {
      if protoStarted && link == Linked {
        link := Associating;
        procPending := true;
      }
    }

    /** ieee80211_associate_abort_cb. */
    method Timer()
      requires timerArmed
      modifies this
      ensures State() == Step(openWep, old(State()), TimerFires)
    {
      timerArmed := false;
      AssociateAbort();
    }

    /** ieee80211_associate_retry_wq; found is the outcome of looking through the known networks. */
    method AssociateRetry(found: bool)
      requires retryPending
      modifies this
      ensures State() == Step(openWep, old(State()), RetryRuns(found))
    {
      retryPending := false;
      if !protoStarted || link != Retry {
        return;
      }
      link := NoLink;
      NewNet(found);
    }

    /** ieee80211_stop_protocol and ieee80211_disassociate: the queued association attempt stays queued. */
    method StopProtocol()
      modifies this
      ensures State() == Step(openWep, old(State()), Stop)
    {
      if !protoStarted {
        return;
      }
      protoStarted := false;
      timerArmed := false;
      retryPending := false;
      link := NoLink;
    }

    /** ieee80211_start_protocol and ieee80211_start_bss. */
    method StartProtocol(channel: bool, found: bool)
      modifies this
      ensures State() == Step(openWep, old(State()), Start(channel, found))
    {
      if protoStarted {
        return;
      }
      protoStarted := true;
      if channel {
        NewNet(found);
      }
    }
  }
}
