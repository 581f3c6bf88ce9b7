/** ieee80211/ieee80211_tx.c and ieee80211/ieee80211_softmac.c together: the queue parks a buffer of the pool,
    not a copy of it, and the pool goes round. */
module TxPath {
  import opened Bytes
  import opened Options
  import opened Dot11
  import opened Transmit
  import opened Sequence
  import TxQueue
  import opened Fragmentation

  /** The number of the last of n frames that was built in place j. */
  function Latest(n: nat, j: nat): (i: nat)
    requires j < MAX_TX_SKB && j < n
    ensures i < n <= i + MAX_TX_SKB && i % MAX_TX_SKB == j
  {
    j + (n - 1 - j) / MAX_TX_SKB * MAX_TX_SKB
  }

  lemma LatestUnique(n: nat, j: nat, i: nat)
    requires j < MAX_TX_SKB && j < n && i < n <= i + MAX_TX_SKB && i % MAX_TX_SKB == j
    ensures Latest(n, j) == i
  {
  }

  /** The next frame takes the place of the one sixteen before it, and leaves the others alone. */
  lemma LatestStep(n: nat, j: nat)
    requires j < MAX_TX_SKB && j <= n
    ensures n % MAX_TX_SKB == j ==> Latest(n + 1, j) == n
    ensures n % MAX_TX_SKB != j ==> j < n && Latest(n + 1, j) == Latest(n, j)
  {
    if n % MAX_TX_SKB == j {
      LatestUnique(n + 1, j, n);
    } else {
      assert j < n;
      LatestUnique(n + 1, j, Latest(n, j));
    }
  }

  lemma NextPlace(n: nat)
    ensures (n % MAX_TX_SKB + 1) % MAX_TX_SKB == (n + 1) % MAX_TX_SKB
  {
  }

  /** A parked frame is still the one in its place exactly if fewer than sixteen were built after it. */
  lemma StillThereIff(n: nat, at: nat)
    requires at < n
    ensures at % MAX_TX_SKB < n
    ensures Latest(n, at % MAX_TX_SKB) == at <==> n - 1 - at < MAX_TX_SKB
  {
    if n <= at + MAX_TX_SKB {
      LatestUnique(n, at % MAX_TX_SKB, at);
    }
  }

  lemma PreviousPlace(n: nat)
    requires n > 0
    ensures (n % MAX_TX_SKB + MAX_TX_SKB - 1) % MAX_TX_SKB == (n - 1) % MAX_TX_SKB
  {
  }

  lemma SplitAt<T>(b: seq<T>, i: nat)
    requires i <= |b|
    ensures b[..i] + b[i..] == b
  {
  }

  lemma OneMorePiece<T>(b: seq<T>, i: nat, j: nat)
    requires i <= j < |b|
    ensures b[i..j + 1] == b[i..j] + [b[j]]
  {
  }

  lemma FlattenOne<F>(b: seq<F>)
    ensures TxQueue.Flatten([b]) == b
  {
    TxQueue.FlattenOneMore<F>([], b);
    assert [] + [b] == [b];
  }

  ghost function BytesOf(txb: Txb): (b: seq<seq<Byte>>)
    requires txb.Clean()
    reads txb, txb.fragments
    ensures |b| == txb.nrFrags
  {
    seq(txb.nrFrags, i requires 0 <= i < txb.nrFrags reads txb, txb.fragments
      requires txb.Clean() => txb.fragments[i].bytes)
  }

  lemma HeldBytes(txb: Txb, frames: seq<seq<Byte>>, fcs: bool)
    requires txb.Holds(frames, fcs)
    ensures BytesOf(txb) == frames
  {
  }

  /** Frame i bears the sequence number numbers[i] steps behind the first, and these increase up to used. */
  ghost predicate AllBear(built: seq<seq<seq<Byte>>>, numbers: seq<nat>, first: Seq12, used: nat)
    decreases |built|
  {
    |numbers| == |built| &&
    (built == [] ||
     var n := |built| - 1;
     numbers[n] < used && Bear(built[n], SeqAfter(first, numbers[n])) &&
     AllBear(built[..n], numbers[..n], first, numbers[n]))
  }

  ghost predicate Bear(frames: seq<seq<Byte>>, s: Seq12) {
    frames != [] && forall l {:trigger frames[l]} :: 0 <= l < |frames| ==> Bears(frames[l], s)
  }

  lemma AllBearMore(built: seq<seq<seq<Byte>>>, numbers: seq<nat>, first: Seq12, used: nat, frames: seq<seq<Byte>>)
    requires AllBear(built, numbers, first, used) && Bear(frames, SeqAfter(first, used))
    ensures AllBear(built + [frames], numbers + [used], first, used + 1)
  {
    assert (built + [frames])[..|built|] == built && (numbers + [used])[..|built|] == numbers;
  }

  lemma MoreUsed(built: seq<seq<seq<Byte>>>, numbers: seq<nat>, first: Seq12, used: nat)
    requires AllBear(built, numbers, first, used)
    ensures AllBear(built, numbers, first, used + 1)
  {
  }

  lemma {:induction false} BearAt(built: seq<seq<seq<Byte>>>, numbers: seq<nat>, first: Seq12, used: nat, i: nat)
    requires AllBear(built, numbers, first, used) && i < |built|
    ensures numbers[i] < used && Bear(built[i], SeqAfter(first, numbers[i]))
    decreases |built|
  {
    var n := |built| - 1;
    if i < n {
      BearAt(built[..n], numbers[..n], first, numbers[n], i);
    }
  }

  lemma {:induction false} NumbersIncrease(built: seq<seq<seq<Byte>>>, numbers: seq<nat>, first: Seq12, used: nat,
                                           i: nat, j: nat)
    requires AllBear(built, numbers, first, used) && i < j < |built|
    ensures numbers[i] < numbers[j] < used
    decreases |built|
  {
    var n := |built| - 1;
    if j < n {
      NumbersIncrease(built[..n], numbers[..n], first, numbers[n], i, j);
    } else {
      BearAt(built[..n], numbers[..n], first, numbers[n], i);
    }
  }

  /** Two frames with fewer than 4096 numbers in all behind the first of them have no fragment in common. */
  lemma NoneInCommon(built: seq<seq<seq<Byte>>>, numbers: seq<nat>, first: Seq12, used: nat, i: nat, j: nat, l: nat,
                     m: nat)
    requires AllBear(built, numbers, first, used) && i < j < |built| && used <= numbers[i] + SEQ_SIZE
    requires l < |built[i]| && m < |built[j]|
    ensures built[i][l] != built[j][m]
  {
    BearAt(built, numbers, first, used, i);
    BearAt(built, numbers, first, used, j);
    NumbersIncrease(built, numbers, first, used, i, j);
    SeqDiffers(first, numbers[i], numbers[j]);
    if built[i][l] == built[j][m] {
      SeqBytesInjective(SeqAfter(first, numbers[i]), SeqAfter(first, numbers[j]));
    }
  }

  /** What is sent from the place of the frame at, and what is still owed, are the fragments owed before exactly
      if it is still that frame's place. Here n is where sending stopped; all of it is sent if n == |now|. */
  lemma OwedIff(built: seq<seq<seq<Byte>>>, numbers: seq<nat>, first: Seq12, used: nat, at: nat, frag: nat, n: nat,
                before: seq<seq<Byte>>)
    requires AllBear(built, numbers, first, used) && at < |built| && at % MAX_TX_SKB < |built| && frag < |built[at]|
    requires used <= numbers[at] + SEQ_SIZE
    requires var now := built[Latest(|built|, at % MAX_TX_SKB)]; frag < n <= |now| || n == |now| <= frag
    ensures var now := built[Latest(|built|, at % MAX_TX_SKB)];
            var sent := before + if frag <= n then now[frag..n] else [];
            var rest := if n < |now| && n <= |built[at]| then built[at][n..] else [];
            sent + rest == before + built[at][frag..] <==> |built| <= at + MAX_TX_SKB
  {
    StillThereIff(|built|, at);
    var i := Latest(|built|, at % MAX_TX_SKB);
    var now := built[i];
    var sent := before + if frag <= n then now[frag..n] else [];
    var rest := if n < |now| && n <= |built[at]| then built[at][n..] else [];
    if i == at {
      assert built[at][frag..] == now[frag..n] + rest;
    } else {
      assert at < i;
      if frag < n {
        NoneInCommon(built, numbers, first, used, at, i, frag, frag);
        assert (sent + rest)[|before|] == now[frag] && (before + built[at][frag..])[|before|] == built[at][frag];
      } else {
        assert |sent + rest| == |before|;
      }
    }
  }

  class Path<K(!new)> {
    const dev: Device<K>
    /** The driver stops the queue after its n-th frame when stops(n). */
    const stops: nat -> bool
    /** Management frames go through the same queue. */
    const single: bool
    var queueStop: bool
    /** Whether the kernel is asked not to send. */
    var netifStopped: bool
    /** Management frames waiting in the ring. */
    var mgmtQueued: nat
    /** tx_pending: the place of the parked buffer in the pool, and its first fragment still to be sent. */
    var pending: Option<nat>
    var frag: nat
    var handed: nat
    /** All frames built so far, each as its fragments, which of them was parked last, and all data fragments
        handed to the driver. */
    ghost var built: seq<seq<seq<Byte>>>
    ghost var at: nat
    ghost var sent: seq<seq<Byte>>
    /** The frames that the queue took, and whether a parked one ever had its buffer taken away. */
    ghost var accepted: seq<seq<seq<Byte>>>
    ghost var overrun: bool
    /** How many sequence numbers were used in front of each frame, and in all, and the first of them. */
    ghost var numbers: seq<nat>
    ghost var used: nat
    ghost const first: Seq12

    constructor (dev: Device<K>, stops: nat -> bool, single: bool)
      requires dev.Valid() && dev.txSkbIndex == 0 && dev.txPending == 0 && LeavesHeader(dev.config.cipher)
      ensures Valid() && this.dev == dev && this.stops == stops && this.single == single
      ensures built == [] && sent == [] && accepted == [] && pending.None? && !queueStop && !netifStopped && !overrun
    {
      this.dev, this.stops, this.single := dev, stops, single;
      queueStop, netifStopped, mgmtQueued, pending, frag, handed := false, false, 0, None, 0, 0;
      built, at, sent, accepted, overrun := [], 0, [], [], false;
      numbers, used, first := [], 0, dev.seqCtrl;
    }

    /** Each place of the pool holds the frame that was built there last, and every frame bears a sequence number
        of its own, but for the counter's going round. */
    ghost predicate Sound()
      reads this`built, this`numbers, this`used, dev, dev.pool, set t <- dev.pool :: t.fragments
    {
      dev.Valid() && dev.txPending == 0 && dev.txSkbIndex == |built| % MAX_TX_SKB && PlacesHold() && Numbered()
    }

    ghost predicate PlacesHold()
      requires dev.Valid()
      reads this`built, dev, dev.pool, set t <- dev.pool :: t.fragments
    {
      forall j {:trigger dev.pool[j]} :: 0 <= j < MAX_TX_SKB && j < |built| ==>
        BytesOf(dev.pool[j]) == built[Latest(|built|, j)]
    }

    ghost predicate Numbered()
      reads this`built, this`numbers, this`used, dev
    {
      LeavesHeader(dev.config.cipher) && dev.seqCtrl == SeqAfter(first, used) &&
      AllBear(built, numbers, first, used)
    }

    /** While the queue is stopped the kernel is asked not to send; something parked means a stopped queue. */
    ghost predicate QueueValid()
      reads this`built, this`queueStop, this`netifStopped, this`pending, this`at, this`mgmtQueued
    {
      (queueStop ==> netifStopped) && (!queueStop ==> pending.None?) && mgmtQueued < TxQueue.MGMT_QUEUE_NUM &&
      (pending.Some? ==> at < |built| && pending.value == at % MAX_TX_SKB)
    }

    /** The parked frame's fragments that are still to be sent. */
    ghost function Rest(): seq<seq<Byte>>
      reads this`built, this`pending, this`at, this`frag
    {
      if pending.Some? && at < |built| && frag <= |built[at]| then built[at][frag..] else []
    }

    /** As long as no buffer was taken away, the fragments sent and parked are those of the frames taken, each
        once and in order. */
    ghost predicate Conserved()
      reads this`built, this`pending, this`at, this`frag, this`sent, this`accepted, this`overrun
    {
      !overrun ==>
        sent + Rest() == TxQueue.Flatten(accepted) &&
        (pending.Some? ==> at < |built| <= at + MAX_TX_SKB && frag <= |built[at]|)
    }

    ghost predicate Valid()
      reads this, dev, dev.pool, set t <- dev.pool :: t.fragments
    {
      Sound() && QueueValid() && Conserved()
    }

    /** ieee80211_stop_queue. */
    method StopQueue()
      modifies `queueStop, `netifStopped
      ensures queueStop && netifStopped
    {
      netifStopped, queueStop := true, true;
    }

    /** The driver takes one frame and may stop the queue. */
    method Hand()
      modifies `queueStop, `netifStopped, `handed
      ensures (old(queueStop) ==> queueStop) && (old(netifStopped) ==> netifStopped)
      ensures queueStop && !old(queueStop) ==> netifStopped
    {
      handed := handed + 1;
      if stops(handed) {
        StopQueue();
      }
    }

    /** The fragments of the buffer from frag on, until the queue is stopped; stopped says in front of which. */
    method HandFrom(txb: Txb, start: nat) returns (stopped: Option<nat>)
      requires txb.Clean() && (queueStop ==> netifStopped)
      modifies `queueStop, `netifStopped, `handed, `sent
      ensures start <= txb.nrFrags ==>
        var n := if stopped.Some? then stopped.value else txb.nrFrags;
        start <= n <= txb.nrFrags && sent == old(sent) + BytesOf(txb)[start..n]
      ensures start > txb.nrFrags ==> sent == old(sent) && stopped.None?
      ensures stopped.Some? ==> queueStop && stopped.value < txb.nrFrags && (!old(queueStop) ==> start < stopped.value)
      ensures old(queueStop) && start < txb.nrFrags ==> stopped == Some(start)
      ensures (old(queueStop) ==> queueStop) && (queueStop ==> netifStopped) && (old(netifStopped) ==> netifStopped)
    {
      ghost var b := BytesOf(txb);
      var i := start;
      while i < txb.nrFrags
        invariant start <= txb.nrFrags ==> start <= i <= txb.nrFrags && sent == old(sent) + b[start..i]
        invariant start > txb.nrFrags ==> sent == old(sent)
        invariant (old(queueStop) ==> queueStop) && (queueStop ==> netifStopped)
        invariant old(netifStopped) ==> netifStopped
        invariant i == start ==> queueStop == old(queueStop)
        invariant old(queueStop) && start < txb.nrFrags ==> i == start
      {
        if queueStop {
          return Some(i);
        }
        OneMorePiece(b, start, i);
        sent := sent + [txb.fragments[i].bytes];
        Hand();
        i := i + 1;
      }
      return None;
    }

    /** ieee80211_xmit up to the hand-over: the frame is in its place, which it takes from an older one. It does
        not count as pending any more when the queue is done with it, wherever the buffer is then. */
    method Build(e: seq<Byte>) returns (txb: Option<Txb>)
      requires Sound() && (|e| < SNAP_LEN || 14 <= |e| <= 1514)
      modifies `built, `numbers, `used, dev, dev.pool[dev.txSkbIndex], dev.pool[dev.txSkbIndex].fragments
      ensures Sound() && (txb.None? <==> old(dev.Drops(e))) && dev.config == old(dev.config)
      ensures txb.None? ==> built == old(built) && used == old(used)
      ensures txb.Some? ==>
        txb.value.Clean() && |e| >= 14 && |PiecesOf(dev.config, e)| <= MAX_NUM_FRAGS && used == old(used) + 1 &&
        built == old(built) + [FramesOf(dev.config, old(dev.key), old(dev.seqCtrl), e).1] &&
        BytesOf(txb.value) == built[|old(built)|]
    {
      ghost var key, seqCtrl, n := dev.key, dev.seqCtrl, |built|;
      ghost var frames;
      txb, frames := Take(e);
      if txb.Some? {
        NextPlace(n);
        InPlace(frames);
        SentBear(dev.config, key, seqCtrl, e);
        Enter(frames, seqCtrl);
      } else {
        PlacesKept();
      }
    }

    /** The frame goes into the account, and its buffer does not count as pending any more. */
    method Enter(ghost frames: seq<seq<Byte>>, ghost s: Seq12)
      requires dev.Valid() && dev.txPending == 1 && dev.txSkbIndex == (|built| + 1) % MAX_TX_SKB
      requires forall j {:trigger dev.pool[j]} :: 0 <= j < MAX_TX_SKB && j < |built| + 1 ==>
                 BytesOf(dev.pool[j]) == (built + [frames])[Latest(|built| + 1, j)]
      requires LeavesHeader(dev.config.cipher) && s == SeqAfter(first, used) && dev.seqCtrl == NextSeq(s)
      requires Bear(frames, s) && AllBear(built, numbers, first, used)
      modifies `built, `numbers, `used, dev`txPending
      ensures Sound() && built == old(built) + [frames] && used == old(used) + 1
    {
      AllBearMore(built, numbers, first, used, frames);
      NextAfter(first, used);
      built, numbers, used := built + [frames], numbers + [used], used + 1;
      dev.Taken();
    }

    /** The buffer that ieee80211_xmit fills; the pending count never refuses one. */
    method Take(e: seq<Byte>) returns (txb: Option<Txb>, ghost frames: seq<seq<Byte>>)
      requires dev.Valid() && dev.txPending == 0 && (|e| < SNAP_LEN || 14 <= |e| <= 1514)
      modifies dev, dev.pool[dev.txSkbIndex], dev.pool[dev.txSkbIndex].fragments
      ensures dev.Valid() && (txb.None? <==> old(dev.Drops(e))) && dev.config == old(dev.config)
      ensures txb.None? ==>
        dev.txPending == 0 && dev.txSkbIndex == old(dev.txSkbIndex) && dev.seqCtrl == old(dev.seqCtrl) &&
        unchanged(dev.pool[dev.txSkbIndex]) && unchanged(dev.pool[dev.txSkbIndex].fragments)
      ensures txb.Some? ==>
        dev.txPending == 1 && txb.value == dev.pool[old(dev.txSkbIndex)] && |e| >= 14 &&
        dev.txSkbIndex == (old(dev.txSkbIndex) + 1) % MAX_TX_SKB && txb.value.Clean() && BytesOf(txb.value) == frames &&
        |PiecesOf(dev.config, e)| <= MAX_NUM_FRAGS && dev.seqCtrl == NextSeq(old(dev.seqCtrl)) &&
        frames == FramesOf(dev.config, old(dev.key), old(dev.seqCtrl), e).1
    {
      var r := dev.Xmit(e);
      match r {
        case Dropped =>
          return None, [];
        case Failed =>
          assert false;
        case Built(b) =>
          frames := FramesOf(dev.config, old(dev.key), old(dev.seqCtrl), e).1;
          HeldBytes(b, frames, dev.config.fcs);
          return Some(b), frames;
      }
    }

    twostate lemma PlacesKept()
      requires old(Sound()) && dev.Valid() && built == old(built)
      requires forall j {:trigger dev.pool[j]} :: 0 <= j < MAX_TX_SKB ==>
                 unchanged(dev.pool[j]) && unchanged(dev.pool[j].fragments)
      ensures PlacesHold()
    {
    }

    /** With the frame in its place, each place still holds the frame built there last. */
    twostate lemma InPlace(new frames: seq<seq<Byte>>)
      requires old(Sound()) && dev.Valid() && built == old(built)
      requires dev.pool[|built| % MAX_TX_SKB].Clean() && BytesOf(dev.pool[|built| % MAX_TX_SKB]) == frames
      requires forall j {:trigger dev.pool[j]} :: 0 <= j < MAX_TX_SKB && j != |built| % MAX_TX_SKB ==>
                 unchanged(dev.pool[j]) && unchanged(dev.pool[j].fragments)
      ensures forall j {:trigger dev.pool[j]} :: 0 <= j < MAX_TX_SKB && j < |built| + 1 ==>
                BytesOf(dev.pool[j]) == (built + [frames])[Latest(|built| + 1, j)]
    {
      forall j: nat | j < MAX_TX_SKB && j < |built| + 1
        ensures BytesOf(dev.pool[j]) == (built + [frames])[Latest(|built| + 1, j)]
      {
        LatestStep(|built|, j);
      }
    }

    /** The queue takes the buffer: sent as far as the hardware goes along, and the rest parked. */
    method HandOn(txb: Txb, ghost b: seq<seq<Byte>>)
      requires txb.Clean() && BytesOf(txb) == b && built != [] && b == built[|built| - 1] && pending.None?
      requires QueueValid() && dev.txSkbIndex == |built| % MAX_TX_SKB
      modifies `queueStop, `netifStopped, `pending, `frag, `handed, `sent, `at
      ensures QueueValid() && (old(queueStop) ==> queueStop)
      ensures pending.None? ==> sent == old(sent) + b
      ensures pending.Some? ==> at == |built| - 1 && frag < |b| && sent + b[frag..] == old(sent) + b
      ensures old(queueStop) && b != [] ==> pending.Some? && frag == 0 && sent == old(sent)
    {
      var stopped := HandFrom(txb, 0);
      if stopped.Some? {
        pending, frag := Some((dev.txSkbIndex + MAX_TX_SKB - 1) % MAX_TX_SKB), stopped.value;
        at := |built| - 1;
        PreviousPlace(|built|);
        SplitAt(b, frag);
      }
    }

    /** ieee80211_softmac_xmit: lost while another frame is parked, else handed on and the rest parked. */
    method SoftmacXmit(txb: Txb, ghost b: seq<seq<Byte>>) returns (taken: bool)
      requires txb.Clean() && BytesOf(txb) == b && built != [] && b == built[|built| - 1] && QueueValid()
      requires dev.txSkbIndex == |built| % MAX_TX_SKB
      modifies `queueStop, `netifStopped, `pending, `frag, `handed, `sent, `at
      ensures QueueValid() && (old(queueStop) ==> queueStop)
      ensures taken <==> !(old(queueStop) && old(pending.Some?))
      ensures !taken ==> sent == old(sent) && pending == old(pending) && frag == old(frag) && at == old(at)
      ensures taken ==>
        if pending.None? then sent == old(sent) + b
        else at == |built| - 1 && frag < |b| && sent + b[frag..] == old(sent) + b
      ensures taken && old(queueStop) && b != [] ==> pending.Some? && frag == 0 && sent == old(sent)
    {
      if queueStop && pending.Some? {
        return false;
      }
      HandOn(txb, b);
      return true;
    }

    /** The account before the queue has its say. */
    ghost predicate Owes(owed: seq<seq<Byte>>)
      reads this`built, this`pending, this`at, this`frag, this`sent, this`accepted, this`overrun
    {
      sent + Rest() == owed &&
      (!overrun ==>
         owed == TxQueue.Flatten(accepted) &&
         (pending.Some? ==> at < |built| <= at + MAX_TX_SKB + 1 && frag <= |built[at]|))
    }

    /** Building a frame changes nothing about what is owed. */
    twostate lemma StillOwes()
      requires old(Conserved() && QueueValid()) && |built| == old(|built|) + 1 && built[..old(|built|)] == old(built)
      requires unchanged(`sent) && unchanged(`pending) && unchanged(`frag) && unchanged(`at) && unchanged(`overrun)
      requires unchanged(`accepted) && unchanged(`queueStop)
      ensures Owes(old(sent + Rest()))
    {
      if pending.Some? {
        assert built[at] == built[..old(|built|)][at];
      }
    }

    /** The queue's part, and the account. */
    method Queue(txb: Txb, ghost b: seq<seq<Byte>>, ghost owed: seq<seq<Byte>>) returns (taken: bool)
      requires txb.Clean() && BytesOf(txb) == b && built != [] && b == built[|built| - 1] && QueueValid() && Owes(owed)
      requires dev.txSkbIndex == |built| % MAX_TX_SKB
      modifies `queueStop, `netifStopped, `pending, `frag, `handed, `sent, `at, `accepted, `overrun
      ensures QueueValid() && Conserved() && (old(queueStop) ==> queueStop)
      ensures taken <==> !(old(queueStop) && old(pending.Some?))
      ensures !taken ==> sent == old(sent) && pending == old(pending) && frag == old(frag) && at == old(at)
      ensures accepted == if taken then old(accepted) + [b] else old(accepted)
      ensures overrun <==> old(overrun) || (!taken && |built| > at + MAX_TX_SKB)
      ensures taken && old(queueStop) && b != [] ==>
        pending.Some? && frag == 0 && at == |built| - 1 && sent == old(sent)
    {
      taken := SoftmacXmit(txb, b);
      Note(taken, b, owed);
    }

    /** Keeps the account of the frames taken. */
    method Note(taken: bool, ghost b: seq<seq<Byte>>, ghost owed: seq<seq<Byte>>)
      requires built != [] && b == built[|built| - 1]
      requires if taken then (pending.Some? ==> at == |built| - 1 && frag <= |b|) &&
                             sent + (if pending.Some? then b[frag..] else []) == owed + b
               else Owes(owed)
      requires !overrun ==> owed == TxQueue.Flatten(accepted)
      modifies `accepted, `overrun
      ensures Conserved()
      ensures accepted == if taken then old(accepted) + [b] else old(accepted)
      ensures overrun <==> old(overrun) || (!taken && |built| > at + MAX_TX_SKB)
    {
      if taken {
        TxQueue.FlattenOneMore(accepted, b);
        accepted := accepted + [b];
      } else {
        overrun := overrun || |built| > at + MAX_TX_SKB;
      }
    }

    /** ieee80211_xmit and ieee80211_softmac_xmit. A frame that comes while another is parked is lost, but it
        has been built: the sixteenth of them takes the parked frame's buffer. None is lost if the kernel heeds
        the stopped queue. */
    method Xmit(e: seq<Byte>) returns (r: Fate)
      requires Valid() && (|e| < SNAP_LEN || 14 <= |e| <= 1514)
      modifies `built, `numbers, `used, dev, dev.pool[dev.txSkbIndex], dev.pool[dev.txSkbIndex].fragments
      modifies `queueStop, `netifStopped, `pending, `frag, `handed, `sent, `at, `accepted, `overrun
      ensures Valid() && dev.config == old(dev.config)
      ensures r == Refused <==> old(dev.Drops(e))
      ensures r == Lost <==> !old(dev.Drops(e)) && old(queueStop) && old(pending.Some?)
      ensures r == Lost ==> old(netifStopped)
      ensures r == Refused ==> built == old(built)
      ensures r != Refused ==>
        |e| >= 14 && |PiecesOf(dev.config, e)| <= MAX_NUM_FRAGS &&
        built == old(built) + [FramesOf(dev.config, old(dev.key), old(dev.seqCtrl), e).1]
      ensures accepted == if r == Accepted then old(accepted) + [built[|built| - 1]] else old(accepted)
      ensures r != Accepted ==> sent == old(sent) && pending == old(pending) && frag == old(frag) && at == old(at)
      ensures r == Accepted && old(queueStop) ==>
        pending.Some? && frag == 0 && at == |built| - 1 && sent == old(sent)
      ensures overrun <==> old(overrun) || (r == Lost && |built| > at + MAX_TX_SKB)
      ensures used == old(used) + (if r == Refused then 0 else 1) && (old(queueStop) ==> queueStop)
    {
      ghost var owed := sent + Rest();
      var txb := BuildOwed(e);
      if txb.None? {
        return Refused;
      }
      var taken := QueueSound(txb.value, built[|built| - 1], owed);
      return if taken then Accepted else Lost;
    }

    /** The first half, and what is owed stays so. */
    method BuildOwed(e: seq<Byte>) returns (txb: Option<Txb>)
      requires Valid() && (|e| < SNAP_LEN || 14 <= |e| <= 1514)
      modifies `built, `numbers, `used, dev, dev.pool[dev.txSkbIndex], dev.pool[dev.txSkbIndex].fragments
      ensures Sound() && (txb.None? <==> old(dev.Drops(e))) && dev.config == old(dev.config)
      ensures txb.None? ==> Valid() && built == old(built) && used == old(used)
      ensures txb.Some? ==>
        txb.value.Clean() && |e| >= 14 && |PiecesOf(dev.config, e)| <= MAX_NUM_FRAGS && used == old(used) + 1 &&
        built == old(built) + [FramesOf(dev.config, old(dev.key), old(dev.seqCtrl), e).1] &&
        BytesOf(txb.value) == built[|old(built)|] && Owes(old(sent + Rest()))
    {
      txb := Build(e);
      if txb.Some? {
        StillOwes();
      }
    }

    /** The second half. */
    method QueueSound(txb: Txb, ghost b: seq<seq<Byte>>, ghost owed: seq<seq<Byte>>) returns (taken: bool)
      requires Sound() && QueueValid() && Owes(owed)
      requires txb.Clean() && BytesOf(txb) == b && built != [] && b == built[|built| - 1]
      modifies `queueStop, `netifStopped, `pending, `frag, `handed, `sent, `at, `accepted, `overrun
      ensures Valid() && (old(queueStop) ==> queueStop)
      ensures taken <==> !(old(queueStop) && old(pending.Some?))
      ensures !taken ==> sent == old(sent) && pending == old(pending) && frag == old(frag) && at == old(at)
      ensures accepted == if taken then old(accepted) + [b] else old(accepted)
      ensures overrun <==> old(overrun) || (!taken && |built| > at + MAX_TX_SKB)
      ensures taken && old(queueStop) ==> pending.Some? && frag == 0 && at == |built| - 1 && sent == old(sent)
    {
      BearAt(built, numbers, first, used, |built| - 1);
      taken := Queue(txb, b, owed);
    }

    /** The driver stops the queue at any time. */
    method Stop()
      requires Valid()
      modifies `queueStop, `netifStopped
      ensures Valid() && queueStop && netifStopped
    {
      StopQueue();
    }

    // ---- Management frames ----

    /** The next sequence number goes to a management frame. */
    method NumberMgmt()
      requires Sound()
      modifies `used, dev`seqCtrl
      ensures Sound() && used == old(used) + 1
    {
      NextAfter(first, used);
      MoreUsed(built, numbers, first, used);
      dev.seqCtrl := NextSeq(dev.seqCtrl);
      used := used + 1;
    }

    /** A management frame for the hardware. */
    method HandOneMgmt()
      requires Sound() && (queueStop ==> netifStopped)
      modifies `queueStop, `netifStopped, `handed, `used, dev`seqCtrl
      ensures Sound() && (queueStop ==> netifStopped) && (old(queueStop) ==> queueStop)
    {
      NumberMgmt();
      Hand();
    }

    /** softmac_mgmt_xmit: parked in the ring while the queue is stopped, and dropped if the ring is full. */
    method SendMgmt()
      requires Valid()
      modifies `queueStop, `netifStopped, `mgmtQueued, `handed, `used, dev`seqCtrl
      ensures Valid()
    {
      if single && queueStop {
        if mgmtQueued + 1 < TxQueue.MGMT_QUEUE_NUM {
          mgmtQueued := mgmtQueued + 1;
        }
      } else {
        HandOneMgmt();
      }
    }

    /** The waiting management frames, as far as the hardware goes along. */
    method HandMgmt()
      requires Sound() && mgmtQueued < TxQueue.MGMT_QUEUE_NUM && (queueStop ==> netifStopped)
      modifies `queueStop, `netifStopped, `mgmtQueued, `handed, `used, dev`seqCtrl
      ensures Sound() && mgmtQueued < TxQueue.MGMT_QUEUE_NUM && (queueStop ==> netifStopped)
      ensures old(mgmtQueued) == 0 ==> queueStop == old(queueStop) && used == old(used)
    {
      while !queueStop && mgmtQueued > 0
        invariant Sound() && mgmtQueued <= old(mgmtQueued) && (queueStop ==> netifStopped)
        invariant old(mgmtQueued) == 0 ==> queueStop == old(queueStop) && used == old(used)
        decreases mgmtQueued
      {
        mgmtQueued := mgmtQueued - 1;
        HandOneMgmt();
      }
    }

    // ---- Waking ----

    /** ieee80211_wake_queue: management frames first, then what is in the parked frame's place now. What is owed is
        kept exactly if that is still the parked frame, unless 4096 sequence numbers were used since. */
    method Wake()
      requires Valid()
      modifies `queueStop, `netifStopped, `mgmtQueued, `pending, `frag, `handed, `sent, `used, dev`seqCtrl
      ensures Valid()
      ensures old(pending.None?) ==> sent == old(sent) && pending.None?
      ensures old(pending.Some?) ==>
        Resumed(old(frag), old(sent)) || (pending == old(pending) && frag == old(frag) && sent == old(sent))
      ensures old(mgmtQueued) == 0 ==>
        used == old(used) && (old(pending.Some?) ==> pending.None? || frag > old(frag))
      ensures old(pending.Some?) && (pending.None? || frag > old(frag)) ==> KeptIff(old(sent + Rest()), old(frag))
    {
      if !queueStop {
        return;
      }
      queueStop := false;
      WakeUp();
    }

    /** The kernel may send again if the queue runs. */
    method WakeKernel()
      requires Sound() && Conserved() && (queueStop ==> netifStopped) && mgmtQueued < TxQueue.MGMT_QUEUE_NUM
      requires pending.Some? ==> queueStop && at < |built| && pending.value == at % MAX_TX_SKB
      modifies `netifStopped
      ensures Valid()
    {
      if !queueStop && netifStopped {
        netifStopped := false;
      }
    }

    /** Management frames, then the parked frame. */
    method WakeUp()
      requires Sound() && Conserved() && !queueStop && mgmtQueued < TxQueue.MGMT_QUEUE_NUM
      requires pending.Some? ==> at < |built| && pending.value == at % MAX_TX_SKB
      modifies `queueStop, `netifStopped, `mgmtQueued, `pending, `frag, `handed, `sent, `used, dev`seqCtrl
      ensures Valid()
      ensures old(pending.None?) ==> sent == old(sent) && pending.None?
      ensures old(pending.Some?) ==>
        Resumed(old(frag), old(sent)) || (pending == old(pending) && frag == old(frag) && sent == old(sent))
      ensures old(mgmtQueued) == 0 ==>
        used == old(used) && (old(pending.Some?) ==> pending.None? || frag > old(frag))
      ensures old(pending.Some?) && (pending.None? || frag > old(frag)) ==> KeptIff(old(sent + Rest()), old(frag))
    {
      if single {
        HandMgmt();
      }
      ResumeUnlessStopped();
      WakeKernel();
    }

    /** The parked frame, unless a management frame stopped the queue again. */
    method ResumeUnlessStopped()
      requires Sound() && Conserved() && (queueStop ==> netifStopped)
      requires pending.Some? ==> at < |built| && pending.value == at % MAX_TX_SKB
      modifies `queueStop, `netifStopped, `pending, `frag, `handed, `sent
      ensures Sound() && Conserved() && (queueStop ==> netifStopped)
      ensures pending.Some? ==> pending == old(pending) && queueStop
      ensures old(pending.None?) ==> sent == old(sent) && pending.None?
      ensures old(pending.Some?) && old(queueStop) ==> pending == old(pending) && frag == old(frag) && sent == old(sent)
      ensures old(pending.Some?) && !old(queueStop) ==> Resumed(old(frag), old(sent))
      ensures old(pending.Some?) && !old(queueStop) ==> KeptIff(old(sent + Rest()), old(frag))
    {
      if !queueStop && pending.Some? {
        Resume();
      }
    }

    /** The fragments from frag on of what is in the parked frame's place went behind those sent before, as far as
        the hardware went along. */
    ghost predicate Resumed(from: nat, before: seq<seq<Byte>>)
      reads this`built, this`pending, this`at, this`frag, this`sent
    {
      at % MAX_TX_SKB < |built| &&
      var now := built[Latest(|built|, at % MAX_TX_SKB)];
      if pending.Some? then from < frag < |now| && sent == before + now[from..frag]
      else sent == before + if from <= |now| then now[from..] else []
    }

    /** With fragments of the parked frame from `from` on to be sent, and fewer than 4096 sequence numbers used since
        it was built: what was owed is exactly what is sent and still owed if it was in its place. */
    ghost predicate KeptIff(owed: seq<seq<Byte>>, from: nat)
      reads this`built, this`pending, this`at, this`frag, this`sent, this`numbers, this`used
    {
      at < |built| && |numbers| == |built| && from < |built[at]| && used <= numbers[at] + SEQ_SIZE ==>
        (sent + Rest() == owed <==> |built| <= at + MAX_TX_SKB)
    }

    /** ieee80211_resume_tx. */
    method Resume()
      requires Sound() && Conserved() && pending.Some? && at < |built| && pending.value == at % MAX_TX_SKB && !queueStop
      modifies `queueStop, `netifStopped, `pending, `frag, `handed, `sent
      ensures Conserved() && (queueStop ==> netifStopped) && (pending.Some? ==> pending == old(pending) && queueStop)
      ensures Resumed(old(frag), old(sent))
      ensures KeptIff(old(sent + Rest()), old(frag))
    {
      ghost var rest, from, before := Rest(), frag, sent;
      ResumeData();
      WhatIsOwed(from, before);
    }

    method ResumeData()
      requires dev.Valid() && PlacesHold() && pending.Some? && at < |built| && pending.value == at % MAX_TX_SKB
      requires !queueStop
      modifies `queueStop, `netifStopped, `pending, `frag, `handed, `sent
      ensures (queueStop ==> netifStopped) && (pending.Some? ==> pending == old(pending) && queueStop)
      ensures Resumed(old(frag), old(sent))
    {
      StillThereIff(|built|, at);
      var stopped := HandFrom(dev.pool[pending.value], frag);
      if stopped.Some? {
        frag := stopped.value;
      } else {
        pending := None;
      }
    }

    /** What that means for the fragments owed. */
    lemma WhatIsOwed(from: nat, before: seq<seq<Byte>>)
      requires Resumed(from, before) && at < |built| && AllBear(built, numbers, first, used)
      ensures |built| <= at + MAX_TX_SKB && from <= |built[at]| ==>
        sent + Rest() == before + built[at][from..] && (pending.Some? ==> frag <= |built[at]|)
      ensures from < |built[at]| && used <= numbers[at] + SEQ_SIZE ==>
        (sent + Rest() == before + built[at][from..] <==> |built| <= at + MAX_TX_SKB)
    {
      StillThereIff(|built|, at);
      var now := built[Latest(|built|, at % MAX_TX_SKB)];
      var n := if pending.Some? then frag else |now|;
      if from < |built[at]| && used <= numbers[at] + SEQ_SIZE {
        OwedIff(built, numbers, first, used, at, from, n, before);
      }
      if |built| <= at + MAX_TX_SKB && from <= |built[at]| {
        assert built[at][from..] == now[from..n] + now[n..];
      }
    }

    // ---- A kernel that heeds the stopped queue ----

    /** Any run in which Ethernet frames come only while the kernel's queue runs: no buffer is ever taken away, and
        the fragments sent and parked are those of the frames taken, each once and in order. */
    method Heed(events: seq<Event>)
      requires Valid() && !overrun && forall ev <- events :: ev.Frame? ==> |ev.e| < SNAP_LEN || 14 <= |ev.e| <= 1514
      modifies this, dev, dev.pool, set t <- dev.pool :: t.fragments
      ensures Valid() && !overrun && sent + Rest() == TxQueue.Flatten(accepted)
    {
      for i := 0 to |events|
        invariant Valid() && !overrun
      {
        HeedOne(events[i]);
      }
    }

    method HeedOne(ev: Event)
      requires Valid() && (ev.Frame? ==> |ev.e| < SNAP_LEN || 14 <= |ev.e| <= 1514)
      modifies this, dev, dev.pool, set t <- dev.pool :: t.fragments
      ensures Valid() && overrun == old(overrun)
    {
      match ev {
        case Frame(e) =>
          if !netifStopped {
            var fate := Xmit(e);
          }
        case Mgmt => SendMgmt();
        case Stopped => Stop();
        case Woken => Wake();
      }
    }

    // ---- A caller that does not heed it ----

    /** Sixteen frames behind a parked one, all lost. */
    method LoseSixteen(f: seq<Byte>)
      requires Valid() && queueStop && pending.Some? && at + 1 == |built| && 14 <= |f| <= 1514 && !dev.Drops(f)
      modifies this, dev, dev.pool, set t <- dev.pool :: t.fragments
      ensures Valid() && queueStop && pending == old(pending) && frag == old(frag) && at == old(at) && sent == old(sent)
      ensures |built| == old(|built|) + MAX_TX_SKB && old(built) <= built && accepted == old(accepted)
      ensures used == old(used) + MAX_TX_SKB && mgmtQueued == old(mgmtQueued)
    {
      for i := 0 to MAX_TX_SKB
        invariant Valid() && queueStop && pending == old(pending) && frag == old(frag) && at == old(at)
        invariant sent == old(sent) && accepted == old(accepted) && used == old(used) + i
        invariant |built| == old(|built|) + i && old(built) <= built && mgmtQueued == old(mgmtQueued)
        invariant !dev.Drops(f)
      {
        var lost := Xmit(f);
      }
    }

    /** With the seventeenth frame the first one is gone, and what is sent instead is not what was taken. */
    method SendRegardless(e: seq<Byte>, f: seq<Byte>)
      requires Valid() && built == [] && sent == [] && accepted == [] && pending.None? && mgmtQueued == 0 && used == 0
      requires 14 <= |e| <= 1514 && 14 <= |f| <= 1514 && !dev.Drops(e) && !dev.Drops(f)
      modifies this, dev, dev.pool, set t <- dev.pool :: t.fragments
      ensures Valid() && |accepted| == 1 && sent + Rest() != TxQueue.Flatten(accepted)
    {
      ParkAndLose(e, f);
      BearAt(built, numbers, first, used, 0);
      Wake();
    }

    method ParkAndLose(e: seq<Byte>, f: seq<Byte>)
      requires Valid() && built == [] && sent == [] && accepted == [] && pending.None? && mgmtQueued == 0 && used == 0
      requires 14 <= |e| <= 1514 && 14 <= |f| <= 1514 && !dev.Drops(e) && !dev.Drops(f)
      modifies this, dev, dev.pool, set t <- dev.pool :: t.fragments
      ensures Valid() && pending.Some? && at == 0 && frag == 0 && mgmtQueued == 0 && |accepted| == 1
      ensures |built| == MAX_TX_SKB + 1 == used && sent + Rest() == TxQueue.Flatten(accepted)
    {
      ParkFirst(e);
      LoseSixteen(f);
      FlattenOne(built[0]);
    }

    method ParkFirst(e: seq<Byte>)
      requires Valid() && built == [] && sent == [] && accepted == [] && pending.None? && mgmtQueued == 0 && used == 0
      requires 14 <= |e| <= 1514 && !dev.Drops(e)
      modifies this, dev, dev.pool, set t <- dev.pool :: t.fragments
      ensures Valid() && queueStop && pending.Some? && at == 0 && frag == 0 && mgmtQueued == 0 && used == 1
      ensures |built| == 1 && accepted == built && sent == [] && dev.config == old(dev.config)
    {
      Stop();
      var taken := Xmit(e);
    }
  }

  datatype Event = Frame(e: seq<Byte>) | Mgmt | Stopped | Woken

  /** What becomes of an Ethernet frame. */
  datatype Fate = Refused | Lost | Accepted
}
