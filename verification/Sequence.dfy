/** ieee80211/ieee80211_tx.c: the twelve-bit sequence numbers of frames. */
module Sequence {
  import opened Bytes
  import opened Options
  import opened Dot11
  import opened Fragmentation
  import Transmit

  const SEQ_SIZE: nat := 4096

  /** n steps. */
  function Times<S>(next: S -> S, s: S, n: nat): S {
    if n == 0 then s else next(Times(next, s, n - 1))
  }

  /** The steps count round. */
  ghost predicate CountsRound<S(!new)>(next: S -> S, num: S -> nat) {
    forall s {:trigger next(s)} :: num(s) < SEQ_SIZE && num(next(s)) == OneMore(num(s))
  }

  function OneMore(n: nat): nat { if n + 1 == SEQ_SIZE then 0 else n + 1 }

  lemma OneMoreMod(n: nat)
    ensures OneMore(n % SEQ_SIZE) == (n + 1) % SEQ_SIZE
  {
  }

  lemma {:induction false} NumberAfter<S(!new)>(next: S -> S, num: S -> nat, s: S, n: nat)
    requires CountsRound(next, num)
    ensures num(Times(next, s, n)) == (num(s) + n) % SEQ_SIZE
  {
    assert num(next(s)) == OneMore(num(s));
    if n > 0 {
      NumberAfter(next, num, s, n - 1);
      OneMoreMod(num(s) + n - 1);
    }
  }

  lemma TimesDiffer<S(!new)>(next: S -> S, num: S -> nat, s: S, i: nat, j: nat)
    requires CountsRound(next, num) && i < j < i + SEQ_SIZE
    ensures Times(next, s, i) != Times(next, s, j)
  {
    NumberAfter(next, num, s, i);
    NumberAfter(next, num, s, j);
    Apart(num(s) + i, num(s) + j);
  }

  function NextOf(): Seq12 -> Seq12 { (s: Seq12) => NextSeq(s) }

  function NumberOf(): Seq12 -> nat { (s: Seq12) => s as nat }

  /** The sequence number n frames later. */
  function SeqAfter(s: Seq12, n: nat): Seq12 { Times(NextOf(), s, n) }

  lemma NextNumber(s: Seq12)
    ensures NumberOf()(s) < SEQ_SIZE && NumberOf()(NextOf()(s)) == OneMore(NumberOf()(s))
  {
  }

  lemma SeqCountsRound()
    ensures CountsRound(NextOf(), NumberOf())
  {
    forall s: Seq12 ensures NumberOf()(s) < SEQ_SIZE && NumberOf()(NextOf()(s)) == OneMore(NumberOf()(s)) {
      NextNumber(s);
    }
  }

  lemma NextAfter(s: Seq12, n: nat)
    ensures SeqAfter(s, n + 1) == NextSeq(SeqAfter(s, n)) && SeqAfter(s, 0) == s
  {
  }

  /** The number comes again after 4096 frames, and not before. */
  lemma SeqDiffers(s: Seq12, i: nat, j: nat)
    requires i < j < i + SEQ_SIZE
    ensures SeqAfter(s, i) != SeqAfter(s, j)
  {
    SeqCountsRound();
    TimesDiffer(NextOf(), NumberOf(), s, i, j);
  }

  lemma Apart(a: nat, b: nat)
    requires a < b < a + SEQ_SIZE
    ensures a % SEQ_SIZE != b % SEQ_SIZE
  {
    assert a == a / SEQ_SIZE * SEQ_SIZE + a % SEQ_SIZE && b == b / SEQ_SIZE * SEQ_SIZE + b % SEQ_SIZE;
  }

  lemma SeqBytesInjective(s: Seq12, t: Seq12)
    requires SeqBytes(s) == SeqBytes(t)
    ensures s == t
  {
  }

  /** A cipher that leaves the header in the clear. */
  ghost predicate LeavesHeader<K(!new)>(c: Option<Cipher<K>>) {
    c.Some? ==>
      forall k, f {:trigger c.value.seal(k, f)} :: |f| >= HDR_LEN ==>
        |c.value.seal(k, f).1| >= HDR_LEN && c.value.seal(k, f).1[..HDR_LEN] == f[..HDR_LEN]
  }

  /** The frame bears the number. */
  predicate Bears(f: seq<Byte>, s: Seq12) {
    |f| >= HDR_LEN && SeqOf(f) == SeqBytes(s)
  }

  /** All fragments of an MSDU bear its number. */
  lemma {:induction false} FramesBear<K(!new)>(c: Option<Cipher<K>>, k: K, s: Msdu, chunks: seq<seq<Byte>>, i: nat,
                                               j: nat)
    requires LeavesHeader(c) && i <= j < |chunks| <= MAX_NUM_FRAGS
    ensures Bears(Frames(c, k, s, chunks, i).1[j - i], s.seqNo)
    decreases j - i
  {
    var p := Plain(s, i, |chunks|, chunks[i]);
    var q := SealOne(c, k, p);
    if i < j {
      FramesBear(c, q.0, s, chunks, i + 1, j);
    } else {
      PlainBears(s, i, |chunks|, chunks[i], q.1);
    }
  }

  lemma PlainBears(s: Msdu, i: Index, n: nat, chunk: seq<Byte>, g: seq<Byte>)
    requires |g| >= HDR_LEN && g[..HDR_LEN] == Plain(s, i, n, chunk)[..HDR_LEN]
    ensures Bears(g, s.seqNo)
  {
    var flags := if i + 1 < n then s.flags | MOREFRAGS else s.flags;
    assert g[..HDR_LEN] == Header(flags, s.a1, s.a2, s.a3, s.seqNo, i);
    HeaderFields(flags, s.a1, s.a2, s.a3, s.seqNo, i, g);
  }

  /** All frames that an Ethernet frame is sent as bear its number, and there is at least one. */
  lemma SentBear<K(!new)>(c: Transmit.Config<K>, k: K, s: Seq12, e: seq<Byte>)
    requires Transmit.ValidConfig(c) && 14 <= |e| <= 1514 && LeavesHeader(c.cipher)
    requires |Transmit.PiecesOf(c, e)| <= MAX_NUM_FRAGS
    ensures var fr := Transmit.FramesOf(c, k, s, e).1;
            fr != [] && forall j {:trigger fr[j]} :: 0 <= j < |fr| ==> Bears(fr[j], s)
  {
    var cipher := Transmit.CipherFor(c, e[12..14]);
    var m := Transmit.MsduFor(c, e[..6], e[6..12], cipher.Some?, s);
    var pieces := Transmit.PiecesOf(c, e);
    FitsPool(Snap(e[12..14]) + e[14..], Transmit.FragSize(c, e[..6]), c.fcs, Transmit.Overhead(cipher));
    forall j | 0 <= j < |pieces| ensures Bears(Frames(cipher, k, m, pieces, 0).1[j], s) {
      FramesBear(cipher, k, m, pieces, 0, j);
    }
  }
}
