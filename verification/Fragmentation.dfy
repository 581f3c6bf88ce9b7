/** ieee80211/ieee80211_tx.c: how a payload is cut into fragments. */
module Fragmentation {
  import opened Bytes
  import opened Options
  import opened Dot11
  import opened Division

  const FCS_LEN: nat := 4
  const MIN_FRAG_THRESHOLD: nat := 256
  const MAX_FRAG_THRESHOLD: nat := 2346
  const MAX_NUM_FRAGS: nat := 8
  /** The largest pre- and postfix together, that of TKIP. */
  const MAX_OVERHEAD: nat := 20

  // ---- Arithmetic ----

  /** m in pieces of per bytes, the last one maybe shorter. */
  function Chunks(m: seq<Byte>, per: nat): (c: seq<seq<Byte>>)
    requires per > 0
    ensures |c| > 0
    decreases |m|
  {
    if |m| <= per then [m] else [m[..per]] + Chunks(m[per..], per)
  }

  function Count(n: nat, per: nat): nat
    requires per > 0
  {
    n / per + if n % per != 0 then 1 else 0
  }

  function LastSize(n: nat, per: nat): nat
    requires per > 0
  {
    if n % per != 0 then n % per else per
  }

  lemma {:induction false} ChunksJoined(m: seq<Byte>, per: nat)
    requires per > 0
    ensures Joined(Chunks(m, per)) == m
    decreases |m|
  {
    if |m| <= per {
      assert [m][1..] == [];
    } else {
      ChunksJoined(m[per..], per);
      assert Chunks(m, per)[1..] == Chunks(m[per..], per);
    }
  }

  lemma OneLess(n: nat, per: nat)
    requires 0 < per < n
    ensures Count(n, per) == 1 + Count(n - per, per) && LastSize(n, per) == LastSize(n - per, per)
  {
    LessOneBlock(n, per);
  }

  lemma OnlyOne(n: nat, per: nat)
    requires 0 < n <= per
    ensures Count(n, per) == 1 && LastSize(n, per) == n
  {
    if n < per { assert n / per == 0 && n % per == n; } else { assert n / per == 1 && n % per == 0; }
  }

  /** The number and sizes of the pieces are those the sender computes by division. */
  lemma {:induction false} ChunkSizes(m: seq<Byte>, per: nat)
    requires per > 0 && |m| > 0
    ensures |Chunks(m, per)| == Count(|m|, per)
    ensures forall i {:trigger Chunks(m, per)[i]} :: 0 <= i < |Chunks(m, per)| ==>
              |Chunks(m, per)[i]| == if i + 1 < |Chunks(m, per)| then per else LastSize(|m|, per)
    decreases |m|
  {
    if |m| <= per {
      OnlyOne(|m|, per);
    } else {
      OneLess(|m|, per);
      ChunkSizes(m[per..], per);
      var c := Chunks(m[per..], per);
      assert forall i :: 0 < i < |Chunks(m, per)| ==> Chunks(m, per)[i] == c[i - 1];
    }
  }

  /** At most n pieces if the pieces hold at least a n-th each. */
  lemma {:induction false} AtMost(m: seq<Byte>, per: nat, n: nat)
    requires per > 0 && n > 0 && |m| <= n * per
    ensures |Chunks(m, per)| <= n
    decreases |m|
  {
    if |m| > per {
      AtMost(m[per..], per, n - 1);
    }
  }

  /** Payload bytes per fragment. */
  function PerFragment(fragSize: nat, fcs: bool, overhead: nat): int {
    fragSize - HDR_LEN - (if fcs then FCS_LEN else 0) - overhead
  }

  /** For payloads of an Ethernet frame, every threshold and cipher needs at most eight fragments, and a
      fragment with header, cipher overhead and check sequence is at most as long as was asked for. */
  lemma FitsPool(m: seq<Byte>, fragSize: nat, fcs: bool, overhead: nat)
    requires |m| <= 1500 + SNAP_LEN && MIN_FRAG_THRESHOLD <= fragSize <= MAX_FRAG_THRESHOLD && overhead <= MAX_OVERHEAD
    ensures PerFragment(fragSize, fcs, overhead) >= SNAP_LEN
    ensures var c := Chunks(m, PerFragment(fragSize, fcs, overhead));
            |c| <= MAX_NUM_FRAGS &&
            forall i {:trigger c[i]} :: 0 <= i < |c| ==>
              HDR_LEN + |c[i]| + overhead + (if fcs then FCS_LEN else 0) <= fragSize
  {
    var per := PerFragment(fragSize, fcs, overhead);
    AtMost(m, per, MAX_NUM_FRAGS);
    if m != [] { ChunkSizes(m, per); }
  }

  // ---- Frames ----

  /** A cipher as the sender sees it: the bytes it adds in front of and behind the body, and one
      encryption, from state to state. */
  datatype Cipher<!K> = Cipher(prefix: nat, postfix: nat, seal: (K, seq<Byte>) -> (K, seq<Byte>))

  /** The frames of one MSDU but for fragment number and more-fragments bit. */
  datatype Msdu = Msdu(flags: Byte, a1: Mac, a2: Mac, a3: Mac, seqNo: Seq12)

  /** Fragment i of n in the clear. */
  function Plain(s: Msdu, i: Index, n: nat, chunk: seq<Byte>): (f: seq<Byte>)
    ensures |f| == HDR_LEN + |chunk|
  {
    Header(if i + 1 < n then s.flags | MOREFRAGS else s.flags, s.a1, s.a2, s.a3, s.seqNo, i) + chunk
  }

  function SealOne<K>(c: Option<Cipher<K>>, k: K, f: seq<Byte>): (K, seq<Byte>) {
    if c.None? then (k, f) else c.value.seal(k, f)
  }

  /** The frames from fragment i on, and the cipher state after them. */
  function Frames<K>(c: Option<Cipher<K>>, k: K, s: Msdu, chunks: seq<seq<Byte>>, i: nat): (r: (K, seq<seq<Byte>>))
    requires i <= |chunks| <= MAX_NUM_FRAGS
    ensures |r.1| == |chunks| - i
    decreases |chunks| - i
  {
    if i == |chunks| then (k, []) else
      var q := SealOne(c, k, Plain(s, i, |chunks|, chunks[i]));
      var rest := Frames(c, q.0, s, chunks, i + 1);
      (rest.0, [q.1] + rest.1)
  }
}
