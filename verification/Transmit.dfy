/** ieee80211/ieee80211_tx.c: ieee80211_xmit, which turns an Ethernet frame into the 802.11 fragments of
    one buffer out of a pool that is used again and again. */
module Transmit {
  import opened Bytes
  import opened Options
  import opened Dot11
  import opened Fragmentation

  const MAX_TX_SKB: nat := 16
  /** Bytes every fragment buffer keeps free in front, and its size in all. */
  const RESERVE: nat := 16
  const ROOM: nat := RESERVE + 2346
  const ETH_P_PAE: seq<Byte> := [0x88, 0x8e]

  /** An skb: how far its data is from the start of its buffer, the data, and the bytes kept behind it for
      the frame check sequence. */
  datatype Fragment = Fragment(offset: nat, bytes: seq<Byte>, fcs: nat)

  const EMPTY: Fragment := Fragment(RESERVE, [], 0)

  datatype Config<!K> = Config(fts: nat, fcs: bool, mode: Mode, bssid: Mac, hostEncrypt: bool, ieee8021x: bool,
                               dropUnencrypted: bool, cipher: Option<Cipher<K>>)

  /** A cipher that adds what it says. */
  ghost predicate Sound<K(!new)>(c: Cipher<K>) {
    c.prefix + c.postfix <= MAX_OVERHEAD &&
    forall k, f {:trigger c.seal(k, f)} :: |f| >= HDR_LEN ==> |c.seal(k, f).1| == |f| + c.prefix + c.postfix
  }

  ghost predicate ValidConfig<K(!new)>(c: Config<K>) {
    MIN_FRAG_THRESHOLD <= c.fts <= MAX_FRAG_THRESHOLD && (c.cipher.Some? ==> Sound(c.cipher.value))
  }

  /** Whether, and with what, frames of protocol t are encrypted. */
  function CipherFor<K>(c: Config<K>, t: seq<Byte>): Option<Cipher<K>> {
    if !(t == ETH_P_PAE && c.ieee8021x) && c.hostEncrypt then c.cipher else None
  }

  function Overhead<K>(c: Option<Cipher<K>>): nat {
    if c.None? then 0 else c.value.prefix + c.value.postfix
  }

  /** Multicast and broadcast frames are not fragmented. */
  function FragSize<K>(c: Config<K>, dst: Mac): nat {
    if dst[0] & 0x01 != 0 then MAX_FRAG_THRESHOLD else c.fts
  }

  function MsduFor<K>(c: Config<K>, dst: Mac, src: Mac, encrypt: bool, s: Seq12): Msdu {
    var flags: Byte := if encrypt then PROTECTED else 0;
    match c.mode
    case Infra => Msdu(flags | TODS, c.bssid, src, dst, s)
    case Adhoc => Msdu(flags, dst, src, c.bssid, s)
    case OtherMode => Msdu(flags, [0, 0, 0, 0, 0, 0], [0, 0, 0, 0, 0, 0], [0, 0, 0, 0, 0, 0], s)
  }

  /** The pieces of the encapsulated payload of an Ethernet frame. */
  function PiecesOf<K>(c: Config<K>, e: seq<Byte>): seq<seq<Byte>>
    requires |e| >= 14
  {
    var per := PerFragment(FragSize(c, e[..6]), c.fcs, Overhead(CipherFor(c, e[12..14])));
    if per <= 0 then [] else Chunks(Snap(e[12..14]) + e[14..], per)
  }

  /** The frames an Ethernet frame is sent as, and the cipher state after them. */
  function FramesOf<K>(c: Config<K>, k: K, s: Seq12, e: seq<Byte>): (K, seq<seq<Byte>>)
    requires |e| >= 14 && |PiecesOf(c, e)| <= MAX_NUM_FRAGS
  {
    var cipher := CipherFor(c, e[12..14]);
    Frames(cipher, k, MsduFor(c, e[..6], e[6..12], cipher.Some?, s), PiecesOf(c, e), 0)
  }

  lemma PiecesFit<K(!new)>(c: Config<K>, e: seq<Byte>)
    requires ValidConfig(c) && 14 <= |e| <= 1514
    ensures |PiecesOf(c, e)| <= MAX_NUM_FRAGS
  {
    FitsPool(Snap(e[12..14]) + e[14..], FragSize(c, e[..6]), c.fcs, Overhead(CipherFor(c, e[12..14])));
  }

  class Txb {
    const fragments: array<Fragment>
    var nrFrags: nat
    var fragSize: nat
    var encrypted: bool
    var payloadSize: nat

    /** ieee80211_alloc_txb. */
    constructor ()
      ensures fresh(fragments) && Clean()
    {
      fragments := new Fragment[MAX_NUM_FRAGS](_ => EMPTY);
      nrFrags, fragSize, encrypted, payloadSize := 0, 0, false, 0;
    }

    /** Fragments from nrFrags on are empty. */
    ghost predicate Clean()
      reads this, fragments
    {
      fragments.Length == MAX_NUM_FRAGS && nrFrags <= MAX_NUM_FRAGS &&
      forall i {:trigger fragments[i]} :: nrFrags <= i < MAX_NUM_FRAGS ==> fragments[i] == EMPTY
    }

    /** Empties the fragments of the last use. */
    method Reset()
      requires Clean()
      modifies fragments
      ensures forall i {:trigger fragments[i]} :: 0 <= i < MAX_NUM_FRAGS ==> fragments[i] == EMPTY
    {
      for i := 0 to nrFrags
        invariant forall j {:trigger fragments[j]} :: 0 <= j < i || nrFrags <= j < MAX_NUM_FRAGS ==>
                    fragments[j] == EMPTY
      {
        fragments[i] := EMPTY;
      }
    }

    /** Holds just these frames, with room for a check sequence behind each if wanted. */
    ghost predicate Holds(frames: seq<seq<Byte>>, fcs: bool)
      reads this, fragments
    {
      Clean() && nrFrags == |frames| &&
      forall i {:trigger fragments[i]} :: 0 <= i < nrFrags ==>
        fragments[i] == Fragment(RESERVE, frames[i], if fcs then FCS_LEN else 0)
    }
  }

  datatype Outcome = Failed | Dropped | Built(txb: Txb)

  class Device<K(!new)> {
    const pool: seq<Txb>
    var config: Config<K>
    var key: K
    var seqCtrl: Seq12
    var txSkbIndex: nat
    /** Buffers built but not yet taken by the queue. */
    var txPending: nat
    var txDropped: nat
    var txErrors: nat
    var txDiscards: nat

    /** The part of alloc_ieee80211 that allocates the pool. */
    constructor (config: Config<K>, key: K)
      requires ValidConfig(config)
      ensures Valid() && this.config == config && this.key == key && seqCtrl == 0 && txPending == 0 && txSkbIndex == 0
    {
      var p: seq<Txb> := [];
      for i := 0 to MAX_TX_SKB
        invariant |p| == i && forall j {:trigger p[j]} :: 0 <= j < i ==>
                    fresh(p[j]) && fresh(p[j].fragments) && p[j].Clean()
        invariant forall j, l {:trigger p[j], p[l]} :: 0 <= j < l < i ==>
                    p[j] != p[l] && p[j].fragments != p[l].fragments
      {
        var t := new Txb();
        p := p + [t];
      }
      pool := p;
      this.config, this.key, seqCtrl, txSkbIndex, txPending, txDropped, txErrors, txDiscards := config, key, 0, 0, 0, 0,
        0, 0;
    }

    ghost predicate Distinct() {
      |pool| == MAX_TX_SKB &&
      forall i, j {:trigger pool[i], pool[j]} :: 0 <= i < j < MAX_TX_SKB ==>
          pool[i] != pool[j] && pool[i].fragments != pool[j].fragments
    }

    ghost predicate Valid()
      reads this, pool, set t <- pool :: t.fragments
    {
      Distinct() && txSkbIndex < MAX_TX_SKB && ValidConfig(config) &&
      forall i {:trigger pool[i]} :: 0 <= i < MAX_TX_SKB ==> pool[i].Clean()
    }

    /** ieee80211_encrypt_fragment; the cipher refuses a fragment without room for its overhead. */
    method EncryptFragment(f: Fragment, c: Cipher<K>) returns (r: Fragment)
      requires Sound(c) && |f.bytes| >= HDR_LEN && c.prefix <= f.offset && f.offset + |f.bytes| + c.postfix <= ROOM
      modifies `key
      ensures (key, r.bytes) == c.seal(old(key), f.bytes) && r == Fragment(f.offset - c.prefix, r.bytes, f.fcs)
    {
      var q := c.seal(key, f.bytes);
      key := q.0;
      r := Fragment(f.offset - c.prefix, q.1, f.fcs);
    }

    /** Fragment i of n: header, SNAP header if it is the first, the next bytes of the payload. */
    method BuildFragment(c: Option<Cipher<K>>, s: Msdu, i: Index, n: nat, t: seq<Byte>, payload: seq<Byte>, bytes: nat)
      returns (f: Fragment, rest: seq<Byte>)
      requires i < n && |t| == 2 && (c.Some? ==> Sound(c.value))
      requires (if i == 0 then SNAP_LEN else 0) <= bytes <= |payload| + if i == 0 then SNAP_LEN else 0
      requires RESERVE + HDR_LEN + bytes + Overhead(c) + (if config.fcs then FCS_LEN else 0) <= ROOM
      modifies `key
      ensures var todo := (if i == 0 then Snap(t) else []) + payload;
              rest == todo[bytes..] &&
              (key, f.bytes) == SealOne(c, old(key), Plain(s, i, n, todo[..bytes])) &&
              f == Fragment(RESERVE, f.bytes, if config.fcs then FCS_LEN else 0)
    {
      var offset := RESERVE;
      if c.Some? {
        offset := offset + c.value.prefix;
      }
      var data;
      data, rest := PlainFragment(s, i, n, t, payload, bytes);
      f := Fragment(offset, data, 0);
      if c.Some? {
        f := EncryptFragment(f, c.value);
      }
      if config.fcs {
        f := f.(fcs := FCS_LEN);
      }
    }

    /** The fragment in the clear. */
    static method PlainFragment(s: Msdu, i: Index, n: nat, t: seq<Byte>, payload: seq<Byte>, bytes: nat)
      returns (data: seq<Byte>, rest: seq<Byte>)
      requires i < n && |t| == 2
      requires (if i == 0 then SNAP_LEN else 0) <= bytes <= |payload| + if i == 0 then SNAP_LEN else 0
      ensures var todo := (if i == 0 then Snap(t) else []) + payload;
              rest == todo[bytes..] && data == Plain(s, i, n, todo[..bytes])
    {
      var flags := if i != n - 1 then s.flags | MOREFRAGS else s.flags;
      data := Header(flags, s.a1, s.a2, s.a3, s.seqNo, i);
      var left := bytes;
      if i == 0 {
        data := data + Snap(t);
        left := left - SNAP_LEN;
      }
      ghost var todo := (if i == 0 then Snap(t) else []) + payload;
      assert data + payload[..left] == Plain(s, i, n, todo[..bytes]);
      assert payload[left..] == todo[bytes..];
      data := data + payload[..left];
      rest := payload[left..];
    }

    /** The first i fragments are there, and nothing else. */
    ghost predicate Filled(txb: Txb, frames: seq<seq<Byte>>, i: nat)
      reads this, txb.fragments
    {
      txb.fragments.Length == MAX_NUM_FRAGS && i <= |frames| <= MAX_NUM_FRAGS &&
      (forall j {:trigger txb.fragments[j]} :: 0 <= j < i ==>
         txb.fragments[j] == Fragment(RESERVE, frames[j], if config.fcs then FCS_LEN else 0)) &&
      forall j {:trigger txb.fragments[j]} :: i <= j < MAX_NUM_FRAGS ==> txb.fragments[j] == EMPTY
    }

    /** One turn of the loop over the fragments; frames are those it shall build. */
    method BuildTurn(txb: Txb, c: Option<Cipher<K>>, s: Msdu, i: Index, n: nat, t: seq<Byte>, payload: seq<Byte>,
                     bytes: nat, ghost chunks: seq<seq<Byte>>, ghost last: K, ghost frames: seq<seq<Byte>>)
      returns (rest: seq<Byte>)
      requires i < n == |chunks| == |frames| <= MAX_NUM_FRAGS && |t| == 2 && (c.Some? ==> Sound(c.value))
      requires Filled(txb, frames, i) && Frames(c, key, s, chunks, i) == (last, frames[i..])
      requires (if i == 0 then SNAP_LEN else 0) <= bytes <= |payload| + if i == 0 then SNAP_LEN else 0
      requires ((if i == 0 then Snap(t) else []) + payload)[..bytes] == chunks[i]
      requires RESERVE + HDR_LEN + bytes + Overhead(c) + (if config.fcs then FCS_LEN else 0) <= ROOM
      modifies `key, txb.fragments
      ensures rest == ((if i == 0 then Snap(t) else []) + payload)[bytes..]
      ensures Filled(txb, frames, i + 1) && Frames(c, key, s, chunks, i + 1) == (last, frames[i + 1..])
    {
      NextFrame(c, key, s, chunks, i, last, frames);
      var f: Fragment;
      f, rest := BuildFragment(c, s, i, n, t, payload, bytes);
      txb.fragments[i] := f;
    }

    /** The loop over the n fragments. */
    method BuildFragments(txb: Txb, c: Option<Cipher<K>>, s: Msdu, n: nat, t: seq<Byte>, payload: seq<Byte>, per: nat,
                          last: nat)
      requires txb.Clean() && txb.nrFrags == n && forall i {:trigger txb.fragments[i]} :: 0 <= i < MAX_NUM_FRAGS ==>
                 txb.fragments[i] == EMPTY
      requires |t| == 2 && (c.Some? ==> Sound(c.value)) && per >= SNAP_LEN
      requires RESERVE + HDR_LEN + per + Overhead(c) + (if config.fcs then FCS_LEN else 0) <= ROOM
      requires n == Count(|Snap(t) + payload|, per) && last == LastSize(|Snap(t) + payload|, per)
      modifies `key, txb.fragments
      ensures |Chunks(Snap(t) + payload, per)| == n
      ensures var r := Frames(c, old(key), s, Chunks(Snap(t) + payload, per), 0);
              key == r.0 && txb.Holds(r.1, config.fcs)
    {
      ghost var m := Snap(t) + payload;
      ghost var chunks := Chunks(m, per);
      ChunkSizes(m, per);
      ghost var goal := Frames(c, key, s, chunks, 0);
      var rest := payload;
      ghost var todo := m;
      for i := 0 to n
        invariant todo == (if i == 0 then Snap(t) else []) + rest
        invariant i < n ==> Chunks(todo, per) == chunks[i..]
        invariant Frames(c, key, s, chunks, i) == (goal.0, goal.1[i..])
        invariant Filled(txb, goal.1, i)
      {
        var bytes := if i != n - 1 then per else last;
        NextChunk(todo, per, chunks, i);
        rest := BuildTurn(txb, c, s, i, n, t, rest, bytes, chunks, goal.0, goal.1);
        todo := rest;
      }
    }

    /** Whether ieee80211_xmit drops an Ethernet frame before looking for a buffer. */
    predicate Drops(e: seq<Byte>)
      reads this
    {
      |e| < SNAP_LEN || (|e| >= 14 && CipherFor(config, e[12..14]).None? && config.ieee8021x &&
        config.dropUnencrypted && e[12..14] != ETH_P_PAE)
    }

    /** ieee80211_xmit up to the hand-over to the queue: dropped, refused because sixteen buffers are
        pending, or the whole frame is in the next buffer of the pool and in no other. */
    method Xmit(e: seq<Byte>) returns (r: Outcome)
      requires Valid() && (|e| < SNAP_LEN || 14 <= |e| <= 1514)
      modifies this, pool[txSkbIndex], pool[txSkbIndex].fragments
      ensures Valid() && config == old(config)
      ensures r.Dropped? <==> old(Drops(e))
      ensures r.Failed? <==> !old(Drops(e)) && old(txPending) >= MAX_TX_SKB
      ensures !r.Built? ==>
                key == old(key) && seqCtrl == old(seqCtrl) && txSkbIndex == old(txSkbIndex) &&
                  txPending == old(txPending) && unchanged(pool[txSkbIndex]) && unchanged(pool[txSkbIndex].fragments)
      ensures txDropped == old(txDropped) + (if r.Dropped? && |e| >= SNAP_LEN then 1 else 0)
      ensures txErrors == old(txErrors) + (if r.Failed? then 1 else 0) && txDiscards == old(txDiscards)
      ensures r.Built? ==>
        |e| >= 14 && r.txb == pool[old(txSkbIndex)] && txSkbIndex == (old(txSkbIndex) + 1) % MAX_TX_SKB &&
        seqCtrl == NextSeq(old(seqCtrl)) && txPending == old(txPending) + 1 &&
        |PiecesOf(config, e)| <= MAX_NUM_FRAGS && HoldsFrames(r.txb, old(key), old(seqCtrl), e)
    {
      if |e| < SNAP_LEN {
        return Dropped;
      }
      var t := e[12..14];
      var c := CipherFor(config, t);
      if c.None? && config.ieee8021x && config.dropUnencrypted && t != ETH_P_PAE {
        txDropped := txDropped + 1;
        return Dropped;
      }
      if txPending > MAX_TX_SKB - 1 {
        txErrors := txErrors + 1;
        return Failed;
      }
      var txb := Build(e, c);
      return Built(txb);
    }

    /** Takes the next buffer of the pool and fills it. */
    method Build(e: seq<Byte>, c: Option<Cipher<K>>) returns (txb: Txb)
      requires Valid() && 14 <= |e| <= 1514 && c == CipherFor(config, e[12..14])
      modifies `txPending, `txSkbIndex, `seqCtrl, `key, pool[txSkbIndex], pool[txSkbIndex].fragments
      ensures Valid() && txb == pool[old(txSkbIndex)] && txSkbIndex == (old(txSkbIndex) + 1) % MAX_TX_SKB
      ensures seqCtrl == NextSeq(old(seqCtrl)) && txPending == old(txPending) + 1
      ensures |PiecesOf(config, e)| <= MAX_NUM_FRAGS && HoldsFrames(txb, old(key), old(seqCtrl), e)
    {
      txPending := txPending + 1;
      txb := pool[txSkbIndex];
      txSkbIndex := (txSkbIndex + 1) % MAX_TX_SKB;
      Fill(txb, c, e);
      seqCtrl := NextSeq(seqCtrl);
    }

    /** The buffer holds the frames e is sent as, from cipher state k, which leaves the present one. */
    ghost predicate HoldsFrames(txb: Txb, k: K, s: Seq12, e: seq<Byte>)
      requires |e| >= 14 && |PiecesOf(config, e)| <= MAX_NUM_FRAGS
      reads this, txb, txb.fragments
    {
      var q := FramesOf(config, k, s, e);
      key == q.0 && txb.Holds(q.1, config.fcs) && txb.payloadSize == |e| - 14 + SNAP_LEN &&
      txb.fragSize == FragSize(config, e[..6]) && txb.encrypted == CipherFor(config, e[12..14]).Some?
    }

    /** The payload size per fragment, the number of fragments and the size of the last. */
    method Sizes(c: Option<Cipher<K>>, bytes: nat, fragSize: nat) returns (per: nat, n: nat, last: nat)
      requires bytes > 0 && PerFragment(fragSize, config.fcs, Overhead(c)) > 0
      ensures per == PerFragment(fragSize, config.fcs, Overhead(c)) && n == Count(bytes, per) &&
              last == LastSize(bytes, per)
    {
      per := fragSize - HDR_LEN;
      if config.fcs {
        per := per - FCS_LEN;
      }
      if c.Some? {
        per := per - (c.value.prefix + c.value.postfix);
      }
      n, last := Division(bytes, per);
    }

    static method Division(bytes: nat, per: nat) returns (n: nat, last: nat)
      requires per > 0
      ensures n == Count(bytes, per) && last == LastSize(bytes, per)
    {
      n, last := bytes / per, bytes % per;
      if last != 0 {
        n := n + 1;
      } else {
        last := per;
      }
    }

    /** Sizes, and the fragments. */
    method Fill(txb: Txb, c: Option<Cipher<K>>, e: seq<Byte>)
      requires txb.Clean() && ValidConfig(config) && 14 <= |e| <= 1514 && c == CipherFor(config, e[12..14])
      modifies `key, txb, txb.fragments
      ensures |PiecesOf(config, e)| <= MAX_NUM_FRAGS && HoldsFrames(txb, old(key), seqCtrl, e)
    {
      var dst, src, t, payload := e[..6], e[6..12], e[12..14], e[14..];
      var bytes := |payload| + SNAP_LEN;
      var fragSize := FragSize(config, dst);
      PiecesFit(config, e);
      FitsPool(Snap(t) + payload, fragSize, config.fcs, Overhead(c));
      var per, n, last := Sizes(c, bytes, fragSize);
      ChunkSizes(Snap(t) + payload, per);
      assert PiecesOf(config, e) == Chunks(Snap(t) + payload, per);
      txb.Reset();
      txb.nrFrags, txb.fragSize, txb.encrypted, txb.payloadSize := n, fragSize, c.Some?, bytes;
      BuildFragments(txb, c, MsduFor(config, dst, src, c.Some?, seqCtrl), n, t, payload, per, last);
    }

    /** ieee80211_softmac_xmit took over a buffer. */
    method Taken()
      requires txPending > 0
      modifies `txPending
      ensures txPending == old(txPending) - 1
    {
      txPending := txPending - 1;
    }
  }

  lemma NextFrame<K>(c: Option<Cipher<K>>, k: K, s: Msdu, chunks: seq<seq<Byte>>, i: nat, last: K,
                     frames: seq<seq<Byte>>)
    requires i < |chunks| <= MAX_NUM_FRAGS && |frames| == |chunks| && Frames(c, k, s, chunks, i) == (last, frames[i..])
    ensures var q := SealOne(c, k, Plain(s, i, |chunks|, chunks[i]));
            q.1 == frames[i] && Frames(c, q.0, s, chunks, i + 1) == (last, frames[i + 1..])
  {
    assert frames[i] == frames[i..][0] && frames[i + 1..] == frames[i..][1..];
  }

  /** The next piece is the front of what is left. */
  lemma NextChunk(todo: seq<Byte>, per: nat, chunks: seq<seq<Byte>>, i: nat)
    requires per > 0 && i < |chunks| && Chunks(todo, per) == chunks[i..]
    ensures |chunks[i]| <= |todo| && todo[..|chunks[i]|] == chunks[i]
    ensures i + 1 < |chunks| ==> Chunks(todo[|chunks[i]|..], per) == chunks[i + 1..]
    ensures i + 1 == |chunks| ==> chunks[i] == todo
  {
    assert chunks[i] == chunks[i..][0];
    assert chunks[i + 1..] == chunks[i..][1..];
  }
}
