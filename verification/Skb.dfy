/** Socket buffers: a frame inside a larger buffer, with room before and behind it. */
module Skb {
  import opened Bytes

  class Buffer {
    const buf: array<Byte>
    var data: nat
    var len: nat

    constructor (size: nat, headroom: nat)
      requires headroom <= size
      ensures Valid() && fresh(buf) && buf.Length == size && data == headroom && len == 0
    {
      buf := new Byte[size];
      data := headroom;
      len := 0;
    }

    ghost predicate Valid()
      reads this
    {
      data + len <= buf.Length
    }

    ghost function Frame(): (f: seq<Byte>)
      reads this, buf
      ensures |f| == len
    {
      Piece(buf[..], data, len)
    }

    function Headroom(): nat
      reads this
    {
      data
    }

    function Tailroom(): nat
      requires data + len <= buf.Length
      reads this
    {
      buf.Length - data - len
    }

    /** skb_push. */
    method Push(n: nat)
      requires Valid() && n <= data
      modifies this
      ensures Valid() && data == old(data) - n && len == old(len) + n
    {
      data := data - n;
      len := len + n;
    }

    /** skb_put. */
    method Extend(n: nat)
      requires Valid() && n <= Tailroom()
      modifies this
      ensures Valid() && data == old(data) && len == old(len) + n
    {
      len := len + n;
    }

    /** skb_pull. */
    method Pull(n: nat)
      requires Valid() && n <= len
      modifies this
      ensures Valid() && data == old(data) + n && len == old(len) - n
    {
      data := data + n;
      len := len - n;
    }

    /** skb_trim. */
    method Trim(n: nat)
      requires Valid() && n <= len
      modifies this
      ensures Valid() && data == old(data) && len == n
    {
      len := n;
    }

    /** skb_push and memmove: moves the header of h bytes forward, leaving a gap behind it. */
    method MakeRoom(gap: nat, h: nat)
      requires Valid() && gap <= data && h <= len
      modifies this, buf
      ensures Valid() && data == old(data) - gap && len == old(len) + gap
      ensures buf[..] == Put(old(buf[..]), data, old(Frame())[..h])
    {
      PieceSplit(buf[..], data, h, len);
      Push(gap);
      Memmove(buf, data, data + gap, h);
    }

    /** memmove, skb_pull and skb_trim: closes a gap of that many bytes behind the header hd and drops tail
        bytes at the end. */
    method CloseUp(gap: nat, h: nat, tail: nat, ghost hd: seq<Byte>, ghost m: seq<Byte>)
      requires Valid() && len == h + gap + |m| + tail && |hd| == h
      requires Piece(buf[..], data, h) == hd && Piece(buf[..], data + h + gap, |m|) == m
      modifies this, buf
      ensures Valid() && Frame() == hd + m
    {
      ClosedUp(buf[..], data, gap, hd, m);
      Memmove(buf, data + gap, data, h);
      Pull(gap);
      Trim(len - tail);
    }
  }

  lemma ClosedUp(s: seq<Byte>, d: nat, gap: nat, hd: seq<Byte>, m: seq<Byte>)
    requires d + |hd| + gap + |m| <= |s| && Piece(s, d + |hd| + gap, |m|) == m
    ensures Piece(Put(s, d + gap, hd), d + gap, |hd| + |m|) == hd + m
  {
    var t, h := Put(s, d + gap, hd), |hd|;
    PiecePut(s, d + gap, hd);
    PieceElsewhere(s, d + gap, hd, d + h + gap, |m|);
    PieceSplit(t, d + gap, h, h + |m|);
    assert Piece(t, d + gap, h + |m|) == Piece(t, d + gap, h + |m|)[..h] + Piece(t, d + gap, h + |m|)[h..];
  }

  /** Two stores one behind the other make one piece. */
  lemma WholeFrame(s: seq<Byte>, d: nat, hd: seq<Byte>, r: seq<Byte>)
    requires d + |hd| + |r| <= |s|
    ensures Piece(Put(Put(s, d, hd), d + |hd|, r), d, |hd| + |r|) == hd + r
  {
    PutTwo(s, d, hd, r);
    PiecePut(s, d, hd + r);
  }

  /** Where header and body lie after the header hd has been written gap bytes before the frame f. */
  lemma FrameParts(s: seq<Byte>, d: nat, gap: nat, hd: seq<Byte>, f: seq<Byte>, h: nat)
    requires h <= |f| && d + gap + |f| <= |s| && f == Piece(s, d + gap, |f|) && |hd| == h + gap
    ensures Piece(Put(s, d, hd), d, |hd|) == hd && Piece(Put(s, d, hd), d + |hd|, |f| - h) == f[h..]
  {
    PiecePut(s, d, hd);
    PieceElsewhere(s, d, hd, d + |hd|, |f| - h);
    PieceSplit(s, d + gap, h, |f|);
  }
}
