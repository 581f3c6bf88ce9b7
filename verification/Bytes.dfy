/** Byte strings. */
module Bytes {
  type Byte = bv8

  function XorByte(a: Byte, b: Byte): Byte { a ^ b }

  lemma XorByteTwice(a: Byte, b: Byte)
    ensures XorByte(XorByte(a, b), b) == a
  {
  }

  lemma XorByteSwap(a: Byte, b: Byte)
    ensures XorByte(a, b) == XorByte(b, a)
  {
  }

  function Xor(a: seq<Byte>, b: seq<Byte>): (r: seq<Byte>)
    requires |a| <= |b|
    ensures |r| == |a|
  {
    seq(|a|, i requires 0 <= i < |a| => XorByte(a[i], b[i]))
  }

  lemma XorTwice(a: seq<Byte>, b: seq<Byte>)
    requires |a| == |b|
    ensures Xor(Xor(a, b), b) == a
  {
    forall i | 0 <= i < |a| ensures Xor(Xor(a, b), b)[i] == a[i] { XorByteTwice(a[i], b[i]); }
  }

  lemma XorSwap(a: seq<Byte>, b: seq<Byte>)
    requires |a| == |b|
    ensures Xor(a, b) == Xor(b, a)
  {
    forall i | 0 <= i < |a| ensures Xor(a, b)[i] == Xor(b, a)[i] { XorByteSwap(a[i], b[i]); }
  }

  function Min(a: nat, b: nat): nat { if a <= b then a else b }

  function Zeros(n: nat): (z: seq<Byte>)
    ensures |z| == n
  {
    seq(n, _ => 0)
  }

  // ---- Pieces one behind the other ----

  function Joined(c: seq<seq<Byte>>): seq<Byte> {
    if c == [] then [] else c[0] + Joined(c[1..])
  }

  lemma {:induction false} JoinedOneMore(c: seq<seq<Byte>>, x: seq<Byte>)
    ensures Joined(c + [x]) == Joined(c) + x
    decreases |c|
  {
    if c == [] {
      assert (c + [x])[1..] == [];
    } else {
      assert (c + [x])[1..] == c[1..] + [x];
      JoinedOneMore(c[1..], x);
    }
  }

  lemma JoinedLast(c: seq<seq<Byte>>)
    requires c != []
    ensures Joined(c) == Joined(c[..|c| - 1]) + c[|c| - 1]
  {
    JoinedOneMore(c[..|c| - 1], c[|c| - 1]);
    assert c == c[..|c| - 1] + [c[|c| - 1]];
  }

  // ---- Parts of byte strings ----

  function ByteAt(s: seq<Byte>, a: nat): Byte { if a < |s| then s[a] else 0 }

  /** The k bytes of s from position at. */
  function Piece(s: seq<Byte>, at: nat, k: nat): (r: seq<Byte>)
    ensures |r| == k
  {
    seq(k, i requires 0 <= i < k => ByteAt(s, at + i))
  }

  lemma PieceAt(s: seq<Byte>, at: nat, k: nat)
    ensures forall i {:trigger Piece(s, at, k)[i]} :: 0 <= i < k ==> Piece(s, at, k)[i] == ByteAt(s, at + i)
  {
  }

  lemma PieceWhole(s: seq<Byte>)
    ensures Piece(s, 0, |s|) == s
  {
    PieceAt(s, 0, |s|);
    assert forall i {:trigger Piece(s, 0, |s|)[i]} :: 0 <= i < |s| ==> Piece(s, 0, |s|)[i] == s[i];
  }

  lemma PieceSplit(s: seq<Byte>, p: nat, k: nat, n: nat)
    requires k <= n
    ensures Piece(s, p, n)[..k] == Piece(s, p, k) && Piece(s, p, n)[k..] == Piece(s, p + k, n - k)
  {
    PieceAt(s, p, n); PieceAt(s, p, k); PieceAt(s, p + k, n - k);
  }

  /** s with data stored from position at. */
  function Put(s: seq<Byte>, at: nat, data: seq<Byte>): (r: seq<Byte>)
    ensures |r| == |s|
  {
    seq(|s|, i requires 0 <= i < |s| => if at <= i < at + |data| then data[i - at] else s[i])
  }

  lemma PiecePut(s: seq<Byte>, at: nat, data: seq<Byte>)
    requires at + |data| <= |s|
    ensures Piece(Put(s, at, data), at, |data|) == data
  {
    PieceAt(Put(s, at, data), at, |data|);
  }

  lemma PutPut(s: seq<Byte>, at: nat, data: seq<Byte>, later: seq<Byte>)
    requires |later| == |data|
    ensures Put(Put(s, at, data), at, later) == Put(s, at, later)
  {
  }

  lemma PutTwo(s: seq<Byte>, at: nat, data: seq<Byte>, more: seq<Byte>)
    ensures Put(Put(s, at, data), at + |data|, more) == Put(s, at, data + more)
  {
  }

  lemma PutAll(s: seq<Byte>, data: seq<Byte>)
    requires |data| == |s|
    ensures Put(s, 0, data) == data
  {
  }

  /** A piece that a store does not touch. */
  lemma PieceElsewhere(s: seq<Byte>, at: nat, data: seq<Byte>, b: nat, k: nat)
    requires b + k <= at || at + |data| <= b
    ensures Piece(Put(s, at, data), b, k) == Piece(s, b, k)
  {
    PieceAt(Put(s, at, data), b, k);
    PieceAt(s, b, k);
  }

  /** memcpy of k bytes. */
  method Memcpy(dst: array<Byte>, d: nat, src: array<Byte>, s: nat, k: nat)
    requires d + k <= dst.Length && s + k <= src.Length
    modifies dst
    ensures dst[..] == Put(old(dst[..]), d, Piece(old(src[..]), s, k))
  {
    ghost var r := Put(dst[..], d, Piece(src[..], s, k));
    PieceAt(src[..], s, k);
    forall i | 0 <= i < k {
      dst[d + i] := src[s + i];
    }
    assert forall i :: 0 <= i < |r| ==> dst[i] == r[i];
  }

  /** Stores a whole byte string. */
  method Store(dst: array<Byte>, d: nat, data: seq<Byte>)
    requires d + |data| <= dst.Length
    modifies dst
    ensures dst[..] == Put(old(dst[..]), d, data)
  {
    forall i | 0 <= i < |data| {
      dst[d + i] := data[i];
    }
  }

  /** memmove of k bytes within one buffer. */
  method Memmove(a: array<Byte>, d: nat, s: nat, k: nat)
    requires d + k <= a.Length && s + k <= a.Length
    modifies a
    ensures a[..] == Put(old(a[..]), d, Piece(old(a[..]), s, k))
  {
    ghost var r := Put(a[..], d, Piece(a[..], s, k));
    PieceAt(a[..], s, k);
    forall i | 0 <= i < k {
      a[d + i] := a[s + i];
    }
    assert forall i :: 0 <= i < |r| ==> a[i] == r[i];
  }

  /** Xors k bytes of b into a, as xor_block does. */
  method XorBlock(a: array<Byte>, ai: nat, b: array<Byte>, bi: nat, k: nat)
    requires ai + k <= a.Length && bi + k <= b.Length && a != b
    modifies a
    ensures a[..] == Put(old(a[..]), ai, Xor(Piece(old(a[..]), ai, k), Piece(b[..], bi, k)))
  {
    ghost var r := Put(a[..], ai, Xor(Piece(a[..], ai, k), Piece(b[..], bi, k)));
    PieceAt(a[..], ai, k);
    PieceAt(b[..], bi, k);
    forall i | 0 <= i < k {
      a[ai + i] := XorByte(a[ai + i], b[bi + i]);
    }
    assert b[..] == old(b[..]);
    assert forall i :: 0 <= i < |r| ==> a[i] == r[i];
  }
}
