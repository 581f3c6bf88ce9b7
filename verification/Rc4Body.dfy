/** What WEP and TKIP frames have in common: a body and its check value, encrypted with RC4 in place
    (ieee80211/ieee80211_crypt_wep.c and ieee80211_crypt_tkip.c). */
module Rc4Body {
  import opened Bytes
  import opened Skb
  import Arc4

  /** Four bytes of check sum, least significant first. */
  type Icv = s: seq<Byte> | |s| == 4 witness [0, 0, 0, 0]

  /** The complemented CRC-32 of a frame body. */
  type CheckSum = seq<Byte> -> Icv

  /** A key stream of the given length under a key. */
  type KeyStream = (seq<Byte>, nat) -> seq<Byte>

  function XorStream(data: seq<Byte>, k: seq<Byte>): (r: seq<Byte>)
    ensures |r| == |data|
  {
    Xor(data, Piece(k, 0, |data|))
  }

  lemma XorStreamTwice(data: seq<Byte>, k: seq<Byte>)
    ensures XorStream(XorStream(data, k), k) == data
  {
    XorTwice(data, Piece(k, 0, |data|));
  }

  function Rc4Stream(key: seq<Byte>, n: nat): seq<Byte> {
    if key == [] then [] else Arc4.Rc4(key, n)
  }

  /** Body and check value, encrypted. */
  function SealedBody(ks: KeyStream, icv: CheckSum, k: seq<Byte>, m: seq<Byte>): (r: seq<Byte>)
    ensures |r| == |m| + 4
  {
    XorStream(m + icv(m), ks(k, |m| + 4))
  }

  /** The check value of the decrypted data is right. */
  predicate Genuine(icv: CheckSum, d: seq<Byte>)
    requires |d| >= 4
  {
    icv(d[..|d| - 4]) == d[|d| - 4..]
  }

  /** Decrypting a sealed body gives back body and check value. */
  lemma OpenSealedBody(ks: KeyStream, icv: CheckSum, k: seq<Byte>, m: seq<Byte>)
    ensures var d := XorStream(SealedBody(ks, icv, k, m), ks(k, |m| + 4));
            |d| == |m| + 4 && d[..|m|] == m && Genuine(icv, d)
  {
    XorStreamTwice(m + icv(m), ks(k, |m| + 4));
    assert (m + icv(m))[..|m|] == m && (m + icv(m))[|m|..] == icv(m);
  }

  /** The sections of a frame g that is a sealed one behind the MAC header. */
  lemma Sections(h: nat, gap: nat, g: seq<Byte>, hd: seq<Byte>, hdr: seq<Byte>, x: seq<Byte>)
    requires |hd| == h && |hdr| == gap && |g| == h + gap + |x| && g[h..] == ((hd + hdr) + x)[h..]
    ensures g[h..h + gap] == hdr && g[h + gap..] == x && forall i {:trigger g[h + i]} :: 0 <= i < gap ==>
              g[h + i] == hdr[i]
  {
    var r := ((hd + hdr) + x)[h..];
    assert r == hdr + x;
    assert g[h..h + gap] == g[h..][..gap] && g[h + gap..] == g[h..][gap..];
    assert forall i {:trigger g[h + i]} :: 0 <= i < gap ==> g[h + i] == g[h..][i];
  }

  // ---- In place ----

  /** The buffer with n body bytes at pos sealed under the key k. */
  function SealedBuf(s: seq<Byte>, pos: nat, n: nat, icv: CheckSum, k: seq<Byte>): seq<Byte> {
    Put(s, pos, SealedBody(Rc4Stream, icv, k, Piece(s, pos, n)))
  }

  class Sealer {
    const icv: CheckSum
    const rc4: Arc4.Cipher

    constructor (icv: CheckSum)
      ensures Valid() && fresh(rc4) && fresh(rc4.S) && this.icv == icv
    {
      this.icv := icv;
      rc4 := new Arc4.Cipher();
    }

    ghost predicate Valid() {
      rc4.S.Length == 256
    }

    ghost predicate Apart(buf: array<Byte>) {
      (buf as object) != rc4.S
    }

    /** Appends the check value of n body bytes at pos. */
    method AppendIcv(buf: array<Byte>, pos: nat, n: nat)
      requires pos + n + 4 <= buf.Length
      modifies buf
      ensures Piece(buf[..], pos, n + 4) == Piece(old(buf[..]), pos, n) + icv(Piece(old(buf[..]), pos, n))
      ensures forall x: seq<Byte> {:trigger Put(buf[..], pos, x)} :: |x| == n + 4 ==>
                Put(buf[..], pos, x) == Put(old(buf[..]), pos, x)
    {
      ghost var s := buf[..];
      var c := icv(Piece(buf[..], pos, n));
      Store(buf, pos + n, c);
      PiecePut(s, pos + n, c);
      PieceElsewhere(s, pos + n, c, pos, n);
      PieceSplit(buf[..], pos, n, n + 4);
      assert Piece(buf[..], pos, n + 4) == Piece(buf[..], pos, n + 4)[..n] + Piece(buf[..], pos, n + 4)[n..];
    }

    /** The check value and the encryption of n body bytes at pos. */
    method SealAt(buf: array<Byte>, pos: nat, n: nat, k: seq<Byte>)
      requires Valid() && Apart(buf) && pos + n + 4 <= buf.Length && |k| > 0
      modifies buf, rc4, rc4.S
      ensures buf[..] == SealedBuf(old(buf[..]), pos, n, icv, k)
    {
      AppendIcv(buf, pos, n);
      rc4.CryptWithKey(k, buf, pos, pos + n + 4);
    }

    /** Decrypts n + 4 bytes at pos and compares the check value; x is what they decrypt to. */
    method OpenAt(buf: array<Byte>, pos: nat, n: nat, k: seq<Byte>, ghost x: seq<Byte>) returns (ok: bool)
      requires Valid() && Apart(buf) && pos + n + 4 <= buf.Length && |k| > 0
      requires x == XorStream(Piece(buf[..], pos, n + 4), Rc4Stream(k, n + 4))
      modifies buf, rc4, rc4.S
      ensures buf[..] == Put(old(buf[..]), pos, x)
      ensures ok <==> Genuine(icv, x)
    {
      DecryptedParts(buf[..], pos, n, x);
      rc4.CryptWithKey(k, buf, pos, pos + n + 4);
      var m, c := Piece(buf[..], pos, n), Piece(buf[..], pos + n, 4);
      ok := icv(m) == c;
    }
  }

  lemma DecryptedParts(s: seq<Byte>, pos: nat, n: nat, x: seq<Byte>)
    requires pos + n + 4 <= |s| && |x| == n + 4
    ensures Piece(Put(s, pos, x), pos, n) == x[..n] && Piece(Put(s, pos, x), pos + n, 4) == x[n..]
  {
    PiecePut(s, pos, x);
    PieceSplit(Put(s, pos, x), pos, n, n + 4);
  }

  /** The sections of a received frame f of h + gap + n + 4 bytes at d, before and after its body is replaced by x. */
  lemma ReceivedParts(s: seq<Byte>, d: nat, h: nat, gap: nat, n: nat, f: seq<Byte>, x: seq<Byte>)
    requires d + h + gap + n + 4 <= |s| && f == Piece(s, d, h + gap + n + 4) && |x| == n + 4
    ensures f[h + gap..] == Piece(s, d + h + gap, n + 4)
    ensures Piece(Put(s, d + h + gap, x), d, h) == f[..h] && Piece(Put(s, d + h + gap, x), d + h + gap, n) == x[..n]
  {
    PieceSplit(s, d, h, |f|);
    PieceSplit(s, d, h + gap, |f|);
    PieceElsewhere(s, d + h + gap, x, d, h);
    DecryptedParts(s, d + h + gap, n, x);
  }

  /** The frame in the buffer after its header was written and its body sealed. */
  lemma WholeSealed(s: seq<Byte>, mid: seq<Byte>, d: nat, pos: nat, n: nat, icv: CheckSum, k: seq<Byte>,
                    hdr: seq<Byte>, h: nat, f: seq<Byte>)
    requires h <= |f| && d + |f| + |hdr| + 4 <= |s| && f == Piece(s, d + |hdr|, |f|)
    requires mid == Put(s, d, f[..h] + hdr) && pos == d + h + |hdr| && n == |f| - h
    ensures Piece(SealedBuf(mid, pos, n, icv, k), d, |f| + |hdr| + 4)
            == (f[..h] + hdr) + SealedBody(Rc4Stream, icv, k, f[h..])
  {
    var hd := f[..h] + hdr;
    FrameParts(s, d, |hdr|, hd, f, h);
    WholeFrame(s, d, hd, SealedBody(Rc4Stream, icv, k, f[h..]));
  }
}
