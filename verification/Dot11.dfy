/** ieee80211/ieee80211.h: the header of an 802.11 frame, and the LLC/SNAP header in front of its payload. */
module Dot11 {
  import opened Bytes

  type Mac = a: seq<Byte> | |a| == 6 witness [0, 0, 0, 0, 0, 0]

  // High byte of the frame control field.
  const TODS: Byte := 0x01
  const FROMDS: Byte := 0x02
  const MOREFRAGS: Byte := 0x04
  const PROTECTED: Byte := 0x40

  const HDR_LEN: nat := 24
  const SNAP_LEN: nat := 8

  /** How the station works. */
  datatype Mode = Infra | Adhoc | OtherMode

  // ---- Reading ----

  function HdrLen(f: seq<Byte>): nat
    requires |f| >= 2
  {
    if f[0] & 0x0c == 0x08 then (if f[1] & 0x03 == 0x03 then 30 else 24)
    else if f[0] & 0x0c == 0x04 then (if f[0] & 0xf0 == 0xc0 || f[0] & 0xf0 == 0xd0 then 10 else 16)
    else 24
  }

  predicate More(f: seq<Byte>)
    requires |f| >= 2
  {
    f[1] & MOREFRAGS != 0
  }

  predicate Protected(f: seq<Byte>)
    requires |f| >= 2
  {
    f[1] & PROTECTED != 0
  }

  function Addr1(f: seq<Byte>): Mac requires |f| >= HDR_LEN { f[4..10] }

  function Addr2(f: seq<Byte>): Mac requires |f| >= HDR_LEN { f[10..16] }

  function Addr3(f: seq<Byte>): Mac requires |f| >= HDR_LEN { f[16..22] }

  predicate FourAddresses(f: seq<Byte>) requires |f| >= 2 { f[1] & 0x03 == 0x03 }

  /** The destination and the source of the MSDU, by the two distribution system bits. */
  function DstOf(f: seq<Byte>): Mac
    requires |f| >= HDR_LEN
  {
    if f[1] & TODS != 0 then Addr3(f) else Addr1(f)
  }

  function SrcOf(f: seq<Byte>): Mac
    requires |f| >= HDR_LEN && (FourAddresses(f) ==> |f| >= 30)
  {
    if FourAddresses(f) then f[24..30] else if f[1] & FROMDS != 0 then Addr3(f) else Addr2(f)
  }

  /** The fragment number. */
  function FragOf(f: seq<Byte>): Byte requires |f| >= HDR_LEN { f[22] & 0x0f }

  /** The two bytes of the sequence control field without the fragment number. */
  function SeqOf(f: seq<Byte>): (Byte, Byte) requires |f| >= HDR_LEN { (f[22] & 0xf0, f[23]) }

  // ---- Writing ----

  type Seq12 = s: bv16 | s <= 0xfff witness 0

  function NextSeq(s: Seq12): Seq12 { if s == 0xfff then 0 else s + 1 }

  type Index = i: nat | i < 16

  function FragByte(i: Index): Byte { i as Byte }

  lemma FragByteIs(i: Index)
    ensures FragByte(i) & 0x0f == FragByte(i) && (FragByte(i) == 0 <==> i == 0)
  {
  }

  lemma NextFragByte(i: Index)
    requires i < 15
    ensures FragByte(i + 1) == FragByte(i) + 1
  {
  }

  lemma FragByteInjective(i: Index, j: Index)
    requires FragByte(i) == FragByte(j)
    ensures i == j
  {
  }

  function SeqLow(s: Seq12): Byte { ((s << 4) & 0xf0) as Byte }

  function SeqHigh(s: Seq12): Byte { ((s >> 4) & 0xff) as Byte }

  function SeqBytes(s: Seq12): (Byte, Byte) { (SeqLow(s), SeqHigh(s)) }

  lemma SeqLowIs(s: Seq12)
    ensures SeqLow(s) & 0x0f == 0 && SeqLow(s) & 0xf0 == SeqLow(s)
  {
  }

  /** A three-address data frame header. */
  function Header(flags: Byte, a1: Mac, a2: Mac, a3: Mac, s: Seq12, i: Index): (h: seq<Byte>)
    ensures |h| == HDR_LEN
  {
    [0x08, flags, 0, 0] + a1 + a2 + a3 + [SeqLow(s) | FragByte(i), SeqHigh(s)]
  }

  lemma SeqField(s: Seq12, i: Index)
    ensures (SeqLow(s) | FragByte(i)) & 0x0f == FragByte(i)
    ensures (SeqLow(s) | FragByte(i)) & 0xf0 == SeqLow(s)
  {
    FragByteIs(i);
    SeqLowIs(s);
    SplitByte(SeqLow(s), FragByte(i));
  }

  lemma SplitByte(a: Byte, b: Byte)
    requires a & 0x0f == 0 && a & 0xf0 == a && b & 0x0f == b
    ensures (a | b) & 0x0f == b && (a | b) & 0xf0 == a
  {
  }

  /** Reading a header gives back what was written, whatever follows it. */
  lemma HeaderFields(flags: Byte, a1: Mac, a2: Mac, a3: Mac, s: Seq12, i: Index, f: seq<Byte>)
    requires |f| >= HDR_LEN && f[..HDR_LEN] == Header(flags, a1, a2, a3, s, i)
    ensures f[0] == 0x08 && f[1] == flags
    ensures Addr1(f) == a1 && Addr2(f) == a2 && Addr3(f) == a3
    ensures SeqOf(f) == SeqBytes(s) && FragOf(f) == FragByte(i)
  {
    var h := Header(flags, a1, a2, a3, s, i);
    SeqField(s, i);
    assert f[0] == h[0] && f[1] == h[1] && f[22] == h[22] && f[23] == h[23];
    assert f[4..10] == h[4..10] && f[10..16] == h[10..16] && f[16..22] == h[16..22];
  }

  // ---- SNAP ----

  const RFC1042: seq<Byte> := [0xaa, 0xaa, 0x03, 0x00, 0x00, 0x00]
  const BRIDGE_TUNNEL: seq<Byte> := [0xaa, 0xaa, 0x03, 0x00, 0x00, 0xf8]

  /** The two protocols that are sent under the bridge-tunnel header: AARP and IPX. */
  predicate Tunnelled(t: seq<Byte>) {
    t == [0x80, 0xf3] || t == [0x81, 0x37]
  }

  /** ieee80211_put_snap; t is the protocol in network byte order. */
  function Snap(t: seq<Byte>): (s: seq<Byte>)
    requires |t| == 2
    ensures |s| == SNAP_LEN
  {
    (if Tunnelled(t) then BRIDGE_TUNNEL else RFC1042) + t
  }

  /** A payload whose encapsulation ieee80211_rx takes off. */
  predicate Encapsulated(p: seq<Byte>) {
    |p| >= SNAP_LEN && ((p[..6] == RFC1042 && !Tunnelled(p[6..8])) || p[..6] == BRIDGE_TUNNEL)
  }

  /** The Ethernet frame ieee80211_rx makes of a payload: the protocol from the SNAP header, or else the
      payload's length. */
  function Ethernet(dst: Mac, src: Mac, p: seq<Byte>): seq<Byte> {
    dst + src + (if Encapsulated(p) then p[6..] else LengthField(|p|) + p)
  }

  /** htons of a length. */
  function LengthField(n: nat): seq<Byte> { [(n / 256 % 256) as Byte, (n % 256) as Byte] }

  /** Decapsulating what was encapsulated gives back the Ethernet frame, for every protocol number. */
  lemma EncapsulationUndone(dst: Mac, src: Mac, t: seq<Byte>, data: seq<Byte>)
    requires |t| == 2
    ensures Ethernet(dst, src, Snap(t) + data) == dst + src + t + data
  {
    var p := Snap(t) + data;
    assert p[..6] == if Tunnelled(t) then BRIDGE_TUNNEL else RFC1042;
    assert p[6..8] == t && p[6..] == t + data;
  }
}
