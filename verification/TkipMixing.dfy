/** ieee80211/ieee80211_crypt_tkip.c: the key mixing of TKIP (section 8.3.2.5 of IEEE 802.11i-2004). */
module TkipMixing {
  import opened Bytes
  import opened Dot11
  import opened Numbers

  function Add16(a: W16, b: W16): W16 { (a + b) % 0x1_0000 }

  function RotR1(v: W16): W16 { v / 2 + v % 2 * 0x8000 }

  function Swap16(v: W16): W16 { v % 0x100 * 0x100 + v / 0x100 }

  function Xor16(a: W16, b: W16): W16 { Mk16(XorByte(Hi8(a), Hi8(b)), XorByte(Lo8(a), Lo8(b))) }

  lemma Cancel(x: W16, y: W16, c: W16)
    requires Add16(x, c) == Add16(y, c)
    ensures x == y
  {
  }

  // ---- A ring of words, each increased by a function of the one before ----

  type RingFn = (nat, W16) -> W16

  function Before(i: nat, n: nat): nat
    requires i < n
  {
    if i == 0 then n - 1 else i - 1
  }

  function Turned(g: RingFn, p: seq<W16>, i: nat): (r: seq<W16>)
    requires i < |p|
    ensures |r| == |p|
  {
    p[i := Add16(p[i], g(i, p[Before(i, |p|)]))]
  }

  /** The words from i on are increased, one after the other. */
  function Ring(g: RingFn, p: seq<W16>, i: nat): (r: seq<W16>)
    requires i <= |p|
    ensures |r| == |p|
    decreases |p| - i
  {
    if i == |p| then p else Ring(g, Turned(g, p, i), i + 1)
  }

  lemma TurnedInjective(g: RingFn, p: seq<W16>, q: seq<W16>, i: nat)
    requires i < |p| == |q| && |p| >= 2 && Turned(g, p, i) == Turned(g, q, i)
    ensures p == q
  {
    var b := Before(i, |p|);
    forall j | 0 <= j < |p| && j != i ensures p[j] == q[j] {
      assert Turned(g, p, i)[j] == p[j] && Turned(g, q, i)[j] == q[j];
    }
    assert Turned(g, p, i)[i] == Add16(p[i], g(i, p[b])) && Turned(g, q, i)[i] == Add16(q[i], g(i, q[b]));
    Cancel(p[i], q[i], g(i, p[b]));
  }

  lemma {:induction false} RingInjective(g: RingFn, p: seq<W16>, q: seq<W16>, i: nat)
    requires i <= |p| == |q| && |p| >= 2 && Ring(g, p, i) == Ring(g, q, i)
    ensures p == q
    decreases |p| - i
  {
    if i < |p| {
      RingInjective(g, Turned(g, p, i), Turned(g, q, i), i + 1);
      TurnedInjective(g, p, q, i);
    }
  }

  /** One ring after the other. */
  function Rings(gs: seq<RingFn>, p: seq<W16>): (r: seq<W16>)
    ensures |r| == |p|
    decreases |gs|
  {
    if gs == [] then p else Rings(gs[1..], Ring(gs[0], p, 0))
  }

  lemma {:induction false} RingsInjective(gs: seq<RingFn>, p: seq<W16>, q: seq<W16>)
    requires |p| == |q| >= 2 && Rings(gs, p) == Rings(gs, q)
    ensures p == q
    decreases |gs|
  {
    if gs != [] {
      RingsInjective(gs[1..], Ring(gs[0], p, 0), Ring(gs[0], q, 0));
      RingInjective(gs[0], p, q, 0);
    }
  }

  // ---- Phase 1 ----

  /** The S-box of 256 words, and the temporal key of 16 bytes. */
  datatype Mixer = Mixer(sbox: Byte -> W16, tk: seq<Byte>)

  /** The macro _S_. */
  function S(sbox: Byte -> W16, v: W16): W16 { Xor16(sbox(Lo8(v)), Swap16(sbox(Hi8(v)))) }

  function KeyWord(m: Mixer, at: nat): W16 {
    if at + 1 < |m.tk| then Mk16(m.tk[at + 1], m.tk[at]) else 0
  }

  const PHASE1_LOOP_COUNT: nat := 8

  /** What round i adds to word k, whose predecessor is v. */
  function RoundWord(m: Mixer, i: nat, k: nat, v: W16): W16 {
    var j := 2 * (i % 2);
    var s := S(m.sbox, Xor16(v, KeyWord(m, if k == 4 then j else 4 * k + j)));
    if k == 4 && i < 8 then Add16(s, i) else s
  }

  function RoundFn(m: Mixer, i: nat): RingFn {
    (k: nat, v: W16) => RoundWord(m, i, k, v)
  }

  function RoundFns(m: Mixer): (gs: seq<RingFn>)
    ensures |gs| == PHASE1_LOOP_COUNT
  {
    seq(PHASE1_LOOP_COUNT, i requires 0 <= i => RoundFn(m, i))
  }

  function Initial(ta: Mac, iv32: U32): (t: seq<W16>)
    ensures |t| == 5
  {
    [iv32 % 0x1_0000, iv32 / 0x1_0000, Mk16(ta[1], ta[0]), Mk16(ta[3], ta[2]), Mk16(ta[5], ta[4])]
  }

  type Ttak = t: seq<W16> | |t| == 5 witness [0, 0, 0, 0, 0]

  function Phase1(m: Mixer, ta: Mac, iv32: U32): Ttak {
    Rings(RoundFns(m), Initial(ta, iv32))
  }

  lemma InitialInjective(ta: Mac, iv: U32, ta': Mac, iv': U32)
    requires Initial(ta, iv) == Initial(ta', iv')
    ensures ta == ta' && iv == iv'
  {
    var t, u := Initial(ta, iv), Initial(ta', iv');
    assert t[0] == u[0] && t[1] == u[1] && t[2] == u[2] && t[3] == u[3] && t[4] == u[4];
    Mk16Injective(ta[1], ta[0], ta'[1], ta'[0]);
    Mk16Injective(ta[3], ta[2], ta'[3], ta'[2]);
    Mk16Injective(ta[5], ta[4], ta'[5], ta'[4]);
  }

  /** For one key, different transmitters or upper counters have different phase 1 results. */
  lemma Phase1Injective(m: Mixer, ta: Mac, iv: U32, ta': Mac, iv': U32)
    requires Phase1(m, ta, iv) == Phase1(m, ta', iv')
    ensures ta == ta' && iv == iv'
  {
    RingsInjective(RoundFns(m), Initial(ta, iv), Initial(ta', iv'));
    InitialInjective(ta, iv, ta', iv');
  }

  // ---- Phase 2 ----

  function MixWord(m: Mixer, i: nat, k: nat, v: W16): W16 {
    if i == 0 then S(m.sbox, Xor16(v, KeyWord(m, 2 * k)))
    else RotR1(if k < 2 then Xor16(v, KeyWord(m, 12 + 2 * k)) else v)
  }

  function MixFn(m: Mixer, i: nat): RingFn {
    (k: nat, v: W16) => MixWord(m, i, k, v)
  }

  /** The two halves of step 2. */
  function MixFns(m: Mixer): (gs: seq<RingFn>)
    ensures |gs| == 2
  {
    [MixFn(m, 0), MixFn(m, 1)]
  }

  function Ppk(m: Mixer, ttak: seq<W16>, iv16: W16): (p: seq<W16>)
    requires |ttak| == 5
    ensures |p| == 6
  {
    Rings(MixFns(m), ttak + [Add16(iv16, ttak[4])])
  }

  function WordBytes(p: seq<W16>): (b: seq<Byte>)
    ensures |b| == 2 * |p|
  {
    if p == [] then [] else [Lo8(p[0]), Hi8(p[0])] + WordBytes(p[1..])
  }

  function SecondByte(iv16: W16): Byte { (Hi8(iv16) | 0x20) & 0x7f }

  /** The three bytes of the lower counter as they are sent. */
  function IvBytes(iv16: W16): (b: seq<Byte>)
    ensures |b| == 3
  {
    [Hi8(iv16), SecondByte(iv16), Lo8(iv16)]
  }

  function Half(v: W16): W16 { v / 2 }

  /** Step 3. */
  function Seed(m: Mixer, p: seq<W16>, iv16: W16): (seed: seq<Byte>)
    requires |p| == 6
    ensures |seed| == 16
  {
    IvBytes(iv16) + [Lo8(Half(Xor16(p[5], KeyWord(m, 0))))] + WordBytes(p)
  }

  /** The RC4 key of a frame. */
  function Phase2(m: Mixer, ttak: Ttak, iv16: W16): (seed: seq<Byte>)
    ensures |seed| == 16
  {
    Seed(m, Ppk(m, ttak, iv16), iv16)
  }

  lemma {:induction false} WordBytesInjective(p: seq<W16>, q: seq<W16>)
    requires |p| == |q| && WordBytes(p) == WordBytes(q)
    ensures p == q
    decreases |p|
  {
    if p != [] {
      assert WordBytes(p)[2..] == WordBytes(p[1..]) && WordBytes(q)[2..] == WordBytes(q[1..]);
      WordBytesInjective(p[1..], q[1..]);
      assert WordBytes(p)[0] == Lo8(p[0]) && WordBytes(p)[1] == Hi8(p[0]);
      assert WordBytes(q)[0] == Lo8(q[0]) && WordBytes(q)[1] == Hi8(q[0]);
      HalvesInjective(p[0], q[0]);
    }
  }

  lemma HalvesInjective(a: W16, b: W16)
    requires Lo8(a) == Lo8(b) && Hi8(a) == Hi8(b)
    ensures a == b
  {
    ByteInjective(a % 0x100, b % 0x100);
    ByteInjective(a / 0x100, b / 0x100);
  }

  lemma Phase2Injective(m: Mixer, t: Ttak, iv: W16, t': Ttak, iv': W16)
    requires Phase2(m, t, iv) == Phase2(m, t', iv')
    ensures t == t' && iv == iv'
  {
    var p, p' := Ppk(m, t, iv), Ppk(m, t', iv');
    assert WordBytes(p) == Phase2(m, t, iv)[4..] && WordBytes(p') == Phase2(m, t', iv')[4..];
    WordBytesInjective(p, p');
    var a, b := t + [Add16(iv, t[4])], t' + [Add16(iv', t'[4])];
    RingsInjective(MixFns(m), a, b);
    assert t == a[..5] && t' == b[..5] && a[5] == b[5];
    Cancel(iv, iv', t[4]);
  }

  /** For one temporal key and any S-box, the RC4 key of a frame determines transmitter and counter. */
  lemma MixingInjective(m: Mixer, ta: Mac, iv32: U32, iv16: W16, ta': Mac, iv32': U32, iv16': W16)
    requires Phase2(m, Phase1(m, ta, iv32), iv16) == Phase2(m, Phase1(m, ta', iv32'), iv16')
    ensures ta == ta' && iv32 == iv32' && iv16 == iv16'
  {
    Phase2Injective(m, Phase1(m, ta, iv32), iv16, Phase1(m, ta', iv32'), iv16');
    Phase1Injective(m, ta, iv32, ta', iv32');
  }

  // ---- In place ----

  /** One assignment of a mixing step: word k grows by what g makes of its predecessor. */
  method Turn(g: RingFn, a: array<W16>, k: nat)
    requires 2 <= a.Length && k < a.Length
    modifies a
    ensures a[..] == Turned(g, old(a[..]), k)
  {
    a[k] := Add16(a[k], g(k, a[if k == 0 then a.Length - 1 else k - 1]));
  }

  /** One round of phase 1. */
  method RoundInPlace(g: RingFn, t: array<W16>)
    requires t.Length == 5
    modifies t
    ensures t[..] == Ring(g, old(t[..]), 0)
  {
    ghost var goal := Ring(g, t[..], 0);
    Turn(g, t, 0);
    assert Ring(g, t[..], 1) == goal;
    Turn(g, t, 1);
    assert Ring(g, t[..], 2) == goal;
    Turn(g, t, 2);
    assert Ring(g, t[..], 3) == goal;
    Turn(g, t, 3);
    assert Ring(g, t[..], 4) == goal;
    Turn(g, t, 4);
    assert Ring(g, t[..], 5) == goal;
  }

  /** Half of step 2 of phase 2. */
  method MixInPlace(g: RingFn, p: array<W16>)
    requires p.Length == 6
    modifies p
    ensures p[..] == Ring(g, old(p[..]), 0)
  {
    ghost var goal := Ring(g, p[..], 0);
    Turn(g, p, 0);
    assert Ring(g, p[..], 1) == goal;
    Turn(g, p, 1);
    assert Ring(g, p[..], 2) == goal;
    Turn(g, p, 2);
    assert Ring(g, p[..], 3) == goal;
    Turn(g, p, 3);
    assert Ring(g, p[..], 4) == goal;
    Turn(g, p, 4);
    assert Ring(g, p[..], 5) == goal;
    Turn(g, p, 5);
    assert Ring(g, p[..], 6) == goal;
  }

  method SetInitial(ta: Mac, iv32: U32, ttak: array<W16>)
    requires ttak.Length == 5
    modifies ttak
    ensures ttak[..] == Initial(ta, iv32)
  {
    ttak[0] := iv32 % 0x1_0000;
    ttak[1] := iv32 / 0x1_0000;
    ttak[2] := Mk16(ta[1], ta[0]);
    ttak[3] := Mk16(ta[3], ta[2]);
    ttak[4] := Mk16(ta[5], ta[4]);
  }

  /** tkip_mixing_phase1. */
  method MixPhase1(m: Mixer, ta: Mac, iv32: U32, ttak: array<W16>)
    requires ttak.Length == 5
    modifies ttak
    ensures ttak[..] == Phase1(m, ta, iv32)
  {
    SetInitial(ta, iv32, ttak);
    MixRounds(RoundFns(m), ttak, Phase1(m, ta, iv32));
  }

  /** The loop of phase 1. */
  method MixRounds(gs: seq<RingFn>, t: array<W16>, ghost goal: seq<W16>)
    requires t.Length == 5 && Rings(gs, t[..]) == goal
    modifies t
    ensures t[..] == goal
  {
    for i := 0 to |gs|
      invariant Rings(gs[i..], t[..]) == goal
    {
      assert gs[i..][0] == gs[i] && gs[i..][1..] == gs[i + 1..];
      RoundInPlace(gs[i], t);
    }
  }

  /** Step 2 of phase 2. */
  method MixTwice(gs: seq<RingFn>, p: array<W16>)
    requires p.Length == 6 && |gs| == 2
    modifies p
    ensures p[..] == Rings(gs, old(p[..]))
  {
    ghost var goal := Rings(gs, p[..]);
    MixInPlace(gs[0], p);
    assert Rings(gs[1..], p[..]) == goal;
    MixInPlace(gs[1], p);
    assert gs[1..][1..] == [];
  }

  /** tkip_mixing_phase2. */
  method MixPhase2(m: Mixer, ttak: array<W16>, iv16: W16) returns (seed: seq<Byte>)
    requires ttak.Length == 5
    ensures seed == Phase2(m, ttak[..], iv16)
  {
    var p := new W16[6];
    for i := 0 to 5
      invariant forall j :: 0 <= j < i ==> p[j] == ttak[j]
    {
      p[i] := ttak[i];
    }
    p[5] := Add16(iv16, ttak[4]);
    assert p[..] == ttak[..] + [Add16(iv16, ttak[4])];
    MixTwice(MixFns(m), p);
    seed := Seed(m, p[..], iv16);
  }
}
