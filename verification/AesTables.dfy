/** ieee80211/aes.c, gen_tabs: the logarithm, S-box and round tables. */
module AesTables {
  import opened Gf256
  import opened AesSpec
  import opened Words

  // ---- Byte-indexed tables ----

  function At<T>(tab: array<T>, b: bv8): T
    requires tab.Length == 256
    reads tab
  {
    tab[b as int]
  }

  lemma SeqAt<T>(tab: array<T>, b: bv8)
    requires tab.Length == 256
    ensures tab[..][b as int] == At(tab, b)
  {
  }

  method Put<T>(tab: array<T>, b: bv8, v: T)
    requires tab.Length == 256
    modifies tab
    ensures At(tab, b) == v
    ensures forall c: bv8 :: c != b ==> At(tab, c) == old(At(tab, c))
  {
    tab[b as int] := v;
  }

  lemma IndexOfByte(i: nat)
    requires i < 256
    ensures (i as bv8) as nat == i
  {
    assert i % 256 == i;
  }

  // ---- What the tables hold ----

  /** The column 2s, s, s, 3s of a substituted byte s. */
  function ForwardWord(s: bv8): bv32 { Pack(Col(Mul(s, 2), s, s, Mul(s, 3))) }

  /** The column 14s, 9s, 13s, 11s of an inversely substituted byte s. */
  function InverseWord(s: bv8): bv32 { Pack(Col(Mul(s, 14), Mul(s, 9), Mul(s, 13), Mul(s, 11))) }

  function LastWord(s: bv8): bv32 { Pack(Col(s, 0, 0, 0)) }

  /** The words tab[0][i] to tab[3][i] of one family of round tables. */
  datatype Entry = Entry(w0: bv32, w1: bv32, w2: bv32, w3: bv32)

  /** Tables 1 to 3 of a family hold the word of table 0 rotated left by 1 to 3 bytes. */
  function Rotations(w: bv32): Entry { Entry(w, RotlByte(w), RotlHalf(w), RotrByte(w)) }

  class Tables {
    const pow: array<bv8>
    const log: array<nat>
    const sbx: array<bv8>
    const isb: array<bv8>
    const rco: array<bv32>
    const ft: array<Entry>
    const it: array<Entry>
    const fl: array<Entry>
    const il: array<Entry>

    ghost predicate Shape()
    {
      pow.Length == log.Length == sbx.Length == isb.Length == 256 && rco.Length == 10 &&
      ft.Length == it.Length == fl.Length == il.Length == 256 &&
      pow != sbx && pow != isb && sbx != isb && (log as object) !in {pow as object, sbx, isb} &&
      {pow as object, log, sbx, isb, rco} !! {ft as object, it, fl, il} &&
      ft != it && ft != fl && ft != il && it != fl && it != il && fl != il
    }

    /** log is a discrete logarithm to base 3 and pow its inverse. */
    ghost predicate LogsReady()
      requires Shape()
      reads pow, log
    {
      (forall j: nat {:trigger pow[j]} :: j < 256 ==> pow[j] == Power(j)) &&
      (forall b: bv8 :: b != 0 ==> At(log, b) < 256 && Power(At(log, b)) == b)
    }

    ghost predicate SboxReady()
      requires Shape()
      reads sbx, isb
    {
      forall b: bv8 :: At(sbx, b) == SubByte(b) && At(isb, b) == InvSubByte(b)
    }

    ghost predicate RconReady()
      requires Shape()
      reads rco
    {
      forall i: nat {:trigger rco[i]} :: i < 10 ==> rco[i] == Pack(Rcon(i + 1))
    }

    /** The round tables hold the words of the S-box entries. */
    predicate RoundsReadyAt(b: bv8)
      requires Shape()
      reads sbx, isb, ft, it, fl, il
    {
      At(ft, b) == Rotations(ForwardWord(At(sbx, b))) && At(fl, b) == Rotations(LastWord(At(sbx, b))) &&
      At(it, b) == Rotations(InverseWord(At(isb, b))) && At(il, b) == Rotations(LastWord(At(isb, b)))
    }

    /** The tables gen_tabs leaves behind. */
    ghost predicate Ready()
      reads pow, log, sbx, isb, rco, ft, it, fl, il
    {
      Shape() && LogsReady() && SboxReady() && RconReady() &&
      (forall b: bv8 :: RoundsReadyAt(b))
    }

    constructor ()
      ensures Shape()
    {
      pow, log, sbx, isb := new bv8[256], new nat[256], new bv8[256], new bv8[256];
      rco := new bv32[10];
      ft, it, fl, il := new Entry[256], new Entry[256], new Entry[256], new Entry[256];
    }

    /** gen_tabs. */
    method GenTabs()
      requires Shape()
      modifies pow, log, sbx, isb, rco, ft, it, fl, il
      ensures Ready()
    {
      GenLogs();
      GenRcon();
      GenSbox();
      GenRoundTables();
    }

    method GenLogs()
      requires Shape()
      modifies pow, log
      ensures LogsReady()
    {
      var p: bv8 := 1;
      for i := 0 to 256
        invariant p == Power(i)
        invariant forall j: nat {:trigger pow[j]} :: j < i ==> pow[j] == Power(j)
        invariant forall j: nat {:trigger At(log, Power(j))} :: j < i ==>
                    At(log, Power(j)) < 256 && Power(At(log, Power(j))) == Power(j)
      {
        pow[i] := p;
        Put(log, p, i);
        p := p ^ XTime(p);
      }
      Put(log, 1, 0);
      forall b: bv8 | b != 0 ensures At(log, b) < 256 && Power(At(log, b)) == b {
        Generator(b);
      }
    }

    method GenRcon()
      requires Shape()
      modifies rco
      ensures RconReady()
    {
      var p: bv8 := 1;
      for i := 0 to 10
        invariant p == XPower(i)
        invariant forall j: nat {:trigger rco[j]} :: j < i ==> rco[j] == Pack(Rcon(j + 1))
      {
        rco[i] := p as bv32;
        p := XTime(p);
      }
    }

    /** The multiplication by logarithms that the tables are built with. */
    function FMult(a: bv8, b: bv8): bv8
      requires Shape() && LogsReady() && a != 0 && b != 0
      reads pow, log
    {
      pow[LogSum(At(log, a), At(log, b))]
    }

    /** FMult is multiplication in GF(2^8). */
    lemma FMultIsMul(a: bv8, b: bv8)
      requires Shape() && LogsReady() && a != 0 && b != 0
      ensures FMult(a, b) == Mul(a, b) == Mul(b, a)
    {
      ProductByLogs(At(log, a), At(log, b));
    }

    method SboxEntry(c: bv8) returns (p: bv8)
      requires Shape() && LogsReady()
      ensures p == SubByte(c)
    {
      p := 0;
      if c != 0 {
        p := pow[255 - At(log, c)];
        LogGivesInverse(c);
      }
      var q := ((p >> 7) | (p << 1)) ^ ((p >> 6) | (p << 2));
      AffineByPairs(p);
      p := p ^ 0x63 ^ q ^ ((q >> 6) | (q << 2));
    }

    method GenSbox()
      requires Shape() && LogsReady()
      modifies sbx, isb
      ensures SboxReady()
    {
      for i := 0 to 256
        invariant forall b: bv8 :: b as int < i ==> At(sbx, b) == SubByte(b) && At(isb, SubByte(b)) == b
      {
        var c := i as bv8;
        IndexOfByte(i);
        var p := SboxEntry(c);
        forall b: bv8 | b as int < i ensures SubByte(b) != SubByte(c) {
          SubByteInverse(b); SubByteInverse(c);
        }
        Put(sbx, c, p);
        Put(isb, p, c);
      }
      forall b: bv8 ensures At(sbx, b) == SubByte(b) && At(isb, b) == InvSubByte(b) {
        SubByteInverse(b);
      }
    }

    lemma LogGivesInverse(c: bv8)
      requires Shape() && LogsReady() && c != 0
      ensures pow[255 - At(log, c)] == Inverse(c)
    {
      var k := At(log, c);
      PowerAdd(k, 255 - k);
      PowerCycle(0);
      InverseUnique(c, Inverse(c), Power(255 - k));
    }

    function FFMult(a: bv8, b: bv8): bv8
      requires Shape() && LogsReady()
      reads pow, log
    {
      if a != 0 && b != 0 then FMult(a, b) else 0
    }

    lemma FFMultIsMul(a: bv8, b: bv8)
      requires Shape() && LogsReady() && a != 0
      ensures FFMult(a, b) == Mul(b, a)
    {
      if b != 0 { FMultIsMul(a, b); } else { ZeroMulBits(8, a); }
    }

    method PutRow(c: bv8)
      requires Shape() && LogsReady()
      modifies ft, it, fl, il
      ensures RoundsReadyAt(c)
      ensures forall b: bv8 :: b != c ==> At(ft, b) == old(At(ft, b)) && At(fl, b) == old(At(fl, b)) &&
                                          At(it, b) == old(At(it, b)) && At(il, b) == old(At(il, b))
    {
      var p := At(sbx, c);
      Put(fl, c, Rotations(Pack(Col(p, 0, 0, 0))));
      FFMultIsMul(2, p); FFMultIsMul(3, p);
      Put(ft, c, Rotations(Pack(Col(FFMult(2, p), p, p, FFMult(3, p)))));
      p := At(isb, c);
      Put(il, c, Rotations(Pack(Col(p, 0, 0, 0))));
      FFMultIsMul(14, p); FFMultIsMul(9, p); FFMultIsMul(13, p); FFMultIsMul(11, p);
      Put(it, c, Rotations(Pack(Col(FFMult(14, p), FFMult(9, p), FFMult(13, p), FFMult(11, p)))));
    }

    method GenRoundTables()
      requires Shape() && LogsReady()
      modifies ft, it, fl, il
      ensures forall b: bv8 :: RoundsReadyAt(b)
    {
      for i := 0 to 256
        invariant forall b: bv8 :: b as int < i ==> RoundsReadyAt(b)
      {
        var c := i as bv8;
        IndexOfByte(i);
        label before:
        PutRow(c);
        forall b: bv8 | b as int <= i ensures RoundsReadyAt(b) {
          if b != c {
            assert b as int != i;
            assert old@before(RoundsReadyAt(b));
            assert At(sbx, b) == old@before(At(sbx, b)) && At(isb, b) == old@before(At(isb, b));
          }
        }
      }
    }
  }

  /** The two-step rotation of gen_tabs computes the affine map of the S-box. */
  lemma AffineByPairs(p: bv8)
    ensures var q := ((p >> 7) | (p << 1)) ^ ((p >> 6) | (p << 2));
            p ^ 0x63 ^ q ^ ((q >> 6) | (q << 2)) == Affine(p)
  {
  }
}
