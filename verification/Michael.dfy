/** ieee80211/michael_mic.c: the Michael message integrity code (section 8.3.2.3 of IEEE 802.11i-2004). */
module Michael {
  import opened Bytes
  import opened WordFeed

  type Word = bv32

  // ---- The block function ----

  function Rotl(v: Word, n: nat): Word
    requires 0 < n < 32
  {
    (v << n) | (v >> (32 - n))
  }

  function Rotr(v: Word, n: nat): Word
    requires 0 < n < 32
  {
    (v >> n) | (v << (32 - n))
  }

  function XSwap(v: Word): Word { ((v & 0x00ff00ff) << 8) | ((v & 0xff00ff00) >> 8) }

  datatype Half = Half(l: Word, r: Word)

  function Xor32(a: Word, b: Word): Word { a ^ b }

  function Add32(a: Word, b: Word): Word { a + b }

  /** Two lines of the macro michael_block: r ^= x; l += r. */
  function Turn(s: Half, x: Word): Half { Half(Add32(s.l, Xor32(s.r, x)), Xor32(s.r, x)) }

  function Block(s: Half): Half {
    var a := Turn(s, Rotl(s.l, 17));
    var b := Turn(a, XSwap(a.l));
    var c := Turn(b, Rotl(b.l, 3));
    Turn(c, Rotr(c.l, 2))
  }

  function Le32(a: Byte, b: Byte, c: Byte, d: Byte): Word {
    (a as Word) | ((b as Word) << 8) | ((c as Word) << 16) | ((d as Word) << 24)
  }

  function Le32Bytes(w: Word): (b: seq<Byte>)
    ensures |b| == 4
  {
    [(w & 0xff) as Byte, ((w >> 8) & 0xff) as Byte, ((w >> 16) & 0xff) as Byte, ((w >> 24) & 0xff) as Byte]
  }

  /** One word of the message. */
  function Mixed(s: Half, w: seq<Byte>): Half {
    if |w| != 4 then s else Block(Half(Xor32(s.l, Le32(w[0], w[1], w[2], w[3])), s.r))
  }

  function KeyHalf(key: seq<Byte>): Half
    requires |key| == 8
  {
    Half(Le32(key[0], key[1], key[2], key[3]), Le32(key[4], key[5], key[6], key[7]))
  }

  function Output(s: Half): (b: seq<Byte>)
    ensures |b| == 8
  {
    Le32Bytes(s.l) + Le32Bytes(s.r)
  }

  /** The code of a message under a key of eight bytes: Michael over the padded message. */
  function Mic(key: seq<Byte>, m: seq<Byte>): (b: seq<Byte>)
    requires |key| == 8
    ensures |b| == 8
  {
    Output(Words(Mixed, KeyHalf(key), Padded(m)))
  }

  lemma XorZero(v: Word)
    ensures Xor32(v, Le32(0, 0, 0, 0)) == v
  {
  }

  lemma ZeroWordIsBlock(s: Half)
    ensures Mixed(s, ZERO_WORD) == Block(s)
  {
    XorZero(s.l);
    var b := Half(Xor32(s.l, Le32(0, 0, 0, 0)), s.r);
    assert b == s;
    assert Mixed(s, ZERO_WORD) == Block(b);
  }

  // ---- In place ----

  class Context {
    const pending: array<Byte>
    var pendingLen: nat
    var l: Word
    var r: Word

    constructor ()
      ensures Valid() && fresh(pending)
    {
      pending := new Byte[4];
      pendingLen, l, r := 0, 0, 0;
    }

    ghost predicate Valid()
      reads this
    {
      pending.Length == 4 && pendingLen < 4
    }

    ghost function View(): State<Half>
      requires Valid()
      reads this, pending
    {
      State(Half(l, r), pending[..pendingLen])
    }

    /** michael_init. */
    method Init()
      requires Valid()
      modifies `pendingLen
      ensures Valid() && pendingLen == 0
    {
      pendingLen := 0;
    }

    /** michael_setkey. */
    method SetKey(key: seq<Byte>) returns (ok: bool)
      requires Valid()
      modifies `l, `r
      ensures Valid() && (ok <==> |key| == 8) && (ok ==> Half(l, r) == KeyHalf(key)) &&
              (!ok ==> l == old(l) && r == old(r))
    {
      if |key| != 8 {
        return false;
      }
      l := Le32(key[0], key[1], key[2], key[3]);
      r := Le32(key[4], key[5], key[6], key[7]);
      return true;
    }

    method MixTurn(x: Word)
      modifies `l, `r
      ensures Half(l, r) == Turn(old(Half(l, r)), x)
    {
      r := Xor32(r, x);
      l := Add32(l, r);
    }

    /** The macro michael_block. */
    method MixBlock()
      modifies `l, `r
      ensures Half(l, r) == Block(old(Half(l, r)))
    {
      MixTurn(Rotl(l, 17));
      MixTurn(XSwap(l));
      MixTurn(Rotl(l, 3));
      MixTurn(Rotr(l, 2));
    }

    method MixWord(w: seq<Byte>)
      requires |w| == 4
      modifies `l, `r
      ensures Half(l, r) == Mixed(old(Half(l, r)), w)
    {
      l := Xor32(l, Le32(w[0], w[1], w[2], w[3]));
      MixBlock();
    }

    /** The loop over whole words, and the rest. */
    method UpdateWords(data: seq<Byte>)
      requires Valid() && pendingLen == 0
      modifies this, pending
      ensures Valid() && View() == Fed(Mixed, State(old(Half(l, r)), []), data)
    {
      ghost var goal := Fed(Mixed, State(Half(l, r), []), data);
      var d := data;
      while |d| >= 4
        invariant pendingLen == 0 && Fed(Mixed, State(Half(l, r), []), d) == goal
        decreases |d|
      {
        FedWord(Mixed, Half(l, r), d);
        MixWord(d[..4]);
        d := d[4..];
      }
      FedRest(Mixed, Half(l, r), [], d);
      if |d| > 0 {
        pendingLen := |d|;
        Store(pending, 0, d);
      }
      assert pending[..pendingLen] == [] + d;
    }

    /** michael_update. */
    method Update(data: seq<Byte>)
      requires Valid()
      modifies this, pending
      ensures Valid() && View() == Fed(Mixed, old(View()), data)
    {
      var d := data;
      if pendingLen > 0 {
        var k := if 4 - pendingLen > |d| then |d| else 4 - pendingLen;
        ghost var p := pending[..pendingLen];
        Store(pending, pendingLen, d[..k]);
        assert pending[..pendingLen + k] == p + d[..k];
        if pendingLen + k < 4 {
          pendingLen := pendingLen + k;
          assert d[..k] == d;
          FedRest(Mixed, Half(l, r), p, d);
          return;
        }
        FedFilled(Mixed, Half(l, r), p, d, k);
        assert pending[..] == p + d[..k];
        MixWord(pending[..]);
        pendingLen := 0;
        d := d[k..];
      } else {
        assert pending[..0] == [];
      }
      UpdateWords(d);
    }

    /** The switch of michael_final. */
    method MixLast()
      requires Valid()
      modifies `l
      ensures l == Xor32(old(l), LastWord32(pending[..pendingLen]))
    {
      var w: Word;
      if pendingLen == 0 {
        w := 0x5a;
      } else if pendingLen == 1 {
        w := Pad1(pending[0]);
      } else if pendingLen == 2 {
        w := Pad2(pending[0], pending[1]);
      } else {
        w := Pad3(pending[0], pending[1], pending[2]);
      }
      l := Xor32(l, w);
    }

    method MixEnd()
      requires Valid()
      modifies `l, `r
      ensures Half(l, r) == Ended(old(View()))
    {
      MixLast();
      MixBlock();
    }

    /** michael_final. */
    method Final() returns (out: seq<Byte>)
      requires Valid()
      modifies `l, `r
      ensures out == Finish(old(View()))
    {
      MixEnd();
      MixBlock();
      out := Le32Bytes(l) + Le32Bytes(r);
    }
  }

  /** The last word as michael_final puts it together. */
  function LastWord32(p: seq<Byte>): Word
    requires |p| < 4
  {
    if |p| == 0 then 0x5a else if |p| == 1 then Pad1(p[0]) else if |p|
      == 2 then Pad2(p[0], p[1]) else Pad3(p[0], p[1], p[2])
  }

  function Pad1(a: Byte): Word { (a as Word) | 0x5a00 }

  function Pad2(a: Byte, b: Byte): Word { (a as Word) | ((b as Word) << 8) | 0x5a0000 }

  function Pad3(a: Byte, b: Byte, c: Byte): Word { (a as Word) | ((b as Word) << 8) | ((c as Word) << 16) | 0x5a000000 }

  lemma LastWordIs(p: seq<Byte>)
    requires |p| < 4
    ensures var w := LastWord(p); LastWord32(p) == Le32(w[0], w[1], w[2], w[3])
  {
    LastBytes(if |p| > 0 then p[0] else 0, if |p| > 1 then p[1] else 0, if |p| > 2 then p[2] else 0);
  }

  lemma LastWordMixed(s: Half, p: seq<Byte>)
    requires |p| < 4
    ensures Mixed(s, LastWord(p)) == Block(Half(Xor32(s.l, LastWord32(p)), s.r))
  {
    LastWordIs(p);
  }

  lemma LastBytes(a: Byte, b: Byte, c: Byte)
    ensures Le32(0x5a, 0, 0, 0) == 0x5a && Le32(a, 0x5a, 0, 0) == Pad1(a)
    ensures Le32(a, b, 0x5a, 0) == Pad2(a, b) && Le32(a, b, c, 0x5a) == Pad3(a, b, c)
  {
  }

  function Ended(s: State<Half>): Half
    requires |s.pending| < 4
  {
    Block(Half(Xor32(s.half.l, LastWord32(s.pending)), s.half.r))
  }

  function Finish(s: State<Half>): (b: seq<Byte>)
    requires |s.pending| < 4
    ensures |b| == 8
  {
    Output(Block(Ended(s)))
  }

  /** Setting the key, feeding a message and finishing gives its code. */
  lemma FinishOne(key: seq<Byte>, m: seq<Byte>)
    requires |key| == 8
    ensures Finish(Fed(Mixed, State(KeyHalf(key), []), m)) == Mic(key, m)
  {
    assert [] + m == m;
    PaddedWords(Mixed, KeyHalf(key), m);
    LastWordMixed(Words(Mixed, KeyHalf(key), m), Tail(m));
    ZeroWordIsBlock(Mixed(Words(Mixed, KeyHalf(key), m), LastWord(Tail(m))));
  }

  /** The message may come in any pieces. */
  lemma FinishIsMic(key: seq<Byte>, pieces: seq<seq<Byte>>)
    requires |key| == 8
    ensures |FedAll(Mixed, State(KeyHalf(key), []), pieces).pending| < 4
    ensures Finish(FedAll(Mixed, State(KeyHalf(key), []), pieces)) == Mic(key, Joined(pieces))
  {
    AnyChunking(Mixed, State(KeyHalf(key), []), pieces);
    FinishOne(key, Joined(pieces));
  }
}
