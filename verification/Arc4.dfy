/** ieee80211/arc4.c: the RC4 stream cipher. */
module Arc4 {
  import opened Bytes
  import opened CipherModes
  import opened StreamCipher
  import opened Division

  type U8 = n: nat | n < 256

  /** struct arc4_ctx; x is one step ahead, so key setup leaves it at 1. */
  datatype Fields = Fields(s: seq<U8>, x: U8, y: U8)

  type Ctx = c: Fields | |c.s| == 256 witness Fields(Identity(), 1, 0)

  /** s is a permutation of 0..255. */
  ghost predicate Permutation(s: seq<U8>) {
    |s| == 256 && forall i, j :: 0 <= i < j < 256 ==> s[i] != s[j]
  }

  function Swap(s: seq<U8>, i: nat, j: nat): (r: seq<U8>)
    requires i < |s| && j < |s|
    ensures |r| == |s|
  {
    s[i := s[j]][j := s[i]]
  }

  lemma SwapKeepsPermutation(s: seq<U8>, i: nat, j: nat)
    requires Permutation(s) && i < 256 && j < 256
    ensures Permutation(Swap(s, i, j))
  {
  }

  // ---- Key setup ----

  function Identity(): (s: seq<U8>)
    ensures |s| == 256
  {
    seq(256, i requires 0 <= i < 256 => i as U8)
  }

  /** The index j of key setup after n steps, and the array. */
  function Scheduled(key: seq<Byte>, n: nat): (r: (U8, seq<U8>))
    requires |key| > 0 && n <= 256
    ensures |r.1| == 256
  {
    if n == 0 then (0, Identity()) else
      var p := Scheduled(key, n - 1);
      var j := (p.0 + key[(n - 1) % |key|] as nat + p.1[n - 1]) % 256;
      (j, Swap(p.1, n - 1, j))
  }

  function SetUp(key: seq<Byte>): Ctx
    requires |key| > 0
  {
    Fields(Scheduled(key, 256).1, 1, 0)
  }

  lemma {:induction false} ScheduledPermutation(key: seq<Byte>, n: nat)
    requires |key| > 0 && n <= 256
    ensures Permutation(Scheduled(key, n).1)
  {
    if n > 0 {
      ScheduledPermutation(key, n - 1);
      SwapKeepsPermutation(Scheduled(key, n - 1).1, n - 1, Scheduled(key, n).0);
    }
  }

  // ---- One byte of key stream ----

  function Next(c: Ctx): Ctx {
    var y := (c.y + c.s[c.x]) % 256;
    Fields(Swap(c.s, c.x, y), (c.x + 1) % 256, y)
  }

  /** The key stream byte of the step that leads from c to Next(c). */
  function Output(c: Ctx): Byte {
    var d := Next(c);
    var a: nat, b: nat := c.s[c.x], c.s[d.y];
    d.s[(a + b) % 256] as Byte
  }

  /** The short cycle of Finney: from here the cipher would visit only 65280 states. */
  predicate Finney(c: Ctx)
  {
    c.x == c.y && c.s[c.x] == 1
  }

  /** A step leads into the short cycle only from inside it. */
  lemma StepFinney(c: Ctx)
    ensures Finney(Next(c)) <==> Finney(c)
  {
  }

  /** From any key and after any number of bytes, S is a permutation and the short cycle is not reached. */
  lemma {:induction false} AlwaysSound(key: seq<Byte>, n: nat)
    requires |key| > 0
    ensures Permutation(After<Ctx>(Next, SetUp(key), n).s) && !Finney(After<Ctx>(Next, SetUp(key), n))
  {
    if n == 0 {
      ScheduledPermutation(key, 256);
    } else {
      AlwaysSound(key, n - 1);
      var c := After<Ctx>(Next, SetUp(key), n - 1);
      StepFinney(c);
      SwapKeepsPermutation(c.s, c.x, Next(c).y);
    }
  }

  // ---- As a cipher of block size 1 ----

  /** arc4_crypt, for both directions. */
  function Crypt(c: Ctx, b: seq<Byte>): (Ctx, seq<Byte>) {
    (Next(c), if |b| == 1 then [XorByte(b[0], Output(c))] else b)
  }

  /** Equally keyed contexts undo each other. */
  lemma CryptTwice()
    ensures KeepsLength(Crypt, 1) && Inverse(Crypt, Crypt, 1)
  {
    forall c: Ctx, b: seq<Byte> | |b| == 1 ensures Crypt(c, Crypt(c, b).1) == (Crypt(c, b).0, b) {
      XorByteTwice(b[0], Output(c));
      assert b == [b[0]];
    }
  }

  /** Crypting a string byte by byte xors it with the key stream. */
  lemma {:induction false} FlatIsStream<C(!new)>(next: C -> C, out: C -> Byte, crypt: BlockFn<C>, ch: Chain<C>,
                                          data: seq<Byte>)
    requires |ch.iv| == 1 && KeepsLength(crypt, 1)
    requires forall c, b {:trigger crypt(c, b)} :: |b| == 1 ==> crypt(c, b) == (next(c), [XorByte(b[0], out(c))])
    ensures var f := Flat(Ecb, crypt, 1, ch, data);
            f.0.ctx == After(next, ch.ctx, |data|) && f.1 == Xor(data, Stream(next, out, ch.ctx, |data|))
    decreases |data|
  {
    if data != [] {
      var s := CipherModes.Step(Ecb, crypt, ch, data[..1]);
      FlatIsStream(next, out, crypt, s.0, data[1..]);
      StreamFront(next, out, ch.ctx, |data|);
    }
  }

  /** The state and the buffer after crypting the bytes from pos to end. */
  ghost function Crypted(c: Ctx, s: seq<Byte>, pos: nat, end: nat): (Ctx, seq<Byte>)
    requires pos <= end
  {
    XorRest<Ctx>(Next, Output, c, s, pos, end - pos)
  }

  lemma CryptedStep(c: Ctx, s: seq<Byte>, p: nat, end: nat)
    requires p < end <= |s|
    ensures Crypted(Next(c), s[p := XorByte(s[p], Output(c))], p + 1, end) == Crypted(c, s, p, end)
  {
    XorStep<Ctx>(Next, Output, c, s, p, end - p);
  }

  /** The first n bytes of key stream under a key. */
  function Rc4(key: seq<Byte>, n: nat): (k: seq<Byte>)
    requires |key| > 0
    ensures |k| == n
  {
    Stream<Ctx>(Next, Output, SetUp(key), n)
  }

  class Cipher {
    const S: array<U8>
    var x: U8
    var y: U8

    constructor ()
      ensures fresh(S) && S.Length == 256
    {
      S := new U8[256](_ => 0);
      x, y := 0, 0;
    }

    ghost function State(): Ctx
      requires S.Length == 256
      reads this, S
    {
      Fields(S[..], x, y)
    }

    /** arc4_set_key. */
    method SetKey(key: seq<Byte>)
      requires |key| > 0 && S.Length == 256
      modifies this, S
      ensures State() == SetUp(key)
    {
      var j: nat, k: nat := 0, 0;
      x, y := 1, 0;
      for i := 0 to 256
        invariant x == 1 && y == 0 && forall m :: 0 <= m < i ==> S[m] == m
      {
        S[i] := i;
      }
      assert S[..] == Identity();
      for i := 0 to 256
        invariant k == i % |key| && 0 <= j < 256 && Scheduled(key, i) == (j, S[..]) && x == 1 && y == 0
      {
        var a: nat := S[i];
        j := (j + key[k] as nat + a) % 256;
        S[i] := S[j];
        S[j] := a;
        NextIndex(i, |key|);
        k := if k + 1 >= |key| then 0 else k + 1;
      }
    }

    /** arc4_crypt on the bytes of buf from pos to end, one after the other. */
    method CryptRange(buf: array<Byte>, pos: nat, end: nat)
      requires S.Length == 256 && pos <= end <= buf.Length && (buf as object) != S
      modifies this, S, buf
      ensures (State(), buf[..]) == Crypted(old(State()), old(buf[..]), pos, end)
    {
      ghost var goal := Crypted(State(), buf[..], pos, end);
      var p := pos;
      while p < end
        invariant p <= end && Crypted(State(), buf[..], p, end) == goal
      {
        CryptTurn(buf, p, end);
        p := p + 1;
      }
      XorNothing<Ctx>(Next, Output, State(), buf[..], p);
    }

    /** arc4_set_key and then arc4_crypt on the bytes of buf from pos to end. */
    method CryptWithKey(key: seq<Byte>, buf: array<Byte>, pos: nat, end: nat)
      requires |key| > 0 && S.Length == 256 && pos <= end <= buf.Length && (buf as object) != S
      modifies this, S, buf
      ensures buf[..] == Put(old(buf[..]), pos, Xor(Piece(old(buf[..]), pos, end - pos), Rc4(key, end - pos)))
    {
      SetKey(key);
      CryptRange(buf, pos, end);
    }

    method CryptTurn(buf: array<Byte>, p: nat, ghost end: nat)
      requires S.Length == 256 && p < end <= buf.Length && (buf as object) != S
      modifies this, S, buf
      ensures Crypted(State(), buf[..], p + 1, end) == Crypted(old(State()), old(buf[..]), p, end)
    {
      CryptedStep(State(), buf[..], p, end);
      CryptAt(buf, p);
    }

    /** arc4_crypt on one byte in place. */
    method CryptAt(buf: array<Byte>, p: nat)
      requires S.Length == 256 && p < buf.Length && (buf as object) != S
      modifies this, S, buf
      ensures State() == Next(old(State())) && buf[..] == old(buf[..])[p := XorByte(old(buf[p]), Output(old(State())))]
    {
      var k := CryptByte();
      buf[p] := XorByte(buf[p], k);
    }

    method CryptByte() returns (k: Byte)
      requires S.Length == 256
      modifies this, S
      ensures State() == Next(old(State())) && k == Output(old(State()))
    {
      var a: nat := S[x];
      y := (y + a) % 256;
      var b: nat := S[y];
      S[x] := b;
      S[y] := a;
      x := (x + 1) % 256;
      k := S[(a + b) % 256] as Byte;
    }
  }
}
