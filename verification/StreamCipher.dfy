/** A stream cipher: a state that steps on and puts out one byte at a time. */
module StreamCipher {
  import opened Bytes

  /** The state n steps after c. */
  function After<C>(next: C -> C, c: C, n: nat): C {
    if n == 0 then c else next(After(next, c, n - 1))
  }

  /** The first n bytes put out from c on. */
  function Stream<C>(next: C -> C, out: C -> Byte, c: C, n: nat): (k: seq<Byte>)
    ensures |k| == n
  {
    if n == 0 then [] else Stream(next, out, c, n - 1) + [out(After(next, c, n - 1))]
  }

  lemma {:induction false} StreamAt<C>(next: C -> C, out: C -> Byte, c: C, n: nat, i: nat)
    requires i < n
    ensures Stream(next, out, c, n)[i] == out(After(next, c, i))
  {
    if i < n - 1 { StreamAt(next, out, c, n - 1, i); }
  }

  /** The key stream, split after its first byte. */
  lemma {:induction false} StreamFront<C>(next: C -> C, out: C -> Byte, c: C, n: nat)
    requires n > 0
    ensures Stream(next, out, c, n) == [out(c)] + Stream(next, out, next(c), n - 1)
    ensures After(next, c, n) == After(next, next(c), n - 1)
  {
    if n > 1 {
      StreamFront(next, out, c, n - 1);
      assert Stream(next, out, c, n) == [out(c)] + Stream(next, out, next(c), n - 2) + [out(After(next, c, n - 1))];
    }
  }

  /** What is left of a run over n bytes of s at p: the final state and the bytes. */
  ghost function XorRest<C>(next: C -> C, out: C -> Byte, c: C, s: seq<Byte>, p: nat, n: nat): (C, seq<Byte>) {
    (After(next, c, n), Put(s, p, Xor(Piece(s, p, n), Stream(next, out, c, n))))
  }

  lemma XorStep<C>(next: C -> C, out: C -> Byte, c: C, s: seq<Byte>, p: nat, n: nat)
    requires n > 0 && p + n <= |s|
    ensures XorRest(next, out, next(c), s[p := XorByte(s[p], out(c))], p + 1, n - 1) == XorRest(next, out, c, s, p, n)
  {
    StreamFront(next, out, c, n);
    var k := Stream(next, out, c, n);
    var s' := s[p := XorByte(s[p], out(c))];
    PieceAt(s, p, n);
    PieceAt(s', p + 1, n - 1);
    var x, x' := Xor(Piece(s, p, n), k), Xor(Piece(s', p + 1, n - 1), k[1..]);
    assert x[0] == XorByte(s[p], out(c));
    forall i | 0 < i < n ensures x[i] == x'[i - 1] {}
    forall i | 0 <= i < |s| ensures Put(s', p + 1, x')[i] == Put(s, p, x)[i] {
      if p < i < p + n { assert x'[i - (p + 1)] == x[i - p]; }
    }
    assert Put(s', p + 1, x') == Put(s, p, x);
  }

  lemma XorNothing<C>(next: C -> C, out: C -> Byte, c: C, s: seq<Byte>, p: nat)
    ensures XorRest(next, out, c, s, p, 0) == (c, s)
  {
    assert Put(s, p, []) == s && Xor(Piece(s, p, 0), Stream(next, out, c, 0)) == [];
  }
}
