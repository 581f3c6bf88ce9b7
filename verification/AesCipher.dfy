/** ieee80211/aes.c: aes_set_key, aes_encrypt and aes_decrypt on one context. */
module AesCipher {
  import opened AesSpec
  import opened RoundCipher
  import opened Words
  import opened AesTables
  import opened KeyExpansion
  import opened Aes
  import opened AesRounds
  import opened WordRounds

  /** What the two loops of aes_set_key leave, for steps st. */
  ghost predicate Built(st: KeySteps<bv32>, key: seq<bv32>, w: seq<bv32>)
    requires |key| == 4 || |key| == 6 || |key| == 8
  {
    |w| == 120 &&
    (forall j: nat {:trigger w[j]} :: j < 4 * |key| + 28 ==> w[j] == KeyWord(st, key, j)) &&
    (forall j: nat {:trigger w[60 + j]} :: j < 4 ==> w[60 + j] == w[j]) &&
    (forall j: nat {:trigger w[60 + j]} :: 4 <= j < 4 * |key| + 24 ==> w[60 + j] == st.imix(w[j]))
  }

  lemma BuiltIsSchedules(key: Key, w: seq<bv32>)
    requires Built(FipsSteps(), PackedKey(key), w)
    ensures Schedules(key, w)
  {
    forall j: nat | j < 4 * |key| + 28 ensures Unpack(w[j]) == ExpandedWord(key, j) {
      KeyWordIsExpandedWord(key, j);
    }
    forall j: nat | 4 <= j < 4 * |key| + 24 ensures Unpack(D(w, j)) == InvMixColumn(ExpandedWord(key, j)) {
      KeyWordIsExpandedWord(key, j);
      ImixColIsInvMixColumn(w[j]);
      assert w[60 + j] == ImixCol(w[j]);
    }
  }

  class Context {
    const t: Tables
    const sched: Schedule<bv32>
    var keyLength: nat
    ghost var key: Key

    constructor (t: Tables)
      ensures this.t == t && fresh(sched) && fresh(sched.w) && sched.w.Length == 120
    {
      this.t := t;
      sched := new Schedule();
      keyLength := 0;
      key := seq(4, _ => Col(0, 0, 0, 0));
    }

    /** The round keys of both directions are in place. */
    ghost predicate KeySet()
      reads this, sched.w
    {
      keyLength == 4 * |key| && Schedules(key, sched.w[..])
    }

    function LsBox(x: bv32): bv32
      requires t.fl.Length == 256
      reads t.fl
    {
      Lookup(t.fl[..], Unpack(x))
    }

    // ---- Key setup ----

    /** The table lookups compute the substitution steps st. */
    ghost predicate Substitutes(st: KeySteps<bv32>)
      reads t.fl, t.rco
    {
      t.fl.Length == 256 && t.rco.Length == 10 &&
      forall x, i: nat {:trigger SubstitutesAt(st, x, i)} :: i < 10 ==> SubstitutesAt(st, x, i)
    }

    ghost predicate SubstitutesAt(st: KeySteps<bv32>, x: bv32, i: nat)
      requires t.fl.Length == 256 && t.rco.Length == 10 && i < 10
      reads t.fl, t.rco
    {
      Xor2(LsBox(RotrByte(x)), t.rco[i]) == st.head(x, i) && LsBox(x) == st.middle(x)
    }

    lemma TablesSubstitute()
      requires t.Ready()
      ensures Substitutes(FipsSteps())
    {
      forall x, i: nat | i < 10 ensures SubstitutesAt(FipsSteps(), x, i) {
        TablesSubstituteAt(x, i);
      }
    }

    lemma TablesSubstituteAt(x: bv32, i: nat)
      requires t.Ready() && i < 10
      ensures SubstitutesAt(FipsSteps(), x, i)
    {
      TablesSubstituteHead(x, i);
      TablesSubstituteMiddle(x);
    }

    lemma TablesSubstituteMiddle(x: bv32)
      requires t.Ready()
      ensures LsBox(x) == FipsSteps().middle(x)
    {
      LookupForward(t, Unpack(x));
      PackUnpack(LsBox(x));
    }

    lemma TablesSubstituteHead(x: bv32, i: nat)
      requires t.Ready() && i < 10
      ensures Xor2(LsBox(RotrByte(x)), t.rco[i]) == FipsSteps().head(x, i)
    {
      LsBoxRotated(x);
      PackXor2(SubWord(RotWord(Unpack(x))), Rcon(i + 1));
    }

    lemma LsBoxRotated(x: bv32)
      requires t.Ready()
      ensures LsBox(RotrByte(x)) == Pack(SubWord(RotWord(Unpack(x))))
    {
      UnpackRotr(x);
      LookupForward(t, RotWord(Unpack(x)));
      PackUnpack(LsBox(RotrByte(x)));
    }

    method Expand4(key: seq<bv32>, xor: (bv32, bv32) -> bv32, ghost st: KeySteps<bv32>)
      requires |key| == 4 && sched.Expanded(st, key, 4)
      requires Substitutes(st) && xor == st.xor && sched.w != t.rco
      modifies sched.w
      ensures sched.Expanded(st, key, 44)
    {
      var x := sched.w[3];
      for i := 0 to 10
        invariant sched.Expanded(st, key, 4 * i + 4) && x == sched.w[4 * i + 3]
      {
        assert SubstitutesAt(st, x, i);
        x := sched.Loop(xor, i, 4, Xor2(LsBox(RotrByte(x)), t.rco[i]), st, key);
      }
    }

    method Expand6(key: seq<bv32>, xor: (bv32, bv32) -> bv32, ghost st: KeySteps<bv32>)
      requires |key| == 6 && sched.Expanded(st, key, 6)
      requires Substitutes(st) && xor == st.xor && sched.w != t.rco
      modifies sched.w
      ensures sched.Expanded(st, key, 52)
    {
      var x := sched.w[5];
      for i := 0 to 8
        invariant sched.Expanded(st, key, 6 * i + 6) && x == sched.w[6 * i + 5]
      {
        assert SubstitutesAt(st, x, i);
        x := sched.Loop(xor, i, 6, Xor2(LsBox(RotrByte(x)), t.rco[i]), st, key);
      }
    }

    method Expand8(key: seq<bv32>, xor: (bv32, bv32) -> bv32, ghost st: KeySteps<bv32>)
      requires |key| == 8 && sched.Expanded(st, key, 8)
      requires Substitutes(st) && xor == st.xor && sched.w != t.rco
      modifies sched.w
      ensures sched.Expanded(st, key, 60)
    {
      var x := sched.w[7];
      for i := 0 to 7
        invariant sched.Expanded(st, key, 8 * i + 8) && x == sched.w[8 * i + 7]
      {
        x := Loop8(i, x, key, xor, st);
      }
    }

    method Loop8(i: nat, x: bv32, key: seq<bv32>, xor: (bv32, bv32) -> bv32, ghost st: KeySteps<bv32>) returns (r: bv32)
      requires |key| == 8 && i < 7 && sched.Expanded(st, key, 8 * i + 8) && x == sched.w[8 * i + 7]
      requires Substitutes(st) && xor == st.xor && sched.w != t.rco
      modifies sched.w
      ensures sched.Expanded(st, key, 8 * i + 16) && r == sched.w[8 * i + 15]
    {
      assert SubstitutesAt(st, x, i);
      r := sched.Loop8First(xor, i, Xor2(LsBox(RotrByte(x)), t.rco[i]), st, key);
      assert SubstitutesAt(st, r, i);
      r := sched.Loop8Second(xor, i, LsBox(r), st, key);
    }

    method Build(key: seq<bv32>, xor: (bv32, bv32) -> bv32, imix: bv32 -> bv32, ghost st: KeySteps<bv32>)
      requires |key| == 4 || |key| == 6 || |key| == 8
      requires Substitutes(st) && xor == st.xor && imix == st.imix && sched.w.Length == 120 && sched.w != t.rco
      modifies sched.w
      ensures Built(st, key, sched.w[..])
    {
      sched.Load(key, st);
      if |key| == 4 {
        Expand4(key, xor, st);
      } else if |key| == 6 {
        Expand6(key, xor, st);
      } else {
        Expand8(key, xor, st);
      }
      label expanded:
      sched.FillInverse(imix, 4 * |key|);
      forall j: nat | j < 4 * |key| + 28 ensures sched.w[j] == KeyWord(st, key, j) {
        assert sched.w[j] == old@expanded(sched.w[j]);
      }
    }

    /** aes_set_key: refuses other lengths, else leaves both key schedules. */
    method SetKey(inKey: seq<bv8>) returns (ok: bool)
      requires t.Ready() && sched.w.Length == 120 && sched.w != t.rco
      modifies this, sched.w
      ensures ok <==> |inKey| == 16 || |inKey| == 24 || |inKey| == 32
      ensures ok ==> KeySet() && key == KeyOf(inKey)
      ensures !ok ==> unchanged(this) && unchanged(sched.w)
    {
      if |inKey| != 16 && |inKey| != 24 && |inKey| != 32 {
        return false;
      }
      keyLength := |inKey|;
      key := KeyOf(inKey);
      var words := seq(|inKey| / 4, i requires 0 <= i < |inKey| / 4 => WordIn(inKey, 4 * i));
      assert words == PackedKey(key);
      TablesSubstitute();
      ghost var st := FipsSteps();
      var xor := (x: bv32, y: bv32) => Xor2(x, y);
      var imix := (x: bv32) => ImixCol(x);
      Build(words, xor, imix, st);
      BuiltIsSchedules(key, sched.w[..]);
      return true;
    }
  
    // ---- Blocks ----

    /** u32_in and the initial key addition, with the key words from sched.w[i]. */
    method StateIn(src: array<bv8>, i: nat, b: array<bv32>, ghost k: State, ghost st: Steps<State>)
      requires src.Length == 16 && b.Length == 4 && b != sched.w && i + 4 <= sched.w.Length
      requires [sched.w[i], sched.w[i + 1], sched.w[i + 2], sched.w[i + 3]] == PackState(k) && IsAes(st)
      modifies b
      ensures b[..] == PackState(st.add(StateOf(src[..]), k))
    {
      b[0] := Xor2(WordIn(src[..], 0), sched.w[i]);
      b[1] := Xor2(WordIn(src[..], 4), sched.w[i + 1]);
      b[2] := Xor2(WordIn(src[..], 8), sched.w[i + 2]);
      b[3] := Xor2(WordIn(src[..], 12), sched.w[i + 3]);
      AddPacked(StateOf(src[..]), k);
      AesAdds(st, StateOf(src[..]), k);
    }

    /** u32_out. */
    method StateOut(out: array<bv8>, b: array<bv32>, ghost s: State)
      requires out.Length == 16 && b.Length == 4 && b[..] == PackState(s)
      modifies out
      ensures StateOf(out[..]) == s
    {
      var c0, c1, c2, c3 := Unpack(b[0]), Unpack(b[1]), Unpack(b[2]), Unpack(b[3]);
      UnpackState(s);
      out[0], out[1], out[2], out[3] := c0.b0, c0.b1, c0.b2, c0.b3;
      out[4], out[5], out[6], out[7] := c1.b0, c1.b1, c1.b2, c1.b3;
      out[8], out[9], out[10], out[11] := c2.b0, c2.b1, c2.b2, c2.b3;
      out[12], out[13], out[14], out[15] := c3.b0, c3.b1, c3.b2, c3.b3;
    }

    /** One block in either direction; the initial key words start at i. */
    method Block(f: ColumnFn<bv32>, l: ColumnFn<bv32>, inv: bool, i: nat, out: array<bv8>, src: array<bv8>,
                 ghost st: Steps<State>, ghost aes: Steps<State>, ghost ks: seq<State>)
      requires out.Length == src.Length == 16 && sched.w.Length == 120 && i + 4 <= 120 && IsAes(aes) &&
               aes.add == st.add
      requires Rounds(PackState, st, f, l) && KeysPacked(PackState, ks, sched.w[..], inv)
      requires keyLength in {16, 24, 32} && |ks| == keyLength / 4 + 7
      requires [sched.w[i], sched.w[i + 1], sched.w[i + 2], sched.w[i + 3]] == PackState(ks[0])
      modifies out
      ensures StateOf(out[..]) == Cipher(st, ks, old(StateOf(src[..])))
    {
      ghost var s := StateOf(src[..]);
      var b0, b1 := new bv32[4], new bv32[4];
      StateIn(src, i, b0, ks[0], aes);
      CipherWords(f, l, b0, b1, sched.w, inv, keyLength, PackState, st, ks, s);
      StateOut(out, b0, Cipher(st, ks, s));
    }

    /** aes_encrypt is Cipher; out and src may be the same buffer. */
    method Encrypt(out: array<bv8>, src: array<bv8>, ghost st: Steps<State>, ghost ks: seq<State>)
      requires t.Ready() && KeySet() && out.Length == src.Length == 16 && IsAes(st) && IsKeySchedule(key, ks)
      modifies out
      ensures StateOf(out[..]) == Cipher(st, ks, old(StateOf(src[..])))
    {
      TableRounds(t, st);
      KeysForward(key, sched.w[..], ks);
      Block(Look(t.ft[..], false), Look(t.fl[..], false), false, 0, out, src, st, st, ks);
    }

    /** aes_decrypt is InvCipher. */
    method Decrypt(out: array<bv8>, src: array<bv8>, ghost st: Steps<State>, ghost ks: seq<State>)
      requires t.Ready() && KeySet() && out.Length == src.Length == 16 && IsAes(st) && IsKeySchedule(key, ks)
      modifies out
      ensures StateOf(out[..]) == InvCipher(st, ks, old(StateOf(src[..])))
    {
      TableRounds(t, st);
      KeysForward(key, sched.w[..], ks);
      KeysInverse(key, sched.w[..], ks, st);
      AesInvertible(st);
      EquivalentInverseCipher(st, ks, StateOf(src[..]));
      Block(Look(t.it[..], true), Look(t.il[..], true), true, keyLength + 24, out, src, InvSteps(st), st,
        InvKeys(st, ks));
    }
  }
}
