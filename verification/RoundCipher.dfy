/** The shape AES shares with other key-alternating block ciphers: full rounds of a
    substitution, a linear mixing and a key addition, and a last round without mixing. */
module RoundCipher {

  datatype Steps<!S> = Steps(add: (S, S) -> S, sub: S -> S, invSub: S -> S, mix: S -> S, invMix: S -> S)

  /** Every step has its inverse, and the inverse mixing distributes over key addition. */
  ghost predicate Invertible<S(!new)>(st: Steps<S>) {
    && (forall s, k {:trigger st.add(st.add(s, k), k)} :: st.add(st.add(s, k), k) == s)
    && (forall s {:trigger st.invSub(st.sub(s))} :: st.invSub(st.sub(s)) == s)
    && (forall s {:trigger st.invMix(st.mix(s))} :: st.invMix(st.mix(s)) == s)
    && (forall s, k {:trigger st.invMix(st.add(s, k))} :: st.invMix(st.add(s, k)) == st.add(st.invMix(s), st.invMix(k)))
  }

  /** The state after the initial key addition and r full rounds. */
  function CipherRounds<S>(st: Steps<S>, ks: seq<S>, input: S, r: nat): S
    requires r < |ks|
  {
    if r == 0 then st.add(input, ks[0])
    else st.add(st.mix(st.sub(CipherRounds(st, ks, input, r - 1))), ks[r])
  }

  /** FIPS 197, section 5.1. */
  function Cipher<S>(st: Steps<S>, ks: seq<S>, input: S): S
    requires |ks| >= 2
  {
    st.add(st.sub(CipherRounds(st, ks, input, |ks| - 2)), ks[|ks| - 1])
  }

  /** The state of InvCipher after the initial key addition and n full rounds. */
  function InvCipherRounds<S>(st: Steps<S>, ks: seq<S>, input: S, n: nat): S
    requires n + 1 < |ks|
  {
    if n == 0 then st.add(input, ks[|ks| - 1])
    else st.invMix(st.add(st.invSub(InvCipherRounds(st, ks, input, n - 1)), ks[|ks| - 1 - n]))
  }

  /** FIPS 197, section 5.3. */
  function InvCipher<S>(st: Steps<S>, ks: seq<S>, input: S): S
    requires |ks| >= 2
  {
    st.add(st.invSub(InvCipherRounds(st, ks, input, |ks| - 2)), ks[0])
  }

  /** n full rounds of InvCipher, started from the cipher text, reach the state in the middle
      of the n-th last round of Cipher. */
  lemma {:induction false} InvCipherRoundsUndo<S(!new)>(st: Steps<S>, ks: seq<S>, input: S, n: nat)
    requires Invertible(st) && n + 1 < |ks|
    ensures InvCipherRounds(st, ks, Cipher(st, ks, input), n) == st.sub(CipherRounds(st, ks, input, |ks| - 2 - n))
  {
    if n > 0 {
      InvCipherRoundsUndo(st, ks, input, n - 1);
    }
  }

  lemma InvCipherUndoesCipher<S(!new)>(st: Steps<S>, ks: seq<S>, input: S)
    requires Invertible(st) && |ks| >= 2
    ensures InvCipher(st, ks, Cipher(st, ks, input)) == input
  {
    InvCipherRoundsUndo(st, ks, input, |ks| - 2);
  }

  // ---- The equivalent inverse cipher (section 5.3.5): Cipher itself with inverted steps and
  // the keys in reverse order, all but the outer two mixed ----

  function InvSteps<S>(st: Steps<S>): Steps<S> { Steps(st.add, st.invSub, st.sub, st.invMix, st.mix) }

  function InvKeys<S>(st: Steps<S>, ks: seq<S>): (r: seq<S>)
    ensures |r| == |ks|
  {
    seq(|ks|, n requires 0 <= n < |ks| =>
      if 0 < n < |ks| - 1 then st.invMix(ks[|ks| - 1 - n]) else ks[|ks| - 1 - n])
  }

  lemma {:induction false} EquivalentRounds<S(!new)>(st: Steps<S>, ks: seq<S>, input: S, n: nat)
    requires Invertible(st) && n + 1 < |ks|
    ensures CipherRounds(InvSteps(st), InvKeys(st, ks), input, n) == InvCipherRounds(st, ks, input, n)
  {
    if n > 0 {
      EquivalentRounds(st, ks, input, n - 1);
      var s := InvCipherRounds(st, ks, input, n - 1);
      MixDistributes(st, st.invSub(s), ks[|ks| - 1 - n]);
      EquivalentRound(st, ks, s, n);
    }
  }

  /** One round of either, from the same state. */
  lemma EquivalentRound<S(!new)>(st: Steps<S>, ks: seq<S>, s: S, n: nat)
    requires 0 < n && n + 1 < |ks|
    requires var k := ks[|ks| - 1 - n];
             st.invMix(st.add(st.invSub(s), k)) == st.add(st.invMix(st.invSub(s)), st.invMix(k))
    ensures var i := InvSteps(st);
            i.add(i.mix(i.sub(s)), InvKeys(st, ks)[n]) == st.invMix(st.add(st.invSub(s), ks[|ks| - 1 - n]))
  {
  }

  lemma MixDistributes<S(!new)>(st: Steps<S>, s: S, k: S)
    requires Invertible(st)
    ensures st.invMix(st.add(s, k)) == st.add(st.invMix(s), st.invMix(k))
  {
  }

  lemma EquivalentInverseCipher<S(!new)>(st: Steps<S>, ks: seq<S>, input: S)
    requires Invertible(st) && |ks| >= 2
    ensures Cipher(InvSteps(st), InvKeys(st, ks), input) == InvCipher(st, ks, input)
  {
    EquivalentRounds(st, ks, input, |ks| - 2);
  }
}
