/** The rounds of ieee80211/aes.c on four machine words, against Cipher and InvCipher. */
module AesRounds {
  import opened AesSpec
  import opened RoundCipher
  import opened Words
  import opened AesTables
  import opened Aes
  import opened WordRounds

  /** Column n of the words b after ShiftRows (row i from column n + i) or, for decryption, after
      InvShiftRows (row i from column n - i). */
  function Diagonal(b: seq<bv32>, n: nat, inv: bool): Col
    requires |b| == 4 && n < 4
  {
    var s, d := if inv then 3 else 1, if inv then 1 else 3;
    Col(Unpack(b[n]).b0, Unpack(b[(n + s) % 4]).b1, Unpack(b[(n + 2) % 4]).b2, Unpack(b[(n + d) % 4]).b3)
  }

  // ---- A round on packed words is a round on the state ----

  function PackState(s: State): (w: seq<bv32>)
    ensures |w| == 4
  {
    [Pack(s.c0), Pack(s.c1), Pack(s.c2), Pack(s.c3)]
  }

  lemma UnpackState(s: State)
    ensures var w := PackState(s); State(Unpack(w[0]), Unpack(w[1]), Unpack(w[2]), Unpack(w[3])) == s
  {
    UnpackPack(s.c0); UnpackPack(s.c1); UnpackPack(s.c2); UnpackPack(s.c3);
  }

  lemma Diagonals(s: State)
    ensures var b, r := PackState(s), ShiftRows(s);
            Diagonal(b, 0, false) == r.c0 && Diagonal(b, 1, false) == r.c1 &&
            Diagonal(b, 2, false) == r.c2 && Diagonal(b, 3, false) == r.c3
    ensures var b, r := PackState(s), InvShiftRows(s);
            Diagonal(b, 0, true) == r.c0 && Diagonal(b, 1, true) == r.c1 &&
            Diagonal(b, 2, true) == r.c2 && Diagonal(b, 3, true) == r.c3
  {
    UnpackState(s);
  }

  /** f_rn, f_rl, i_rn and i_rl: word n of a round by the tables tab, with the key word x. */
  function Look(tab: seq<Entry>, inv: bool): ColumnFn<bv32> {
    (b, n, x) => if |b| == 4 && 0 <= n < 4 && |tab| == 256 then Xor2(Lookup(tab, Diagonal(b, n, inv)), x) else 0
  }

  /** A round by the tables adds the key to the four columns looked up. */
  lemma LookedUp(tab: seq<Entry>, inv: bool, s: State, k: State, r: State)
    requires |tab| == 256
    requires var d := if inv then InvShiftRows(s) else ShiftRows(s);
             Unpack(Lookup(tab, d.c0)) == r.c0 && Unpack(Lookup(tab, d.c1)) == r.c1 &&
             Unpack(Lookup(tab, d.c2)) == r.c2 && Unpack(Lookup(tab, d.c3)) == r.c3
    ensures WordRound(Look(tab, inv), PackState(s), PackState(k)) == PackState(AddRoundKey(r, k))
  {
    Diagonals(s);
    var d := if inv then InvShiftRows(s) else ShiftRows(s);
    PackUnpack(Lookup(tab, d.c0)); PackUnpack(Lookup(tab, d.c1)); PackUnpack(Lookup(tab, d.c2));
      PackUnpack(Lookup(tab, d.c3));
    AddPacked(r, k);
  }

  /** The initial key addition. */
  lemma AddPacked(s: State, k: State)
    ensures [Xor2(Pack(s.c0), Pack(k.c0)), Xor2(Pack(s.c1), Pack(k.c1)), Xor2(Pack(s.c2), Pack(k.c2)),
            Xor2(Pack(s.c3), Pack(k.c3))]
         == PackState(AddRoundKey(s, k))
  {
    PackXor2(s.c0, k.c0); PackXor2(s.c1, k.c1); PackXor2(s.c2, k.c2); PackXor2(s.c3, k.c3);
  }

  lemma SubShiftCommute(s: State)
    ensures SubBytes(ShiftRows(s)) == ShiftRows(SubBytes(s))
  {
  }

  lemma ForwardRound(t: Tables, st: Steps<State>, s: State, k: State)
    requires t.Ready() && IsAes(st)
    ensures RoundsAt(PackState, st, Look(t.ft[..], false), Look(t.fl[..], false), s, k)
  {
    SubShiftCommute(s);
    assert AesAt(st, s, k) && AesAt(st, st.sub(s), k) && AesAt(st, st.mix(st.sub(s)), k);
    ForwardLookedUp(t, s, k, SubBytes(ShiftRows(s)));
  }

  /** Both forward rounds; r is the state that the lookups substitute. */
  lemma ForwardLookedUp(t: Tables, s: State, k: State, r: State)
    requires t.Ready() && r == SubBytes(ShiftRows(s))
    ensures WordRound(Look(t.ft[..], false), PackState(s), PackState(k)) == PackState(AddRoundKey(MixColumns(r), k))
    ensures WordRound(Look(t.fl[..], false), PackState(s), PackState(k)) == PackState(AddRoundKey(r, k))
  {
    var d := ShiftRows(s);
    LookupForward(t, d.c0); LookupForward(t, d.c1); LookupForward(t, d.c2); LookupForward(t, d.c3);
    LookedUp(t.ft[..], false, s, k, MixColumns(r));
    LookedUp(t.fl[..], false, s, k, r);
  }

  lemma InverseRound(t: Tables, st: Steps<State>, s: State, k: State)
    requires t.Ready() && IsAes(st)
    ensures RoundsAt(PackState, InvSteps(st), Look(t.it[..], true), Look(t.il[..], true), s, k)
  {
    assert AesAt(st, s, k) && AesAt(st, st.invSub(s), k) && AesAt(st, st.invMix(st.invSub(s)), k);
    InverseLookedUp(t, s, k, InvSubBytes(InvShiftRows(s)));
  }

  lemma InverseLookedUp(t: Tables, s: State, k: State, r: State)
    requires t.Ready() && r == InvSubBytes(InvShiftRows(s))
    ensures WordRound(Look(t.it[..], true), PackState(s), PackState(k)) == PackState(AddRoundKey(InvMixColumns(r), k))
    ensures WordRound(Look(t.il[..], true), PackState(s), PackState(k)) == PackState(AddRoundKey(r, k))
  {
    var d := InvShiftRows(s);
    LookupInverse(t, d.c0); LookupInverse(t, d.c1); LookupInverse(t, d.c2); LookupInverse(t, d.c3);
    LookedUp(t.it[..], true, s, k, InvMixColumns(r));
    LookedUp(t.il[..], true, s, k, r);
  }

  /** The rounds by the tables are the rounds of Cipher and of the equivalent inverse cipher. */
  lemma TableRounds(t: Tables, st: Steps<State>)
    requires t.Ready() && IsAes(st)
    ensures Rounds(PackState, st, Look(t.ft[..], false), Look(t.fl[..], false))
    ensures Rounds(PackState, InvSteps(st), Look(t.it[..], true), Look(t.il[..], true))
  {
    var f, l := Look(t.ft[..], false), Look(t.fl[..], false);
    var i, j := Look(t.it[..], true), Look(t.il[..], true);
    forall s, k ensures RoundsAt(PackState, st, f, l, s, k) && RoundsAt(PackState, InvSteps(st), i, j, s, k) {
      ForwardRound(t, st, s, k); InverseRound(t, st, s, k);
    }
  }

  // ---- The key schedules ----

  /** Word j of the decryption schedule. */
  function D<W>(w: seq<W>, j: nat): W
    requires 60 + j < |w|
  {
    w[60 + j]
  }

  /** The words of both schedules for a key: E in w[0..60] and D in w[60..120]. */
  ghost predicate Schedules(key: Key, w: seq<bv32>) {
    |w| == 120 && forall j: nat {:trigger WordAt(key, w, j)} :: j < 4 * |key| + 28 ==> WordAt(key, w, j)
  }

  ghost predicate WordAt(key: Key, w: seq<bv32>, j: nat)
    requires |w| == 120 && j < 60
  {
    Unpack(w[j]) == ExpandedWord(key, j) && (j < 4 ==> D(w, j) == w[j]) &&
    (4 <= j < 4 * |key| + 24 ==> Unpack(D(w, j)) == InvMixColumn(ExpandedWord(key, j)))
  }

  function ColumnOf(s: State, i: nat): Col
    requires i < 4
  {
    if i == 0 then s.c0 else if i == 1 then s.c1 else if i == 2 then s.c2 else s.c3
  }

  lemma KeyColumn(key: Key, ks: seq<State>, n: nat, i: nat)
    requires IsKeySchedule(key, ks) && n <= |key| + 6 && i < 4
    ensures ColumnOf(ks[n], i) == ExpandedWord(key, 4 * n + i)
  {
    assert KeyAt(key, ks, n);
  }

  lemma InverseWordIs(key: Key, w: seq<bv32>, j: nat, c: Col)
    requires Schedules(key, w) && 4 <= j < 4 * |key| + 24 && c == ExpandedWord(key, j)
    ensures D(w, j) == Pack(InvMixColumn(c))
  {
    assert WordAt(key, w, j);
    PackUnpack(D(w, j));
  }

  lemma ForwardWord(key: Key, w: seq<bv32>, ks: seq<State>, n: nat, i: nat)
    requires Schedules(key, w) && IsKeySchedule(key, ks) && n <= |key| + 6 && i < 4
    ensures w[4 * n + i] == Pack(ColumnOf(ks[n], i)) && (n == 0 ==> D(w, i) == w[i])
  {
    assert KeyAt(key, ks, n);
    assert WordAt(key, w, 4 * n + i);
    PackUnpack(w[4 * n + i]);
  }

  lemma InverseWord(key: Key, w: seq<bv32>, ks: seq<State>, n: nat, i: nat)
    requires Schedules(key, w) && IsKeySchedule(key, ks) && 0 < n < |key| + 6 && i < 4
    ensures D(w, 4 * n + i) == Pack(InvMixColumn(ColumnOf(ks[n], i)))
  {
    KeyColumn(key, ks, n, i);
    InverseWordIs(key, w, 4 * n + i, ColumnOf(ks[n], i));
  }

  lemma ForwardKey(key: Key, w: seq<bv32>, ks: seq<State>, n: nat)
    requires Schedules(key, w) && IsKeySchedule(key, ks) && n <= |key| + 6
    ensures RoundWords(w, false, |key| + 6, n) == PackState(ks[n])
  {
    ForwardWord(key, w, ks, n, 0); ForwardWord(key, w, ks, n, 1);
    ForwardWord(key, w, ks, n, 2); ForwardWord(key, w, ks, n, 3);
  }

  lemma InverseIndex<W>(w: seq<W>, nr: nat, n: nat)
    requires |w| == 120 && n <= nr <= 14
    ensures RoundWords(w, true, nr, nr - n) == [D(w, 4 * n), D(w, 4 * n + 1), D(w, 4 * n + 2), D(w, 4 * n + 3)]
  {
  }

  lemma InverseKey(key: Key, w: seq<bv32>, ks: seq<State>, st: Steps<State>, n: nat)
    requires Schedules(key, w) && IsKeySchedule(key, ks) && IsAes(st) && 0 < n < |key| + 6
    ensures RoundWords(w, true, |key| + 6, |key| + 6 - n) == PackState(st.invMix(ks[n]))
  {
    InverseIndex(w, |key| + 6, n);
    InverseWord(key, w, ks, n, 0); InverseWord(key, w, ks, n, 1);
    InverseWord(key, w, ks, n, 2); InverseWord(key, w, ks, n, 3);
    AesInvMixes(st, ks[n]);
  }

  lemma LastInverseKey(key: Key, w: seq<bv32>, ks: seq<State>)
    requires Schedules(key, w) && IsKeySchedule(key, ks)
    ensures RoundWords(w, true, |key| + 6, |key| + 6) == PackState(ks[0])
  {
    InverseIndex(w, |key| + 6, 0);
    ForwardWord(key, w, ks, 0, 0); ForwardWord(key, w, ks, 0, 1); ForwardWord(key, w, ks, 0, 2);
      ForwardWord(key, w, ks, 0, 3);
  }

  lemma KeysForward(key: Key, w: seq<bv32>, ks: seq<State>)
    requires Schedules(key, w) && IsKeySchedule(key, ks)
    ensures KeysPacked(PackState, ks, w, false) && RoundWords(w, false, |key| + 6, 0) == PackState(ks[0])
    ensures RoundWords(w, false, |key| + 6, |key| + 6) == PackState(ks[|key| + 6])
  {
    forall n: nat | n < |ks| ensures RoundWords(w, false, |key| + 6, n) == PackState(ks[n]) {
      ForwardKey(key, w, ks, n);
    }
  }

  lemma KeysInverse(key: Key, w: seq<bv32>, ks: seq<State>, st: Steps<State>)
    requires Schedules(key, w) && IsKeySchedule(key, ks) && IsAes(st)
    ensures KeysPacked(PackState, InvKeys(st, ks), w, true)
  {
    forall n: nat | 0 < n < |ks| ensures RoundWords(w, true, |key| + 6, n) == PackState(InvKeys(st, ks)[n]) {
      if n == |key| + 6 {
        LastInverseKey(key, w, ks);
      } else {
        InverseKey(key, w, ks, st, |key| + 6 - n);
      }
    }
  }
}
