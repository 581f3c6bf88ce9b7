/** Cipher rounds carried out column by column on four machine words, for any word type. */
module WordRounds {
  import opened RoundCipher

  /** The new word of column n, from the four old words and a key word. */
  type ColumnFn<!W> = (seq<W>, nat, W) -> W

  function WordRound<W>(f: ColumnFn<W>, b: seq<W>, k: seq<W>): (r: seq<W>)
    requires |k| == 4
    ensures |r| == 4
  {
    [f(b, 0, k[0]), f(b, 1, k[1]), f(b, 2, k[2]), f(b, 3, k[3])]
  }

  /** Where the key words of round n start: E forwards, or D from its end backwards. */
  function KeyIndex(inv: bool, nr: nat, n: nat): nat
    requires n <= nr
  {
    if inv then 60 + 4 * (nr - n) else 4 * n
  }

  /** The key words of round n. */
  function RoundWords<W>(w: seq<W>, inv: bool, nr: nat, n: nat): (k: seq<W>)
    requires |w| == 120 && n <= nr <= 14
    ensures |k| == 4
  {
    var i := KeyIndex(inv, nr, n);
    [w[i], w[i + 1], w[i + 2], w[i + 3]]
  }

  /** tr holds the four words after the initial key addition and after every full round. */
  ghost predicate IsWordTrace<W>(f: ColumnFn<W>, w: seq<W>, inv: bool, nr: nat, tr: seq<seq<W>>) {
    |w| == 120 && nr <= 14 && |tr| == nr &&
    forall n: nat {:trigger WordStep(f, w, inv, nr, tr, n)} :: n + 1 < nr ==> WordStep(f, w, inv, nr, tr, n)
  }

  ghost predicate WordStep<W>(f: ColumnFn<W>, w: seq<W>, inv: bool, nr: nat, tr: seq<seq<W>>, n: nat)
    requires |w| == 120 && n + 1 < nr == |tr| && nr <= 14
  {
    tr[n + 1] == WordRound(f, tr[n], RoundWords(w, inv, nr, n + 1))
  }

  /** f and l are the full and the last round of the cipher with steps st, on packed states. */
  ghost predicate Rounds<S(!new), W>(pack: S -> seq<W>, st: Steps<S>, f: ColumnFn<W>, l: ColumnFn<W>) {
    forall s, k {:trigger RoundsAt(pack, st, f, l, s, k)} :: RoundsAt(pack, st, f, l, s, k)
  }

  ghost predicate RoundsAt<S, W>(pack: S -> seq<W>, st: Steps<S>, f: ColumnFn<W>, l: ColumnFn<W>, s: S, k: S) {
    |pack(k)| == 4 &&
    WordRound(f, pack(s), pack(k)) == pack(st.add(st.mix(st.sub(s)), k)) &&
    WordRound(l, pack(s), pack(k)) == pack(st.add(st.sub(s), k))
  }

  /** The schedule w holds the round keys after the first. */
  ghost predicate KeysPacked<S, W>(pack: S -> seq<W>, ks: seq<S>, w: seq<W>, inv: bool) {
    2 <= |ks| <= 15 && |w| == 120 &&
    forall n: nat {:trigger ks[n]} :: 0 < n < |ks| ==> RoundWords(w, inv, |ks| - 1, n) == pack(ks[n])
  }

  ghost function PackedTrace<S, W>(pack: S -> seq<W>, st: Steps<S>, ks: seq<S>, input: S): (tr: seq<seq<W>>)
    requires |ks| >= 2
    ensures |tr| == |ks| - 1
  {
    seq(|ks| - 1, r requires 0 <= r < |ks| - 1 => pack(CipherRounds(st, ks, input, r)))
  }

  lemma PackedStep<S(!new), W>(pack: S -> seq<W>, st: Steps<S>, f: ColumnFn<W>, l: ColumnFn<W>, ks: seq<S>,
                               w: seq<W>, inv: bool, input: S, n: nat)
    requires KeysPacked(pack, ks, w, inv) && Rounds(pack, st, f, l) && n + 2 < |ks|
    ensures WordStep(f, w, inv, |ks| - 1, PackedTrace(pack, st, ks, input), n)
  {
    var s := CipherRounds(st, ks, input, n);
    assert RoundsAt(pack, st, f, l, s, ks[n + 1]);
    assert CipherRounds(st, ks, input, n + 1) == st.add(st.mix(st.sub(s)), ks[n + 1]);
  }

  /** The states of Cipher, packed, are what the rounds on words go through. */
  lemma PackedRun<S(!new), W>(pack: S -> seq<W>, st: Steps<S>, f: ColumnFn<W>, l: ColumnFn<W>, ks: seq<S>,
                              w: seq<W>, inv: bool, input: S)
    requires KeysPacked(pack, ks, w, inv) && Rounds(pack, st, f, l)
    ensures var tr := PackedTrace(pack, st, ks, input); var nr := |ks| - 1;
            IsWordTrace(f, w, inv, nr, tr) && tr[0] == pack(st.add(input, ks[0])) &&
            WordRound(l, tr[nr - 1], RoundWords(w, inv, nr, nr)) == pack(Cipher(st, ks, input))
  {
    var tr := PackedTrace(pack, st, ks, input);
    var nr := |ks| - 1;
    forall n: nat {:trigger WordStep(f, w, inv, nr, tr, n)} | n + 1 < nr ensures WordStep(f, w, inv, nr, tr, n) {
      PackedStep(pack, st, f, l, ks, w, inv, input, n);
    }
    var s := CipherRounds(st, ks, input, nr - 1);
    assert RoundsAt(pack, st, f, l, s, ks[nr]);
    assert tr[nr - 1] == pack(s) && RoundWords(w, inv, nr, nr) == pack(ks[nr]);
    assert tr[0] == pack(CipherRounds(st, ks, input, 0));
  }

  // ---- The rounds in place ----

  /** f_nround, f_lround, i_nround and i_lround: a round from bi into bo with key words from w[i]. */
  method Round<W>(f: ColumnFn<W>, bo: array<W>, bi: array<W>, w: array<W>, i: nat)
    requires bo.Length == bi.Length == 4 && bo != bi && bo != w && i + 4 <= w.Length
    modifies bo
    ensures bo[..] == WordRound(f, bi[..], [w[i], w[i + 1], w[i + 2], w[i + 3]])
  {
    bo[0] := f(bi[..], 0, w[i]);
    bo[1] := f(bi[..], 1, w[i + 1]);
    bo[2] := f(bi[..], 2, w[i + 2]);
    bo[3] := f(bi[..], 3, w[i + 3]);
  }

  /** Two full rounds, through b1 and back into b0. */
  method TwoRounds<W>(f: ColumnFn<W>, b0: array<W>, b1: array<W>, w: array<W>, inv: bool, nr: nat, r: nat,
                      ghost tr: seq<seq<W>>)
    requires b0.Length == b1.Length == 4 && b0 != b1 && b0 != w && b1 != w && r + 2 < nr
    requires IsWordTrace(f, w[..], inv, nr, tr) && b0[..] == tr[r]
    modifies b0, b1
    ensures b0[..] == tr[r + 2]
  {
    assert WordStep(f, w[..], inv, nr, tr, r) && WordStep(f, w[..], inv, nr, tr, r + 1);
    Round(f, b1, b0, w, KeyIndex(inv, nr, r + 1));
    Round(f, b0, b1, w, KeyIndex(inv, nr, r + 2));
  }

  /** The last nine full rounds, which every key length has, through b0 and b1 into b1. */
  method NineRounds<W>(f: ColumnFn<W>, b0: array<W>, b1: array<W>, w: array<W>, inv: bool, nr: nat,
                       ghost tr: seq<seq<W>>)
    requires b0.Length == b1.Length == 4 && b0 != b1 && b0 != w && b1 != w && nr >= 10
    requires IsWordTrace(f, w[..], inv, nr, tr) && b0[..] == tr[nr - 10]
    modifies b0, b1
    ensures b1[..] == tr[nr - 1]
  {
    TwoRounds(f, b0, b1, w, inv, nr, nr - 10, tr);
    TwoRounds(f, b0, b1, w, inv, nr, nr - 8, tr);
    TwoRounds(f, b0, b1, w, inv, nr, nr - 6, tr);
    TwoRounds(f, b0, b1, w, inv, nr, nr - 4, tr);
    assert WordStep(f, w[..], inv, nr, tr, nr - 2);
    Round(f, b1, b0, w, KeyIndex(inv, nr, nr - 1));
  }

  /** The rounds of aes_encrypt and aes_decrypt: 9, 11 or 13 full ones by f and the last by l. */
  method AllRounds<W>(f: ColumnFn<W>, l: ColumnFn<W>, b0: array<W>, b1: array<W>, w: array<W>, inv: bool,
                      keyLength: nat, ghost tr: seq<seq<W>>)
    requires b0.Length == b1.Length == 4 && b0 != b1 && b0 != w && b1 != w && keyLength in {16, 24, 32}
    requires IsWordTrace(f, w[..], inv, keyLength / 4 + 6, tr) && b0[..] == tr[0]
    modifies b0, b1
    ensures b0[..] == WordRound(l, tr[keyLength / 4 + 5], RoundWords(w[..], inv, keyLength / 4 + 6, keyLength / 4 + 6))
  {
    var nr := keyLength / 4 + 6;
    if keyLength > 24 {
      TwoRounds(f, b0, b1, w, inv, nr, 0, tr);
    }
    if keyLength > 16 {
      TwoRounds(f, b0, b1, w, inv, nr, nr - 12, tr);
    }
    NineRounds(f, b0, b1, w, inv, nr, tr);
    Round(l, b0, b1, w, KeyIndex(inv, nr, nr));
  }

  /** Started from the packed sum of the input and the first round key, the rounds compute Cipher. */
  method CipherWords<S(!new), W>(f: ColumnFn<W>, l: ColumnFn<W>, b0: array<W>, b1: array<W>, w: array<W>, inv: bool,
                          keyLength: nat, ghost pack: S -> seq<W>, ghost st: Steps<S>, ghost ks: seq<S>, ghost input: S)
    requires b0.Length == b1.Length == 4 && b0 != b1 && b0 != w && b1 != w
    requires keyLength in {16, 24, 32} && |ks| == keyLength / 4 + 7
    requires Rounds(pack, st, f, l) && KeysPacked(pack, ks, w[..], inv)
    requires b0[..] == pack(st.add(input, ks[0]))
    modifies b0, b1
    ensures b0[..] == pack(Cipher(st, ks, input))
  {
    PackedRun(pack, st, f, l, ks, w[..], inv, input);
    AllRounds(f, l, b0, b1, w, inv, keyLength, PackedTrace(pack, st, ks, input));
  }
}
