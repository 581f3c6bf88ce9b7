/** The key expansion loops of ieee80211/aes.c, for any word type: what they do does not depend
    on what adding, rotating and substituting words means. */
module KeyExpansion {

  /** xor adds words; head is the substitution at the start of group i, middle the one inside a
      256-bit group; imix is the column transformation of the decryption keys. */
  datatype KeySteps<!W> = KeySteps(xor: (W, W) -> W, head: (W, nat) -> W, middle: W -> W, imix: W -> W)

  /** Word j starts a group of n words. */
  predicate Starts(j: nat, n: nat) {
    if n == 4 then j % 4 == 0 else if n == 6 then j % 6 == 0 else j % 8 == 0
  }

  /** The number of the group of n words that word j lies in, counted from the first expanded one. */
  function Group(j: nat, n: nat): nat
    requires n <= j && (n == 4 || n == 6 || n == 8)
  {
    if n == 4 then j / 4 - 1 else if n == 6 then j / 6 - 1 else j / 8 - 1
  }

  /** Word j of the expansion of a key of 4, 6 or 8 words (FIPS 197, section 5.2). */
  function KeyWord<W>(st: KeySteps<W>, key: seq<W>, j: nat): W
    requires |key| == 4 || |key| == 6 || |key| == 8
  {
    if j < |key| then key[j] else
      var t := KeyWord(st, key, j - 1);
      st.xor(if Starts(j, |key|) then st.head(t, Group(j, |key|))
             else if |key| == 8 && j % 8 == 4 then st.middle(t) else t,
             KeyWord(st, key, j - |key|))
  }

  /** The arrays E and D of struct aes_ctx, as one array of 120 words with E from 0 and D from 60:
      for 256-bit keys the expansion loop also writes the four words behind E, which are D's first. */
  class Schedule<!W(0)> {
    const w: array<W>

    constructor ()
      ensures fresh(w) && w.Length == 120
    {
      w := new W[120];
    }

    /** The first n words of E are the first n words of the key expansion. */
    ghost predicate Expanded(st: KeySteps<W>, key: seq<W>, n: nat)
      reads w
    {
      (|key| == 4 || |key| == 6 || |key| == 8) && w.Length == 120 && n <= 64 &&
        forall j: nat {:trigger w[j]} :: j < n ==> w[j] == KeyWord(st, key, j)
    }

    /** The words of the key itself. */
    method Load(key: seq<W>, ghost st: KeySteps<W>)
      requires w.Length == 120 && (|key| == 4 || |key| == 6 || |key| == 8)
      modifies w
      ensures Expanded(st, key, |key|)
    {
      for i := 0 to |key|
        invariant Expanded(st, key, i)
      {
        w[i] := key[i];
      }
    }

    /** One word of the expansion: the term t, added to E[j - n]. */
    method Extend(xor: (W, W) -> W, t: W, j: nat, n: nat, ghost st: KeySteps<W>, ghost key: seq<W>) returns (r: W)
      requires n == |key| <= j < 64 && Expanded(st, key, j) && xor == st.xor
      requires st.xor(t, KeyWord(st, key, j - n)) == KeyWord(st, key, j)
      modifies w
      ensures Expanded(st, key, j + 1) && r == w[j]
    {
      r := xor(t, w[j - n]);
      w[j] := r;
    }

    /** Words from to to - 1 of group i, each the previous one added to the word n before: the
        repeated lines of loop4, loop6 and loop8. */
    method ExtendPlain(xor: (W, W) -> W, t: W, i: nat, from: nat, to: nat, n: nat,
                       ghost st: KeySteps<W>, ghost key: seq<W>) returns (r: W)
      requires n == |key| && 0 < from <= to <= n && (n == 8 ==> to <= 4 || from > 4) && GroupStart(i, n) + to <= 64
      requires Expanded(st, key, GroupStart(i, n) + from) && xor == st.xor && t == w[GroupStart(i, n) + from - 1]
      modifies w
      ensures Expanded(st, key, GroupStart(i, n) + to) && r == w[GroupStart(i, n) + to - 1]
    {
      r := t;
      for k := from to to
        invariant Expanded(st, key, GroupStart(i, n) + k) && r == w[GroupStart(i, n) + k - 1]
      {
        InGroup(i, k, n);
        assert KeyWord(st, key, GroupStart(i, n) + k) == st.xor(r, KeyWord(st, key, GroupStart(i, n) + k - n));
        r := Extend(xor, r, GroupStart(i, n) + k, n, st, key);
      }
    }

    /** loop4 and loop6 after their substitution h: group i of n words. */
    method Loop(xor: (W, W) -> W, i: nat, n: nat, h: W, ghost st: KeySteps<W>, ghost key: seq<W>) returns (r: W)
      requires n == |key| && GroupStart(i, n) + n <= 64 && n < 8
      requires Expanded(st, key, GroupStart(i, n)) && xor == st.xor && h == st.head(w[GroupStart(i, n) - 1], i)
      modifies w
      ensures Expanded(st, key, GroupStart(i, n) + n) && r == w[GroupStart(i, n) + n - 1]
    {
      InGroup(i, 0, n);
      r := Extend(xor, h, GroupStart(i, n), n, st, key);
      r := ExtendPlain(xor, r, i, 1, n, n, st, key);
    }

    /** loop8 between its two substitutions. */
    method Loop8First(xor: (W, W) -> W, i: nat, h: W, ghost st: KeySteps<W>, ghost key: seq<W>) returns (r: W)
      requires |key| == 8 && i < 7
      requires Expanded(st, key, GroupStart(i, 8)) && xor == st.xor && h == st.head(w[GroupStart(i, 8) - 1], i)
      modifies w
      ensures Expanded(st, key, GroupStart(i, 8) + 4) && r == w[GroupStart(i, 8) + 3]
    {
      InGroup(i, 0, 8);
      r := Extend(xor, h, GroupStart(i, 8), 8, st, key);
      r := ExtendPlain(xor, r, i, 1, 4, 8, st, key);
    }

    /** loop8 after its second substitution. */
    method Loop8Second(xor: (W, W) -> W, i: nat, h: W, ghost st: KeySteps<W>, ghost key: seq<W>) returns (r: W)
      requires |key| == 8 && i < 7
      requires Expanded(st, key, GroupStart(i, 8) + 4) && xor == st.xor && h == st.middle(w[GroupStart(i, 8) + 3])
      modifies w
      ensures Expanded(st, key, GroupStart(i, 8) + 8) && r == w[GroupStart(i, 8) + 7]
    {
      InGroup(i, 4, 8);
      r := Extend(xor, h, GroupStart(i, 8) + 4, 8, st, key);
      r := ExtendPlain(xor, r, i, 5, 8, 8, st, key);
    }

    /** The decryption words: imix of every word but the first four. */
    method FillInverse(imix: W -> W, keyLength: nat)
      requires w.Length == 120 && keyLength <= 32
      modifies w
      ensures forall j: nat {:trigger w[j]} :: j < 60 ==> w[j] == old(w[j])
      ensures forall j: nat {:trigger w[60 + j]} :: j < 4 ==> w[60 + j] == w[j]
      ensures forall j: nat {:trigger w[60 + j]} :: 4 <= j < keyLength + 24 ==> w[60 + j] == imix(w[j])
    {
      w[60], w[61], w[62], w[63] := w[0], w[1], w[2], w[3];
      for i := 4 to keyLength + 24
        invariant i <= 60
        invariant forall j: nat {:trigger w[j]} :: j < 60 ==> w[j] == old(w[j])
        invariant forall j: nat {:trigger w[60 + j]} :: j < 4 ==> w[60 + j] == w[j]
        invariant forall j: nat {:trigger w[60 + j]} :: 4 <= j < i ==> w[60 + j] == imix(w[j])
      {
        w[60 + i] := imix(w[i]);
      }
    }
  }

  /** The first word of group i. */
  function GroupStart(i: nat, n: nat): nat {
    if n == 4 then 4 * i + 4 else if n == 6 then 6 * i + 6 else 8 * i + 8
  }

  lemma Remainder(i: nat, k: nat, n: nat)
    requires (n == 4 || n == 6 || n == 8) && k < n
    ensures n == 4 ==> (4 * i + 4 + k) % 4 == k && (4 * i + 4 + k) / 4 == i + 1
    ensures n == 6 ==> (6 * i + 6 + k) % 6 == k && (6 * i + 6 + k) / 6 == i + 1
    ensures n == 8 ==> (8 * i + 8 + k) % 8 == k && (8 * i + 8 + k) / 8 == i + 1
  {
  }

  lemma InGroup(i: nat, k: nat, n: nat)
    requires (n == 4 || n == 6 || n == 8) && k < n
    ensures Starts(GroupStart(i, n) + k, n) <==> k == 0
    ensures Group(GroupStart(i, n), n) == i
    ensures n == 8 ==> ((GroupStart(i, n) + k) % 8 == 4 <==> k == 4)
  {
    Remainder(i, k, n);
    Remainder(i, 0, n);
  }
}
