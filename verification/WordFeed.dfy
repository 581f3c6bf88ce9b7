/** A digest over words of four bytes that is fed its message in pieces. */
module WordFeed {
  import opened Bytes

  /** What a digest does with one word. */
  type WordFn<!H> = (H, seq<Byte>) -> H

  /** All whole words of a message. */
  function Words<H>(step: WordFn<H>, s: H, m: seq<Byte>): H
    decreases |m|
  {
    if |m| < 4 then s else Words(step, step(s, m[..4]), m[4..])
  }

  /** The state after the whole words so far, and the bytes that wait for the rest of a word. */
  datatype State<H> = State(half: H, pending: seq<Byte>)

  function Tail(m: seq<Byte>): (t: seq<Byte>)
    ensures |t| == |m| % 4
    decreases |m|
  {
    if |m| < 4 then m else Tail(m[4..])
  }

  function Fed<H>(step: WordFn<H>, s: State<H>, data: seq<Byte>): State<H> {
    State(Words(step, s.half, s.pending + data), Tail(s.pending + data))
  }

  lemma {:induction false} WordsAppend<H>(step: WordFn<H>, s: H, a: seq<Byte>, b: seq<Byte>)
    ensures Words(step, s, a + b) == Words(step, Words(step, s, a), Tail(a) + b) && Tail(a + b) == Tail(Tail(a) + b)
    decreases |a|
  {
    if |a| >= 4 {
      assert (a + b)[..4] == a[..4] && (a + b)[4..] == a[4..] + b;
      WordsAppend(step, step(s, a[..4]), a[4..], b);
    }
  }

  lemma OneWord<H>(step: WordFn<H>, s: H, w: seq<Byte>, rest: seq<Byte>)
    requires |w| == 4
    ensures Words(step, s, w + rest) == Words(step, step(s, w), rest)
  {
    assert (w + rest)[..4] == w && (w + rest)[4..] == rest;
  }

  /** Feeding two pieces one after the other is feeding them joined. */
  lemma FedTwice<H>(step: WordFn<H>, s: State<H>, a: seq<Byte>, b: seq<Byte>)
    ensures Fed(step, Fed(step, s, a), b) == Fed(step, s, a + b)
  {
    WordsAppend(step, s.half, s.pending + a, b);
    assert (s.pending + a) + b == s.pending + (a + b);
  }

  function FedAll<H>(step: WordFn<H>, s: State<H>, pieces: seq<seq<Byte>>): State<H>
    decreases |pieces|
  {
    if pieces == [] then s else FedAll(step, Fed(step, s, pieces[0]), pieces[1..])
  }

  lemma FedNothing<H>(step: WordFn<H>, s: State<H>)
    requires |s.pending| < 4
    ensures Fed(step, s, []) == s
  {
    assert s.pending + [] == s.pending;
  }

  /** Any cutting of a message into pieces comes to the same. */
  lemma {:induction false} AnyChunking<H>(step: WordFn<H>, s: State<H>, pieces: seq<seq<Byte>>)
    requires |s.pending| < 4
    ensures FedAll(step, s, pieces) == Fed(step, s, Joined(pieces))
    decreases |pieces|
  {
    if pieces == [] {
      FedNothing(step, s);
    } else {
      AnyChunking(step, Fed(step, s, pieces[0]), pieces[1..]);
      FedTwice(step, s, pieces[0], Joined(pieces[1..]));
    }
  }

  // ---- The steps of an update ----

  lemma FedWord<H>(step: WordFn<H>, h: H, d: seq<Byte>)
    requires |d| >= 4
    ensures Fed(step, State(h, []), d) == Fed(step, State(step(h, d[..4]), []), d[4..])
  {
    assert [] + d == d && [] + d[4..] == d[4..];
  }

  lemma FedRest<H>(step: WordFn<H>, h: H, p: seq<Byte>, d: seq<Byte>)
    requires |p| + |d| < 4
    ensures Fed(step, State(h, p), d) == State(h, p + d)
  {
  }

  lemma FedFilled<H>(step: WordFn<H>, h: H, p: seq<Byte>, d: seq<Byte>, k: nat)
    requires k <= |d| && |p| + k == 4
    ensures Fed(step, State(h, p), d) == Fed(step, State(step(h, p + d[..k]), []), d[k..])
  {
    assert (p + d)[..4] == p + d[..k] && (p + d)[4..] == d[k..] && [] + d[k..] == d[k..];
  }

  /** The byte 0x5a and four to seven zeros, behind a message with k bytes in its last, incomplete word. */
  function Padding(k: nat): (p: seq<Byte>)
    requires k < 4
    ensures |p| == 8 - k
  {
    [0x5a] + Zeros(7 - k)
  }

  function Padded(m: seq<Byte>): (r: seq<Byte>)
    ensures |r| % 4 == 0
  {
    m + Padding(|m| % 4)
  }

  /** The last word with message bytes in it. */
  function LastWord(pending: seq<Byte>): (w: seq<Byte>)
    requires |pending| < 4
    ensures |w| == 4
  {
    pending + [0x5a] + Zeros(3 - |pending|)
  }

  const ZERO_WORD: seq<Byte> := [0, 0, 0, 0]

  lemma PaddedTail(t: seq<Byte>)
    requires |t| < 4
    ensures t + Padding(|t|) == LastWord(t) + ZERO_WORD
  {
  }

  /** The padding makes a last word and a word of zeros. */
  lemma PaddedWords<H>(step: WordFn<H>, s: H, m: seq<Byte>)
    ensures Words(step, s, Padded(m)) == step(step(Words(step, s, m), LastWord(Tail(m))), ZERO_WORD)
  {
    var h, w := Words(step, s, m), LastWord(Tail(m));
    WordsAppend(step, s, m, Padding(|Tail(m)|));
    PaddedTail(Tail(m));
    OneWord(step, h, w, ZERO_WORD);
    OneWord(step, step(h, w), ZERO_WORD, []);
    assert ZERO_WORD + [] == ZERO_WORD;
  }
}
