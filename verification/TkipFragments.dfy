/** TKIP and fragmentation: ieee80211_encrypt_fragment (ieee80211/ieee80211_tx.c) signs every fragment,
    ieee80211_rx (ieee80211/ieee80211_rx.c) checks one code behind the reassembled MSDU. */
module TkipFragments {
  import opened Bytes
  import opened Tkip

  /** The pieces with a code behind each, under the header hdr of the integrity code. */
  function SignedPieces(mic: MicFn, hdr: seq<Byte>, chunks: seq<seq<Byte>>): seq<seq<Byte>> {
    if chunks == [] then []
      else SignedPieces(mic, hdr, chunks[..|chunks| - 1]) + [Last(chunks) + mic(hdr + Last(chunks))]
  }

  function Last(chunks: seq<seq<Byte>>): seq<Byte>
    requires chunks != []
  {
    chunks[|chunks| - 1]
  }

  /** What the receiver strips the code from. */
  function Reassembled(mic: MicFn, hdr: seq<Byte>, chunks: seq<seq<Byte>>): seq<Byte> {
    Joined(SignedPieces(mic, hdr, chunks))
  }

  lemma {:induction false} ReassembledLength(mic: MicFn, hdr: seq<Byte>, chunks: seq<seq<Byte>>)
    ensures |Reassembled(mic, hdr, chunks)| == |Joined(chunks)| + 8 * |chunks|
    decreases |chunks|
  {
    if chunks != [] {
      var c, x := chunks[..|chunks| - 1], Last(chunks);
      ReassembledLength(mic, hdr, c);
      JoinedOneMore(SignedPieces(mic, hdr, c), x + mic(hdr + x));
      JoinedOneMore(c, x);
      assert chunks == c + [x];
    }
  }

  /** The receiver compares the last fragment's code with that of everything before it, so an MSDU in
      several fragments passes only if the two happen to be the same. */
  lemma PassesIffCollision(mic: MicFn, hdr: seq<Byte>, chunks: seq<seq<Byte>>)
    requires chunks != []
    ensures var b := Reassembled(mic, hdr, chunks);
            |b| >= 8 && (mic(hdr + b[..|b| - 8]) == b[|b| - 8..] <==>
                mic(hdr + b[..|b| - 8]) == mic(hdr + Last(chunks)))
  {
    var c, x := chunks[..|chunks| - 1], Last(chunks);
    JoinedOneMore(SignedPieces(mic, hdr, c), x + mic(hdr + x));
    var b := Reassembled(mic, hdr, chunks);
    assert b == (Joined(SignedPieces(mic, hdr, c)) + x) + mic(hdr + x);
  }

  /** An MSDU comes out as it was sent exactly when it was not fragmented. */
  lemma RestoredIffOneFragment(mic: MicFn, hdr: seq<Byte>, chunks: seq<seq<Byte>>)
    requires chunks != []
    ensures var b := Reassembled(mic, hdr, chunks);
            |b| >= 8 &&
            (mic(hdr + b[..|b| - 8]) == b[|b| - 8..] && b[..|b| - 8] == Joined(chunks) <==> |chunks| == 1)
  {
    ReassembledLength(mic, hdr, chunks);
    if |chunks| == 1 {
      OneFragment(mic, hdr, Last(chunks));
      assert chunks == [Last(chunks)];
    }
  }

  lemma OneFragment(mic: MicFn, hdr: seq<Byte>, x: seq<Byte>)
    ensures var b := Reassembled(mic, hdr, [x]);
            |b| == |x| + 8 && b[..|x|] == x == Joined([x]) && b[|x|..] == mic(hdr + x)
  {
    var y := x + mic(hdr + x);
    var c, d: seq<seq<Byte>> := [x], [y];
    assert c[..0] == [] && c[1..] == [] && d[1..] == [] && [] + d == d;
    assert SignedPieces(mic, hdr, c) == d;
    assert Joined(c) == x + Joined(c[1..]) && Joined(d) == y + Joined(d[1..]);
    assert x + [] == x && y + [] == y;
    assert y[..|x|] == x && y[|x|..] == mic(hdr + x);
  }
}
