/** ieee80211/digest.c: feeding a digest from a scatter list, page by page. */
module Digest {
  import opened Bytes
  import opened Scatterwalk
  import opened WordFeed
  import opened Michael

  /** The size of the address space; offsets and lengths are unsigned 32-bit numbers. */
  const SPACE: nat := 0x1_0000_0000

  function Address(page: nat, offset: nat): nat { page * PAGE_SIZE + offset }

  /** The bytes a segment stands for. */
  function BytesOf(mem: seq<Byte>, sg: Segment): (b: seq<Byte>)
    ensures |b| == sg.length
  {
    Piece(mem, Address(sg.page, sg.offset), sg.length)
  }

  function ListBytes(mem: seq<Byte>, sgs: seq<Segment>): seq<seq<Byte>> {
    if sgs == [] then [] else ListBytes(mem, sgs[..|sgs| - 1]) + [BytesOf(mem, sgs[|sgs| - 1])]
  }

  /** min(l, PAGE_SIZE - offset) in unsigned arithmetic. */
  function FromPage(l: nat, offset: nat): nat
    requires offset <= SPACE
  {
    Min(l, if offset <= PAGE_SIZE then PAGE_SIZE - offset else SPACE + PAGE_SIZE - offset)
  }

  lemma FedOnce<H>(step: WordFn<H>, s: State<H>, pieces: seq<seq<Byte>>, p: seq<Byte>)
    requires |s.pending| < 4
    ensures Fed(step, Fed(step, s, Joined(pieces)), p) == Fed(step, s, Joined(pieces + [p]))
  {
    JoinedOneMore(pieces, p);
    FedTwice(step, s, Joined(pieces), p);
  }

  class Hash {
    const ctx: Context
    const mem: array<Byte>

    constructor (mem: array<Byte>)
      requires mem.Length <= SPACE
      ensures Valid() && fresh(ctx) && fresh(ctx.pending) && this.mem == mem
    {
      this.mem := mem;
      ctx := new Context();
    }

    ghost predicate Valid()
      reads this, ctx
    {
      ctx.Valid() && ctx.pending != mem && mem.Length <= SPACE
    }

    /** What is left to feed: n bytes at an address. */
    ghost function Rest(a: nat, n: nat): State<Half>
      requires Valid()
      reads this, ctx, ctx.pending, mem
    {
      Fed(Mixed, ctx.View(), Piece(mem[..], a, n))
    }

    lemma RestSplit(a: nat, k: nat, n: nat)
      requires Valid() && k <= n
      ensures Rest(a, n) == Fed(Mixed, Fed(Mixed, ctx.View(), Piece(mem[..], a, k)), Piece(mem[..], a + k, n - k))
    {
      PieceSplit(mem[..], a, k, n);
      FedTwice(Mixed, ctx.View(), Piece(mem[..], a, k), Piece(mem[..], a + k, n - k));
      assert Piece(mem[..], a, n) == Piece(mem[..], a, n)[..k] + Piece(mem[..], a, n)[k..];
    }

    /** One page's share. */
    method FeedPage(a: nat, k: nat, ghost n: nat)
      requires Valid() && k <= n && a + k <= mem.Length
      modifies ctx, ctx.pending
      ensures Valid() && Rest(a + k, n - k) == old(Rest(a, n))
    {
      RestSplit(a, k, n);
      PieceAt(mem[..], a, k);
      assert mem[a..a + k] == Piece(mem[..], a, k);
      ctx.Update(mem[a..a + k]);
    }

    /** Nothing left is the present state. */
    lemma RestNothing(a: nat)
      requires Valid()
      ensures Rest(a, 0) == ctx.View()
    {
      assert Piece(mem[..], a, 0) == [];
      FedNothing(Mixed, ctx.View());
    }

    /** The inner loop of update: one segment, whatever pages it crosses. */
    method UpdateSegment(sg: Segment)
      requires Valid() && Address(sg.page, sg.offset) + sg.length <= mem.Length
      modifies ctx, ctx.pending
      ensures Valid() && ctx.View() == Fed(Mixed, old(ctx.View()), BytesOf(mem[..], sg))
    {
      ghost var goal := Rest(Address(sg.page, sg.offset), sg.length);
      Pages(sg.page, sg.offset, sg.length, goal);
    }

    /** Feeds l bytes from an offset in (or behind) a page. */
    method Pages(firstPage: nat, firstOffset: nat, length: nat, ghost goal: State<Half>)
      requires Valid() && Address(firstPage, firstOffset) + length <= mem.Length &&
               Rest(Address(firstPage, firstOffset), length) == goal
      modifies ctx, ctx.pending
      ensures Valid() && ctx.View() == goal
    {
      var page, offset, l := firstPage, firstOffset, length;
      ghost var a: nat := Address(page, offset);
      var first := true;
      while first || l > 0
        invariant Valid() && a + l <= mem.Length && (first || l > 0 ==> a == Address(page, offset))
        invariant Rest(a, l) == goal
        decreases l, offset, first
      {
        first := false;
        var k := FromPage(l, offset);
        FeedPage(Address(page, offset), k, l);
        a := a + k;
        page, offset := page + 1, 0;
        l := l - k;
      }
      RestNothing(a);
    }

    /** update. */
    method Update(sgs: seq<Segment>, ghost m: seq<Byte>)
      requires Valid() && m == Joined(ListBytes(mem[..], sgs)) && forall i {:trigger sgs[i]} :: 0 <= i < |sgs| ==>
                 Address(sgs[i].page, sgs[i].offset) + sgs[i].length <= mem.Length
      modifies ctx, ctx.pending
      ensures Valid() && ctx.View() == Fed(Mixed, old(ctx.View()), m)
    {
      ghost var start := ctx.View();
      FedNothing(Mixed, start);
      for i := 0 to |sgs|
        invariant Valid() && ctx.View() == Fed(Mixed, start, Joined(ListBytes(mem[..], sgs[..i])))
      {
        assert sgs[..i + 1][..i] == sgs[..i];
        FedOnce(Mixed, start, ListBytes(mem[..], sgs[..i]), BytesOf(mem[..], sgs[i]));
        UpdateSegment(sgs[i]);
      }
      assert sgs[..|sgs|] == sgs;
    }

    /** init and setkey. */
    method Start(key: seq<Byte>)
      requires Valid() && |key| == 8
      modifies ctx
      ensures Valid() && ctx.View() == State(KeyHalf(key), [])
    {
      ctx.Init();
      var ok := ctx.SetKey(key);
    }

    /** init, setkey, update and final: Michael of the listed bytes, wherever segments and pages end. */
    method Run(key: seq<Byte>, sgs: seq<Segment>) returns (out: seq<Byte>)
      requires Valid() && |key| == 8
      requires forall i {:trigger sgs[i]} :: 0 <= i < |sgs| ==>
                 Address(sgs[i].page, sgs[i].offset) + sgs[i].length <= mem.Length
      modifies ctx, ctx.pending
      ensures Valid() && out == Mic(key, Joined(ListBytes(old(mem[..]), sgs)))
    {
      ghost var m := Joined(ListBytes(mem[..], sgs));
      ghost var s := State(KeyHalf(key), []);
      FinishOne(key, m);
      Start(key);
      assert ctx.View() == s;
      Update(sgs, m);
      out := End(Fed(Mixed, s, m), Mic(key, m));
    }

    /** final. */
    method End(ghost s: State<Half>, ghost want: seq<Byte>) returns (out: seq<Byte>)
      requires Valid() && ctx.View() == s && |s.pending| < 4 && Finish(s) == want
      modifies ctx
      ensures Valid() && out == want
    {
      out := ctx.Final();
    }
  }
}
