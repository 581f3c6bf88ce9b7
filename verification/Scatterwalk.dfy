/** ieee80211/scatterwalk.c: walking the bytes of a scatter list, page by page. */
module Scatterwalk {
  import opened Bytes

  const PAGE_SIZE: nat := 4096

  /** One entry of a scatter list: length bytes from offset in (or behind) a page. */
  datatype Segment = Segment(page: nat, offset: nat, length: nat)

  /** n consecutive addresses. */
  function Run(start: nat, n: nat): (r: seq<nat>)
    ensures |r| == n
  {
    seq(n, i requires i >= 0 => start + i)
  }

  /** The addresses a segment stands for: pages lie behind each other in memory. */
  function Meant(sg: Segment): seq<nat> { Run(sg.page * PAGE_SIZE + sg.offset, sg.length) }

  /** What is left of the page an offset lies in. */
  function RestOfPage(offset: nat): nat { PAGE_SIZE - offset % PAGE_SIZE }

  /** The addresses the walker visits for a segment. */
  function Walked(sg: Segment): seq<nat> {
    var first := Min(sg.length, RestOfPage(sg.offset));
    Run(sg.page * PAGE_SIZE + sg.offset, first) + Run((sg.page + 1) * PAGE_SIZE, sg.length - first)
  }

  /** The walker visits the bytes that were meant exactly when the segment starts inside its first
      page or does not leave the page it starts in. */
  lemma WalkedAsMeant(sg: Segment)
    ensures Walked(sg) == Meant(sg) <==> sg.offset < PAGE_SIZE || sg.offset % PAGE_SIZE + sg.length <= PAGE_SIZE
  {
    var first := Min(sg.length, RestOfPage(sg.offset));
    if sg.offset < PAGE_SIZE || sg.offset % PAGE_SIZE + sg.length <= PAGE_SIZE {
      assert Walked(sg) == Meant(sg);
    } else {
      assert Walked(sg)[first] == (sg.page + 1) * PAGE_SIZE;
      assert Meant(sg)[first] == sg.page * PAGE_SIZE + sg.offset + first;
    }
  }

  function WalkedList(sgs: seq<Segment>): seq<nat> {
    if sgs == [] then [] else Walked(sgs[0]) + WalkedList(sgs[1..])
  }

  function MeantList(sgs: seq<Segment>): seq<nat> {
    if sgs == [] then [] else Meant(sgs[0]) + MeantList(sgs[1..])
  }

  /** Lists whose segments start inside their pages are walked as meant. */
  lemma {:induction false} ListWalkedAsMeant(sgs: seq<Segment>)
    requires forall i :: 0 <= i < |sgs| ==>
               sgs[i].offset < PAGE_SIZE || sgs[i].offset % PAGE_SIZE + sgs[i].length <= PAGE_SIZE
    ensures WalkedList(sgs) == MeantList(sgs)
  {
    if sgs != [] {
      WalkedAsMeant(sgs[0]);
      ListWalkedAsMeant(sgs[1..]);
    }
  }

  // ---- Bytes at a list of addresses ----

  predicate Inside(ps: seq<nat>, size: nat) { forall i {:trigger ps[i]} :: 0 <= i < |ps| ==> ps[i] < size }

  function Gather(mem: seq<Byte>, ps: seq<nat>): (r: seq<Byte>)
    ensures |r| == |ps|
  {
    seq(|ps|, i requires 0 <= i < |ps| => ByteAt(mem, ps[i]))
  }

  /** Memory after storing data at ps, in order. */
  function Scatter(mem: seq<Byte>, ps: seq<nat>, data: seq<Byte>): (r: seq<Byte>)
    requires |ps| == |data|
    ensures |r| == |mem|
  {
    var n := |ps|;
    if n == 0 then mem else
      var m := Scatter(mem, ps[..n - 1], data[..n - 1]);
      if ps[n - 1] < |m| then m[ps[n - 1] := data[n - 1]] else m
  }

  /** Nothing else changes. */
  lemma {:induction false} ScatterElsewhere(mem: seq<Byte>, ps: seq<nat>, data: seq<Byte>, a: nat)
    requires |ps| == |data| && a < |mem| && a !in ps
    ensures Scatter(mem, ps, data)[a] == mem[a]
  {
    var n := |ps|;
    if n > 0 {
      assert ps[n - 1] in ps;
      ScatterElsewhere(mem, ps[..n - 1], data[..n - 1], a);
    }
  }

  predicate Distinct(ps: seq<nat>) {
    forall i, j :: 0 <= i < j < |ps| ==> ps[i] != ps[j]
  }

  /** No address is among the first n of both lists. */
  ghost predicate Disjoint(ps: seq<nat>, qs: seq<nat>, n: nat) {
    n <= |ps| && n <= |qs| && forall i: nat, j: nat {:trigger Differ(ps, qs, i, j)} :: i < n && j < n ==>
        Differ(ps, qs, i, j)
  }

  predicate Differ(ps: seq<nat>, qs: seq<nat>, i: nat, j: nat)
    requires i < |ps| && j < |qs|
  {
    ps[i] != qs[j]
  }

  /** Storing at distinct addresses and gathering from them gives the data back. */
  lemma {:induction false} GatherScatter(mem: seq<Byte>, ps: seq<nat>, data: seq<Byte>)
    requires Inside(ps, |mem|) && |ps| == |data| && Distinct(ps)
    ensures Gather(Scatter(mem, ps, data), ps) == data
  {
    var n := |ps|;
    if n > 0 {
      GatherScatter(mem, ps[..n - 1], data[..n - 1]);
      var m := Scatter(mem, ps[..n - 1], data[..n - 1]);
      forall i | 0 <= i < n ensures Gather(Scatter(mem, ps, data), ps)[i] == data[i] {
        if i < n - 1 { assert Gather(m, ps[..n - 1])[i] == data[..n - 1][i]; }
      }
    }
  }

  /** Storing back what was gathered undoes a store. */
  lemma ScatterBack(mem: seq<Byte>, ps: seq<nat>, data: seq<Byte>)
    requires Inside(ps, |mem|) && |ps| == |data| && Distinct(ps)
    ensures Scatter(Scatter(mem, ps, data), ps, Gather(mem, ps)) == mem
  {
    var m1 := Scatter(mem, ps, data);
    var m2 := Scatter(m1, ps, Gather(mem, ps));
    GatherScatter(m1, ps, Gather(mem, ps));
    forall a | 0 <= a < |mem| ensures m2[a] == mem[a] {
      if a in ps {
        var i :| 0 <= i < |ps| && ps[i] == a;
        assert Gather(m2, ps)[i] == Gather(mem, ps)[i];
      } else {
        ScatterElsewhere(mem, ps, data, a);
        ScatterElsewhere(m1, ps, Gather(mem, ps), a);
      }
    }
  }

  lemma {:induction false} ScatterAppend(mem: seq<Byte>, ps: seq<nat>, data: seq<Byte>, qs: seq<nat>, more: seq<Byte>)
    requires |ps| == |data| && |qs| == |more|
    ensures Scatter(mem, ps + qs, data + more) == Scatter(Scatter(mem, ps, data), qs, more)
  {
    var n := |qs|;
    if n == 0 {
      assert ps + qs == ps && data + more == data;
    } else {
      ScatterAppend(mem, ps, data, qs[..n - 1], more[..n - 1]);
      assert (ps + qs)[..|ps + qs| - 1] == ps + qs[..n - 1] &&
             (data + more)[..|data + more| - 1] == data + more[..n - 1];
    }
  }

  /** Storing a run is a block copy. */
  lemma {:induction false} ScatterRun(mem: seq<Byte>, start: nat, data: seq<Byte>)
    ensures Scatter(mem, Run(start, |data|), data) == Put(mem, start, data)
  {
    var n := |data|;
    if n > 0 {
      ScatterRun(mem, start, data[..n - 1]);
      assert Run(start, n)[..n - 1] == Run(start, n - 1);
    }
  }

  lemma GatherRun(mem: seq<Byte>, start: nat, n: nat)
    ensures Gather(mem, Run(start, n)) == Piece(mem, start, n)
  {
  }

  // ---- A transfer of n bytes between memory m at ps and a buffer b from position done ----

  ghost function Transfer(out: bool, m: seq<Byte>, ps: seq<nat>, b: seq<Byte>, done: nat, n: nat)
    : (seq<Byte>, seq<Byte>)
    requires n <= |ps|
  {
    if out then (Scatter(m, ps[..n], Piece(b, done, n)), b) else (m, Put(b, done, Gather(m, ps[..n])))
  }

  /** The part of it within one page. */
  ghost function PageTransfer(out: bool, m: seq<Byte>, start: nat, b: seq<Byte>, done: nat, k: nat)
    : (seq<Byte>, seq<Byte>)
  {
    if out then (Put(m, start, Piece(b, done, k)), b) else (m, Put(b, done, Piece(m, start, k)))
  }

  lemma TransferPage(out: bool, m: seq<Byte>, ps: seq<nat>, start: nat, b: seq<Byte>, done: nat, n: nat, k: nat)
    requires k <= n <= |ps| && ps[..k] == Run(start, k)
    ensures var p := PageTransfer(out, m, start, b, done, k);
            Transfer(out, p.0, ps[k..], p.1, done + k, n - k) == Transfer(out, m, ps, b, done, n)
  {
    assert ps[..n] == ps[..k] + ps[k..][..n - k];
    if out {
      ScatterRun(m, start, Piece(b, done, k));
      ScatterAppend(m, Run(start, k), Piece(b, done, k), ps[k..][..n - k], Piece(b, done + k, n - k));
      assert Piece(b, done, n) == Piece(b, done, k) + Piece(b, done + k, n - k);
    } else {
      GatherRun(m, start, k);
      assert Gather(m, ps[..n]) == Piece(m, start, k) + Gather(m, ps[k..][..n - k]);
      PutTwo(b, done, Piece(m, start, k), Gather(m, ps[k..][..n - k]));
    }
  }

  lemma NoTransfer(out: bool, m: seq<Byte>, ps: seq<nat>, b: seq<Byte>, done: nat)
    ensures Transfer(out, m, ps, b, done, 0) == (m, b)
  {
    assert Put(b, done, []) == b;
  }

  // ---- The walker ----

  /** Where a walker stands. */
  datatype Cursor = Cursor(sg: nat, page: nat, offset: nat, lenThisPage: nat, lenThisSegment: nat)

  function StartOf(sgs: seq<Segment>, i: nat): Cursor
    requires i < |sgs|
  {
    Cursor(i, sgs[i].page, sgs[i].offset, Min(sgs[i].length, RestOfPage(sgs[i].offset)), sgs[i].length)
  }

  /** The next page of the segment, or else the next segment. */
  function NextPage(sgs: seq<Segment>, c: Cursor): Cursor
    requires c.lenThisPage <= c.lenThisSegment && (c.lenThisPage < c.lenThisSegment || c.sg + 1 < |sgs|)
  {
    var rest := c.lenThisSegment - c.lenThisPage;
    if rest > 0 then Cursor(c.sg, c.page + 1, 0, Min(rest, PAGE_SIZE), rest) else StartOf(sgs, c.sg + 1)
  }

  /** scatterwalk_done only moves on from the end of a page, and only if more is to come. */
  function AfterDone(sgs: seq<Segment>, c: Cursor, nbytes: nat): Cursor {
    if c.lenThisPage == 0 && nbytes > 0 && (0 < c.lenThisSegment || c.sg + 1 < |sgs|) then NextPage(sgs, c) else c
  }

  /** Where a walker stands n bytes later: its position depends on nothing else. */
  function Advance(sgs: seq<Segment>, c: Cursor, n: nat): Cursor
    decreases |sgs| - c.sg, c.lenThisSegment, c.lenThisPage == 0
  {
    if n <= c.lenThisPage <= c.lenThisSegment then
      c.(offset := c.offset + n, lenThisPage := c.lenThisPage - n, lenThisSegment := c.lenThisSegment - n)
    else if c.lenThisPage < n &&
      (c.lenThisPage < c.lenThisSegment || (c.lenThisPage == c.lenThisSegment && c.sg + 1 < |sgs|)) then
      Advance(sgs, NextPage(sgs, c), n - c.lenThisPage)
    else c
  }

  /** Advancing over a page boundary. */
  lemma AdvancePage(sgs: seq<Segment>, c: Cursor, n: nat)
    requires c.lenThisPage <= c.lenThisSegment && (c.lenThisPage < c.lenThisSegment || c.sg + 1 < |sgs|) &&
             c.lenThisPage < n
    ensures var d := NextPage(sgs, c);
            Advance(sgs, d, n - c.lenThisPage) == Advance(sgs, c, n) &&
            (d.sg > c.sg || (d.sg == c.sg && (d.lenThisSegment < c.lenThisSegment ||
             (d.lenThisSegment == c.lenThisSegment && c.lenThisPage == 0 < d.lenThisPage))))
  {
  }

  class Walk {
    const sgs: seq<Segment>
    const mem: array<Byte>
    var sg: nat
    var page: nat
    var offset: nat
    var lenThisPage: nat
    var lenThisSegment: nat
    /** The mapped address; it stays behind while offset moves. */
    var data: nat
    /** The addresses still to come. */
    ghost var todo: seq<nat>

    ghost predicate Valid()
      reads `sg, `page, `offset, `lenThisPage, `lenThisSegment, `todo
    {
      sg < |sgs| && lenThisPage <= lenThisSegment && |todo| == lenThisSegment + |WalkedList(sgs[sg + 1..])| &&
      forall k: nat {:trigger Next(k)} :: k < |todo| ==> todo[k] == Next(k) < mem.Length
    }

    /** The address of the byte k bytes ahead. */
    ghost function Next(k: nat): nat
      requires sg < |sgs| && lenThisPage <= lenThisSegment && k < lenThisSegment + |WalkedList(sgs[sg + 1..])|
      reads `sg, `page, `offset, `lenThisPage, `lenThisSegment
    {
      if k < lenThisPage then page * PAGE_SIZE + offset + k
      else if k < lenThisSegment then (page + 1) * PAGE_SIZE + k - lenThisPage
      else WalkedList(sgs[sg + 1..])[k - lenThisSegment]
    }

    ghost function At(): Cursor
      reads `sg, `page, `offset, `lenThisPage, `lenThisSegment
    {
      Cursor(sg, page, offset, lenThisPage, lenThisSegment)
    }

    constructor (sgs: seq<Segment>, mem: array<Byte>)
      requires sgs != [] && Inside(WalkedList(sgs), mem.Length)
      ensures this.sgs == sgs && this.mem == mem && Valid() && todo == WalkedList(sgs)
      ensures At() == StartOf(sgs, 0)
    {
      this.sgs := sgs;
      this.mem := mem;
      new;
      Start(0);
      assert sgs[0..] == sgs;
    }

    /** scatterwalk_start. */
    method Start(i: nat)
      requires i < |sgs| && Inside(WalkedList(sgs[i..]), mem.Length)
      modifies this
      ensures At() == StartOf(sgs, i) && Valid() && todo == WalkedList(sgs[i..])
    {
      sg := i;
      page := sgs[i].page;
      lenThisSegment := sgs[i].length;
      lenThisPage := Min(sgs[i].length, RestOfPage(sgs[i].offset));
      offset := sgs[i].offset;
      todo := WalkedList(sgs[i..]);
      assert sgs[i..][0] == sgs[i] && sgs[i..][1..] == sgs[i + 1..];
    }

    /** scatterwalk_map. */
    method Map()
      modifies this`data
      ensures data == page * PAGE_SIZE + offset
    {
      data := page * PAGE_SIZE + offset;
    }

    /** scatterwalk_whichbuf: the next n bytes lie in the mapped page. */
    predicate Direct(n: nat)
      reads this
    {
      n <= lenThisPage && data % PAGE_SIZE + n <= PAGE_SIZE
    }

    lemma Rest()
      requires Valid()
      ensures var rest := todo[lenThisPage..];
              (forall k: nat {:trigger rest[k]} :: k < |rest| ==> rest[k] == Next(lenThisPage + k) < mem.Length) &&
              (lenThisPage == lenThisSegment ==> rest == WalkedList(sgs[sg + 1..]) && Inside(rest, mem.Length))
    {
      var rest := todo[lenThisPage..];
      forall k: nat {:trigger rest[k]} | k < |rest| ensures rest[k] == Next(lenThisPage + k) < mem.Length {}
    }

    /** scatterwalk_pagedone with more to do: gives up the rest of the page. */
    method PageDone()
      requires Valid() && lenThisPage < |todo|
      modifies this
      ensures Valid() && todo == old(todo[lenThisPage..]) && old(lenThisPage < lenThisSegment || sg + 1 < |sgs|)
      ensures At() == NextPage(sgs, old(At()))
    {
      Rest();
      if lenThisPage < lenThisSegment {
        TurnPage();
      } else {
        Start(sg + 1);
      }
    }

    /** To the front of the next page of the segment. */
    method TurnPage()
      requires Valid() && lenThisPage < lenThisSegment && sg < |sgs|
      requires var rest := todo[lenThisPage..];
               forall k: nat {:trigger rest[k]} :: k < |rest| ==> rest[k] == Next(lenThisPage + k) < mem.Length
      modifies this
      ensures Valid() && todo == old(todo[lenThisPage..]) && At() == NextPage(sgs, old(At()))
    {
      ghost var rest := todo[lenThisPage..];
      lenThisSegment := lenThisSegment - lenThisPage;
      page := page + 1;
      lenThisPage := Min(lenThisSegment, PAGE_SIZE);
      offset := 0;
      todo := rest;
      forall k: nat {:trigger Next(k)} | k < |todo| ensures todo[k] == Next(k) < mem.Length {
        assert rest[k] == old(Next(lenThisPage + k));
      }
    }

    /** scatterwalk_done; nbytes is what the caller still has to do. */
    method Done(nbytes: nat)
      requires Valid() && nbytes <= |todo|
      modifies this
      ensures Valid() && todo == old(todo)
      ensures At() == AfterDone(sgs, old(At()), nbytes)
    {
      if lenThisPage == 0 && nbytes > 0 {
        PageDone();
      }
    }

    /** The bookkeeping at the end of scatterwalk_copychunks. */
    method Skip(n: nat)
      requires Valid() && n <= lenThisPage
      modifies this`offset, this`lenThisPage, this`lenThisSegment, this`todo
      ensures Valid() && todo == old(todo[n..]) && At() == Advance(sgs, old(At()), n)
    {
      ghost var rest := todo[n..];
      assert forall k: nat {:trigger rest[k]} :: k < |rest| ==> rest[k] == Next(n + k) < mem.Length;
      offset := offset + n;
      lenThisPage := lenThisPage - n;
      lenThisSegment := lenThisSegment - n;
      todo := rest;
      forall k: nat {:trigger Next(k)} | k < |todo| ensures todo[k] == Next(k) < mem.Length {
        assert rest[k] == old(Next(n + k));
      }
    }

    /** The rest of the page is mapped. */
    lemma Mapped(k: nat)
      requires Valid() && k <= lenThisPage
      ensures todo[..k] == Run(page * PAGE_SIZE + offset, k)
      ensures k > 0 ==> page * PAGE_SIZE + offset + k <= mem.Length
    {
      assert forall i: nat {:trigger todo[i]} :: i < k ==> todo[i] == Next(i) < mem.Length;
      if k > 0 { assert todo[k - 1] == Next(k - 1) < mem.Length; }
    }

    /** memcpy_dir for k bytes of the mapped page. */
    method CopyDir(buf: array<Byte>, done: nat, k: nat, out: bool)
      requires Valid() && data == page * PAGE_SIZE + offset && k <= lenThisPage && done + k <= buf.Length && buf != mem
      modifies mem, buf
      ensures (mem[..], buf[..]) == PageTransfer(out, old(mem[..]), data, old(buf[..]), done, k)
    {
      Mapped(k);
      if k > 0 {
        if out {
          Memcpy(mem, data, buf, done, k);
        } else {
          Memcpy(buf, done, mem, data, k);
        }
      } else {
        assert Put(mem[..], data, []) == mem[..] && Put(buf[..], done, []) == buf[..];
      }
    }

    /** One turn of the loop in scatterwalk_copychunks, n bytes from its end. */
    method CopyRestOfPage(buf: array<Byte>, done: nat, n: nat, out: bool)
      requires Valid() && data == page * PAGE_SIZE + offset && buf != mem
      requires lenThisPage < n <= |todo| && done + n <= buf.Length
      modifies this, mem, buf
      ensures Valid() && data == page * PAGE_SIZE + offset && todo == old(todo[lenThisPage..])
      ensures Transfer(out, mem[..], todo, buf[..], done + old(lenThisPage), n - old(lenThisPage))
           == Transfer(out, old(mem[..]), old(todo), old(buf[..]), done, n)
      ensures old(lenThisPage < lenThisSegment || sg + 1 < |sgs|) && At() == NextPage(sgs, old(At()))
    {
      Mapped(lenThisPage);
      TransferPage(out, mem[..], todo, data, buf[..], done, n, lenThisPage);
      CopyDir(buf, done, lenThisPage, out);
      PageDone();
      Map();
    }

    /** What scatterwalk_copychunks does after its loop. */
    method CopyLast(buf: array<Byte>, done: nat, n: nat, out: bool)
      requires Valid() && data == page * PAGE_SIZE + offset && buf != mem
      requires n <= lenThisPage && done + n <= buf.Length
      modifies this, mem, buf
      ensures Valid() && todo == old(todo[n..]) && At() == Advance(sgs, old(At()), n)
      ensures (mem[..], buf[..]) == Transfer(out, old(mem[..]), old(todo), old(buf[..]), done, n)
    {
      Mapped(n);
      TransferPage(out, mem[..], todo, data, buf[..], done, n, n);
      CopyDir(buf, done, n, out);
      Skip(n);
      NoTransfer(out, mem[..], todo, buf[..], done + n);
    }

    static lemma SliceTwice(ps: seq<nat>, i: nat, k: nat)
      requires i + k <= |ps|
      ensures ps[i..][k..] == ps[i + k..]
    {
    }

    /** The loop of scatterwalk_copychunks: whole rests of pages, until what is left lies in one. */
    method CopyPages(buf: array<Byte>, n: nat, out: bool) returns (done: nat, left: nat)
      requires Valid() && data == page * PAGE_SIZE + offset && n <= buf.Length && n <= |todo| && buf != mem
      modifies this, mem, buf
      ensures done + left == n && left <= lenThisPage && Valid() && data == page * PAGE_SIZE + offset
      ensures todo == old(todo)[done..] && Advance(sgs, At(), left) == Advance(sgs, old(At()), n)
      ensures Transfer(out, mem[..], todo, buf[..], done, left)
           == Transfer(out, old(mem[..]), old(todo), old(buf[..]), 0, n)
    {
      ghost var ps := todo;
      ghost var goal := Transfer(out, mem[..], todo, buf[..], 0, n);
      ghost var stop := Advance(sgs, At(), n);
      done, left := 0, n;
      while left > lenThisPage
        invariant done + left == n && Valid() && data == page * PAGE_SIZE + offset && todo == ps[done..]
        invariant Transfer(out, mem[..], todo, buf[..], done, left) == goal
        invariant Advance(sgs, At(), left) == stop
        decreases |sgs| - sg, lenThisSegment, lenThisPage == 0
      {
        ghost var c := At();
        var k := lenThisPage;
        AdvancePage(sgs, c, left);
        SliceTwice(ps, done, k);
        CopyRestOfPage(buf, done, left, out);
        done, left := done + k, left - k;
      }
    }

    /** scatterwalk_copychunks when buf is not the mapped page: n bytes from memory into buf, or out. */
    method CopyChunks(buf: array<Byte>, n: nat, out: bool)
      requires Valid() && data == page * PAGE_SIZE + offset && n <= buf.Length && n <= |todo| && buf != mem
      modifies this, mem, buf
      ensures Valid() && todo == old(todo[n..]) && At() == Advance(sgs, old(At()), n)
      ensures (mem[..], buf[..]) == Transfer(out, old(mem[..]), old(todo), old(buf[..]), 0, n)
    {
      ghost var ps := todo;
      var done, left := CopyPages(buf, n, out);
      assert ps[done..][left..] == ps[n..];
      CopyLast(buf, done, left, out);
    }

    /** Bytes in the mapped page need no copying. */
    lemma DirectGather(n: nat)
      requires Valid() && data == page * PAGE_SIZE + offset && 0 < n <= lenThisPage
      ensures data + n <= mem.Length && Gather(mem[..], todo[..n]) == Piece(mem[..], data, n)
    {
      Mapped(n);
    }

    lemma DirectScatter(n: nat, y: seq<Byte>)
      requires Valid() && data == page * PAGE_SIZE + offset && 0 < n <= lenThisPage && |y| == n
      ensures data + n <= mem.Length && Scatter(mem[..], todo[..n], y) == Put(mem[..], data, y)
    {
      Mapped(n);
      ScatterRun(mem[..], data, y);
    }

    /** Fetches the next n bytes: either they are in the mapped page, or they are copied to tmp. */
    method Fetch(tmp: array<Byte>, n: nat) returns (src: array<Byte>, s: nat)
      requires Valid() && data == page * PAGE_SIZE + offset
      requires 0 < n <= tmp.Length && n <= |todo| && tmp != mem
      modifies this, tmp, mem
      ensures mem[..] == old(mem[..])
      ensures Valid() && todo == old(todo[n..]) && At() == Advance(sgs, old(At()), n)
      ensures if old(Direct(n)) then src == mem && s == old(data) else src == tmp && s == 0
      ensures s + n <= src.Length && Piece(src[..], s, n) == Gather(old(mem[..]), old(todo[..n]))
    {
      if Direct(n) {
        src, s := mem, data;
        DirectGather(n);
        Skip(n);
      } else {
        src, s := tmp, 0;
        ghost var x := Gather(mem[..], todo[..n]);
        PiecePut(tmp[..], 0, x);
        CopyChunks(tmp, n, false);
      }
    }
  }
}
