/** ieee80211/cipher.c: running a cipher over scatter lists, block by block, in ECB or CBC mode. */
module CipherModes {
  import opened Bytes
  import opened Scatterwalk
  import opened Division

  /** A cipher on one block: the context may change, as the key stream of RC4 does. */
  type BlockFn<!K> = (K, seq<Byte>) -> (K, seq<Byte>)

  datatype Mode = Ecb | CbcEncrypt | CbcDecrypt

  /** What a run over many blocks carries from one to the next. */
  datatype Chain<K> = Chain(ctx: K, iv: seq<Byte>)

  ghost predicate KeepsLength<K(!new)>(fn: BlockFn<K>, b: nat) {
    forall c, x {:trigger fn(c, x)} :: |x| == b ==> |fn(c, x).1| == b
  }

  /** One block. */
  ghost function Step<K(!new)>(mode: Mode, fn: BlockFn<K>, ch: Chain<K>, x: seq<Byte>): (r: (Chain<K>, seq<Byte>))
    requires KeepsLength(fn, |x|) && |ch.iv| == |x|
    ensures |r.1| == |x| && |r.0.iv| == |x|
  {
    match mode
    case Ecb => var y := fn(ch.ctx, x); (Chain(y.0, ch.iv), y.1)
    case CbcEncrypt => var y := fn(ch.ctx, Xor(ch.iv, x)); (Chain(y.0, y.1), y.1)
    case CbcDecrypt => var y := fn(ch.ctx, x); (Chain(y.0, x), Xor(y.1, ch.iv))
  }

  /** All whole blocks of data, one after the other. */
  ghost function Flat<K(!new)>(mode: Mode, fn: BlockFn<K>, b: nat, ch: Chain<K>, data: seq<Byte>)
    : (r: (Chain<K>, seq<Byte>))
    requires b > 0 && KeepsLength(fn, b) && |ch.iv| == b
    ensures |r.0.iv| == b
    ensures |r.1| == |data| - |data| % b
    decreases |data|
  {
    if |data| < b then (ch, []) else
      var s := Step(mode, fn, ch, data[..b]);
      LessOneBlock(|data|, b);
      var r := Flat(mode, fn, b, s.0, data[b..]);
      (r.0, s.1 + r.1)
  }

  /** Decrypting with fd undoes encrypting with fe and leaves the same context behind. */
  ghost predicate Inverse<K(!new)>(fe: BlockFn<K>, fd: BlockFn<K>, b: nat) {
    forall c, x {:trigger fe(c, x)} :: |x| == b ==> fd(c, fe(c, x).1) == (fe(c, x).0, x)
  }

  /** CBC decryption undoes CBC encryption of whole blocks, and ends with the same chaining state. */
  lemma {:induction false} CbcDecryptUndoesEncrypt<K(!new)>(fe: BlockFn<K>, fd: BlockFn<K>, b: nat, ch: Chain<K>,
                                                     data: seq<Byte>)
    requires b > 0 && KeepsLength(fe, b) && KeepsLength(fd, b) && Inverse(fe, fd, b) && |ch.iv| == b && |data| % b == 0
    ensures var e := Flat(CbcEncrypt, fe, b, ch, data); Flat(CbcDecrypt, fd, b, ch, e.1) == (e.0, data)
    decreases |data|
  {
    if |data| >= b {
      LessOneBlock(|data|, b);
      var x := data[..b];
      var s := Step(CbcEncrypt, fe, ch, x);
      CbcDecryptUndoesEncrypt(fe, fd, b, s.0, data[b..]);
      var e := s.1 + Flat(CbcEncrypt, fe, b, s.0, data[b..]).1;
      assert e[..b] == s.1 && e[b..] == Flat(CbcEncrypt, fe, b, s.0, data[b..]).1;
      XorSwap(ch.iv, x);
      XorTwice(x, ch.iv);
      assert data == x + data[b..];
    }
  }

  /** The same for ECB, which for a stream cipher of block size 1 is crypting twice from one state. */
  lemma {:induction false} EcbDecryptUndoesEncrypt<K(!new)>(fe: BlockFn<K>, fd: BlockFn<K>, b: nat, ch: Chain<K>,
                                                     data: seq<Byte>)
    requires b > 0 && KeepsLength(fe, b) && KeepsLength(fd, b) && Inverse(fe, fd, b) && |ch.iv| == b && |data| % b == 0
    ensures var e := Flat(Ecb, fe, b, ch, data); Flat(Ecb, fd, b, ch, e.1) == (e.0, data)
    decreases |data|
  {
    if |data| >= b {
      LessOneBlock(|data|, b);
      var x := data[..b];
      var s := Step(Ecb, fe, ch, x);
      EcbDecryptUndoesEncrypt(fe, fd, b, s.0, data[b..]);
      var e := s.1 + Flat(Ecb, fe, b, s.0, data[b..]).1;
      assert e[..b] == s.1 && e[b..] == Flat(Ecb, fe, b, s.0, data[b..]).1;
      assert data == x + data[b..];
    }
  }

  // ---- The transform ----

  class Tfm<!K(!new)> {
    const bsize: nat
    const encrypt: BlockFn<K>
    const decrypt: BlockFn<K>
    var ctx: K
    const iv: array<Byte>

    constructor (bsize: nat, encrypt: BlockFn<K>, decrypt: BlockFn<K>, ctx: K)
      requires bsize > 0
      ensures this.bsize == bsize && this.encrypt == encrypt && this.decrypt == decrypt && this.ctx == ctx
      ensures fresh(iv) && iv.Length == bsize
    {
      this.bsize, this.encrypt, this.decrypt, this.ctx := bsize, encrypt, decrypt, ctx;
      iv := new Byte[bsize];
    }

    ghost function State(): Chain<K>
      reads this, iv
    {
      Chain(ctx, iv[..])
    }

    /** ecb_process. */
    method EcbProcess(fn: BlockFn<K>, dst: array<Byte>, d: nat, src: array<Byte>, s: nat)
      requires d + bsize <= dst.Length && s + bsize <= src.Length && iv.Length == bsize && dst != iv &&
               KeepsLength(fn, bsize)
      modifies this, dst
      ensures var (ch, y) := Step(Ecb, fn, old(State()), Piece(old(src[..]), s, bsize));
              State() == ch && dst[..] == Put(old(dst[..]), d, y)
    {
      var y := fn(ctx, Piece(src[..], s, bsize));
      Store(dst, d, y.1);
      ctx := y.0;
    }

    /** cbc_process, encrypting. */
    method CbcEncryptProcess(fn: BlockFn<K>, dst: array<Byte>, d: nat, src: array<Byte>, s: nat)
      requires d + bsize <= dst.Length && s + bsize <= src.Length && iv.Length == bsize && dst != iv && src != iv &&
               KeepsLength(fn, bsize)
      modifies this, dst, iv
      ensures var (ch, y) := Step(CbcEncrypt, fn, old(State()), Piece(old(src[..]), s, bsize));
              State() == ch && dst[..] == Put(old(dst[..]), d, y)
    {
      ghost var x := Xor(iv[..], Piece(src[..], s, bsize));
      PieceAt(src[..], s, bsize);
      forall i | 0 <= i < bsize {
        iv[i] := XorByte(iv[i], src[s + i]);
      }
      assert forall i :: 0 <= i < |x| ==> iv[i] == x[i];
      assert iv[..] == x;
      var y := fn(ctx, iv[..]);
      Store(dst, d, y.1);
      ctx := y.0;
      PiecePut(old(dst[..]), d, y.1);
      PutAll(iv[..], y.1);
      Memcpy(iv, 0, dst, d, bsize);
      assert y == fn(old(ctx), Xor(old(iv[..]), Piece(old(src[..]), s, bsize)));
      assert dst[..] == Put(old(dst[..]), d, y.1);
      assert ctx == y.0;
      assert iv[..] == y.1;
    }

    /** A decrypted and unchained block, into buf. */
    method DecryptInto(fn: BlockFn<K>, buf: array<Byte>, b: nat, x: seq<Byte>)
      requires b + bsize <= buf.Length && iv.Length == bsize == |x| && buf != iv && KeepsLength(fn, bsize)
      modifies this, buf
      ensures var y := fn(old(ctx), x);
              ctx == y.0 && buf[..] == Put(old(buf[..]), b, Xor(y.1, iv[..]))
    {
      var y := fn(ctx, x);
      ghost var b0 := buf[..];
      Store(buf, b, y.1);
      PiecePut(b0, b, y.1);
      ctx := y.0;
      XorBlock(buf, b, iv, 0, bsize);
      PieceWhole(iv[..]);
      PutPut(b0, b, y.1, Xor(y.1, iv[..]));
    }

    /** cbc_process, decrypting; a block decrypted in place goes through a buffer of its own, since
        the cipher text is needed once more as the next chaining value. */
    method CbcDecryptProcess(fn: BlockFn<K>, dst: array<Byte>, d: nat, src: array<Byte>, s: nat, inPlace: bool)
      requires d + bsize <= dst.Length && s + bsize <= src.Length && iv.Length == bsize && dst != iv && src != iv &&
               KeepsLength(fn, bsize)
      requires dst == src ==> d + bsize <= s || s + bsize <= d || (inPlace && d == s)
      modifies this, dst, iv
      ensures var (ch, y) := Step(CbcDecrypt, fn, old(State()), Piece(old(src[..]), s, bsize));
              State() == ch && dst[..] == Put(old(dst[..]), d, y)
    {
      ghost var x, i := Piece(src[..], s, bsize), iv[..];
      if inPlace {
        var stack := new Byte[bsize];
        DecryptInto(fn, stack, 0, Piece(src[..], s, bsize));
        PutAll(stack[..], stack[..]);
        PutAll(i, x);
        Memcpy(iv, 0, src, s, bsize);
        Memcpy(dst, d, stack, 0, bsize);
        PieceWhole(stack[..]);
      } else {
        DecryptInto(fn, dst, d, Piece(src[..], s, bsize));
        if src == dst { PieceElsewhere(old(dst[..]), d, Xor(fn(old(ctx), x).1, i), s, bsize); }
        PutAll(i, x);
        Memcpy(iv, 0, src, s, bsize);
      }
    }

    /** The block function of a mode, called through prfn. */
    method Process(mode: Mode, fn: BlockFn<K>, dst: array<Byte>, d: nat, src: array<Byte>, s: nat, inPlace: bool)
      requires d + bsize <= dst.Length && s + bsize <= src.Length && iv.Length == bsize && dst != iv && src != iv &&
               KeepsLength(fn, bsize)
      requires dst == src ==> d + bsize <= s || s + bsize <= d || (inPlace && d == s)
      modifies this, dst, iv
      ensures var (ch, y) := Step(mode, fn, old(State()), Piece(old(src[..]), s, bsize));
              State() == ch && dst[..] == Put(old(dst[..]), d, y)
    {
      match mode
      case Ecb => EcbProcess(fn, dst, d, src, s);
      case CbcEncrypt => CbcEncryptProcess(fn, dst, d, src, s);
      case CbcDecrypt => CbcDecryptProcess(fn, dst, d, src, s, inPlace);
    }

    /** Source and destination do not interfere on their next n bytes: the two walkers stand at the same
        place of the same list, or the addresses differ. */
    ghost predicate Apart(win: Walk, wout: Walk, n: nat)
      reads win, wout
    {
      (win.sgs == wout.sgs && win.At() == wout.At() && win.todo == wout.todo) ||
      Disjoint(win.todo, wout.todo, n)
    }

    lemma DirectApart(win: Walk, wout: Walk)
      requires bsize > 0 && win.Valid() && wout.Valid() && bsize <= win.lenThisPage && bsize <= wout.lenThisPage &&
               Apart(win, wout, bsize)
      ensures var s, d := win.page * PAGE_SIZE + win.offset, wout.page * PAGE_SIZE + wout.offset;
              d + bsize <= s || s + bsize <= d || (win.page == wout.page && win.offset == wout.offset)
    {
      var s, d := win.page * PAGE_SIZE + win.offset, wout.page * PAGE_SIZE + wout.offset;
      win.Mapped(bsize);
      wout.Mapped(bsize);
      if d < s + bsize && s < d + bsize {
        var m := if s < d then d else s;
        assert Disjoint(win.todo, wout.todo, bsize) ==> Differ(win.todo, wout.todo, m - s, m - d);
        assert win.todo[..bsize][m - s] == m && wout.todo[..bsize][m - d] == m;
      }
    }

    /** prfn into the mapped page or by way of tmpDst, and the copying out. */
    method Emit(mode: Mode, fn: BlockFn<K>, wout: Walk, tmpDst: array<Byte>, src: array<Byte>, s: nat, inPlace: bool,
                ghost x: seq<Byte>)
      requires bsize > 0 && iv.Length == bsize && KeepsLength(fn, bsize) && tmpDst.Length == bsize &&
               s + bsize <= src.Length && Piece(src[..], s, bsize) == x
      requires wout.Valid() && wout.data == wout.page * PAGE_SIZE + wout.offset
      requires iv != tmpDst && wout.mem !in {iv, tmpDst} && src !in {iv, tmpDst} && bsize <= |wout.todo|
      requires src == wout.mem && wout.Direct(bsize) ==>
        wout.data + bsize <= s || s + bsize <= wout.data || (inPlace && wout.data == s)
      modifies this, iv, wout, tmpDst, wout.mem
      ensures wout.Valid() && wout.todo == old(wout.todo[bsize..]) &&
              wout.At() == Advance(wout.sgs, old(wout.At()), bsize)
      ensures var (ch, y) := Step(mode, fn, old(State()), x);
              State() == ch && wout.mem[..] == Scatter(old(wout.mem[..]), old(wout.todo[..bsize]), y)
    {
      ghost var y := Step(mode, fn, State(), x).1;
      if wout.Direct(bsize) {
        wout.DirectScatter(bsize, y);
        Process(mode, fn, wout.mem, wout.data, src, s, inPlace);
        wout.Skip(bsize);
      } else {
        Process(mode, fn, tmpDst, 0, src, s, inPlace);
        PiecePut(old(tmpDst[..]), 0, y);
        wout.CopyChunks(tmpDst, bsize, true);
      }
    }

    /** Maps both walkers and finds out whether they stand on the same bytes. */
    method Place(win: Walk, wout: Walk) returns (inPlace: bool)
      requires bsize > 0 && win.Valid() && wout.Valid() && Apart(win, wout, bsize)
      modifies win`data, wout`data
      ensures win.data == win.page * PAGE_SIZE + win.offset && wout.data == wout.page * PAGE_SIZE + wout.offset
      ensures win.Direct(bsize) && wout.Direct(bsize) ==>
        wout.data + bsize <= win.data || win.data + bsize <= wout.data || (inPlace && wout.data == win.data)
    {
      win.Map();
      wout.Map();
      inPlace := win.page == wout.page && win.offset == wout.offset && win.Direct(bsize) && wout.Direct(bsize);
      if win.Direct(bsize) && wout.Direct(bsize) { DirectApart(win, wout); }
    }

    /** Fetches, processes and delivers one block. */
    method Transform(mode: Mode, fn: BlockFn<K>, win: Walk, wout: Walk, tmpSrc: array<Byte>, tmpDst: array<Byte>)
      requires bsize > 0 && iv.Length == bsize && KeepsLength(fn, bsize) && tmpSrc.Length == tmpDst.Length == bsize
      requires win != wout && win.mem == wout.mem && win.Valid() && wout.Valid()
      requires iv != tmpSrc && iv != tmpDst && tmpSrc != tmpDst && win.mem !in {iv, tmpSrc, tmpDst}
      requires bsize <= |win.todo| && bsize <= |wout.todo| && Apart(win, wout, bsize)
      modifies this, iv, win, wout, tmpSrc, tmpDst, win.mem
      ensures win.Valid() && win.todo == old(win.todo[bsize..]) && win.At() == Advance(win.sgs, old(win.At()), bsize)
      ensures wout.Valid() && wout.todo == old(wout.todo[bsize..]) &&
              wout.At() == Advance(wout.sgs, old(wout.At()), bsize)
      ensures var (ch, y) := Step(mode, fn, old(State()), Gather(old(win.mem[..]), old(win.todo[..bsize])));
              State() == ch && win.mem[..] == Scatter(old(win.mem[..]), old(wout.todo[..bsize]), y)
    {
      ghost var x := Gather(win.mem[..], win.todo[..bsize]);
      var inPlace := Place(win, wout);
      var src, s := win.Fetch(tmpSrc, bsize);
      Emit(mode, fn, wout, tmpDst, src, s, inPlace, x);
    }

    /** One block with the bookkeeping of scatterwalk_done; nbytes is what remains after it. */
    method OneBlock(mode: Mode, fn: BlockFn<K>, win: Walk, wout: Walk, tmpSrc: array<Byte>, tmpDst: array<Byte>,
                    nbytes: nat)
      requires bsize > 0 && iv.Length == bsize && KeepsLength(fn, bsize) && tmpSrc.Length == tmpDst.Length == bsize
      requires win != wout && win.mem == wout.mem && win.Valid() && wout.Valid()
      requires iv != tmpSrc && iv != tmpDst && tmpSrc != tmpDst && win.mem !in {iv, tmpSrc, tmpDst}
      requires bsize + nbytes <= |win.todo| && bsize + nbytes <= |wout.todo| && Apart(win, wout, bsize)
      modifies this, iv, win, wout, tmpSrc, tmpDst, win.mem
      ensures win.Valid() && wout.Valid() && win.todo == old(win.todo[bsize..]) && wout.todo == old(wout.todo[bsize..])
      ensures old(win.sgs == wout.sgs && win.At() == wout.At()) ==> win.At() == wout.At()
      ensures var (ch, y) := Step(mode, fn, old(State()), Gather(old(win.mem[..]), old(win.todo[..bsize])));
              State() == ch && win.mem[..] == Scatter(old(win.mem[..]), old(wout.todo[..bsize]), y)
    {
      Transform(mode, fn, win, wout, tmpSrc, tmpDst);
      win.Done(nbytes);
      wout.Done(nbytes);
    }

    lemma SeparateApart(win: Walk, wout: Walk, n: nat)
      requires Separate(win.todo, wout.todo, n) && bsize <= n
      requires !Disjoint(win.todo, wout.todo, n) ==> win.sgs == wout.sgs && win.At() == wout.At()
      ensures Apart(win, wout, bsize)
    {
      if Disjoint(win.todo, wout.todo, n) {
        DisjointLess(win.todo, wout.todo, 0, bsize, n);
        assert win.todo[0..] == win.todo && wout.todo[0..] == wout.todo;
      }
    }

    lemma Onward(win: Walk, wout: Walk, n: nat)
      requires Separate(win.todo, wout.todo, n) && bsize <= n
      requires Disjoint(win.todo, wout.todo, n) || (win.sgs == wout.sgs && win.At() == wout.At())
      ensures Apart(win, wout, bsize) && Separate(win.todo[bsize..], wout.todo[bsize..], n - bsize)
      ensures Disjoint(win.todo[bsize..], wout.todo[bsize..], n - bsize) ||
              (win.sgs == wout.sgs && win.At() == wout.At())
    {
      SeparateApart(win, wout, n);
      SeparateLess(win.todo, wout.todo, bsize, n);
    }

    /** One turn of the loop in crypt, n bytes from its end. */
    method Turn(mode: Mode, fn: BlockFn<K>, win: Walk, wout: Walk, tmpSrc: array<Byte>, tmpDst: array<Byte>, n: nat)
      requires 0 < bsize <= n && iv.Length == bsize && KeepsLength(fn, bsize) && tmpSrc.Length == tmpDst.Length == bsize
      requires win != wout && win.mem == wout.mem && win.Valid() && wout.Valid()
      requires iv != tmpSrc && iv != tmpDst && tmpSrc != tmpDst && win.mem !in {iv, tmpSrc, tmpDst}
      requires Separate(win.todo, wout.todo, n)
      requires Disjoint(win.todo, wout.todo, n) || (win.sgs == wout.sgs && win.At() == wout.At())
      modifies this, iv, win, wout, tmpSrc, tmpDst, win.mem
      ensures win.Valid() && wout.Valid() && Separate(win.todo, wout.todo, n - bsize)
      ensures Disjoint(win.todo, wout.todo, n - bsize) || (win.sgs == wout.sgs && win.At() == wout.At())
      ensures RunBlocks(mode, fn, bsize, State(), win.mem[..], win.todo, wout.todo, n - bsize)
           == RunBlocks(mode, fn, bsize, old(State()), old(win.mem[..]), old(win.todo), old(wout.todo), n)
    {
      Onward(win, wout, n);
      OneBlock(mode, fn, win, wout, tmpSrc, tmpDst, n - bsize);
    }

    /** The loop of crypt. */
    method Blocks(mode: Mode, fn: BlockFn<K>, win: Walk, wout: Walk, tmpSrc: array<Byte>, tmpDst: array<Byte>,
                  nbytes: nat)
      requires bsize > 0 && iv.Length == bsize && KeepsLength(fn, bsize) && tmpSrc.Length == tmpDst.Length == bsize
      requires win != wout && win.mem == wout.mem && win.Valid() && wout.Valid()
      requires iv != tmpSrc && iv != tmpDst && tmpSrc != tmpDst && win.mem !in {iv, tmpSrc, tmpDst}
      requires Separate(win.todo, wout.todo, nbytes) && nbytes % bsize == 0
      requires Disjoint(win.todo, wout.todo, nbytes) || (win.sgs == wout.sgs && win.At() == wout.At())
      modifies this, iv, win, wout, tmpSrc, tmpDst, win.mem
      ensures (State(), win.mem[..])
              == RunBlocks(mode, fn, bsize, old(State()), old(win.mem[..]), old(win.todo), old(wout.todo), nbytes)
    {
      ghost var goal := RunBlocks(mode, fn, bsize, State(), win.mem[..], win.todo, wout.todo, nbytes);
      var left: nat := nbytes;
      while left > 0
        invariant left % bsize == 0 && iv.Length == bsize && win.Valid() && wout.Valid()
        invariant Separate(win.todo, wout.todo, left)
        invariant Disjoint(win.todo, wout.todo, left) || (win.sgs == wout.sgs && win.At() == wout.At())
        invariant RunBlocks(mode, fn, bsize, State(), win.mem[..], win.todo, wout.todo, left) == goal
      {
        WholeBlock(left, bsize);
        Turn(mode, fn, win, wout, tmpSrc, tmpDst, left);
        left := left - bsize;
      }
    }

    /** crypt: -EINVAL for a partial block, else the blocks of the source list, one by one, onto the
        destination list, which is the same list or shares no byte with it. */
    method Crypt(mode: Mode, fn: BlockFn<K>, mem: array<Byte>, dsts: seq<Segment>, srcs: seq<Segment>,
                 nbytes: nat) returns (ok: bool)
      requires bsize > 0 && iv.Length == bsize && KeepsLength(fn, bsize) && mem != iv
      requires nbytes > 0 && nbytes % bsize == 0 ==> srcs != [] && dsts != []
      requires Inside(WalkedList(srcs), mem.Length) && Inside(WalkedList(dsts), mem.Length)
      requires Separate(WalkedList(srcs), WalkedList(dsts), nbytes)
      requires !Disjoint(WalkedList(srcs), WalkedList(dsts), nbytes) ==> srcs == dsts
      modifies this, iv, mem
      ensures ok <==> nbytes % bsize == 0
      ensures !ok ==> State() == old(State()) && mem[..] == old(mem[..])
      ensures ok ==>
        var (ch, y) := Flat(mode, fn, bsize, old(State()), Gather(old(mem[..]), WalkedList(srcs)[..nbytes]));
        |y| == nbytes && State() == ch && mem[..] == Scatter(old(mem[..]), WalkedList(dsts)[..nbytes], y)
    {
      if nbytes % bsize == 0 {
        RunIsFlat(mode, fn, bsize, State(), mem[..], WalkedList(srcs), WalkedList(dsts), nbytes);
      }
      if nbytes == 0 || nbytes % bsize != 0 {
        return nbytes == 0;
      }
      var tmpSrc, tmpDst := new Byte[bsize], new Byte[bsize];
      var win := new Walk(srcs, mem);
      var wout := new Walk(dsts, mem);
      Blocks(mode, fn, win, wout, tmpSrc, tmpDst, nbytes);
      return true;
    }
  }

  /** Block after block on memory: S and D are the addresses still to be read and written. */
  ghost function RunBlocks<K(!new)>(mode: Mode, fn: BlockFn<K>, b: nat, ch: Chain<K>, m: seq<Byte>, S: seq<nat>,
                             D: seq<nat>, n: nat): (Chain<K>, seq<Byte>)
    requires b > 0 && KeepsLength(fn, b) && |ch.iv| == b && n <= |S| && n <= |D|
    decreases n
  {
    if n < b then (ch, m) else
      var s := Step(mode, fn, ch, Gather(m, S[..b]));
      RunBlocks(mode, fn, b, s.0, Scatter(m, D[..b], s.1), S[b..], D[b..], n - b)
  }

  lemma WholeBlock(left: nat, b: nat)
    requires 0 < b && 0 < left && left % b == 0
    ensures b <= left && (left - b) % b == 0
  {
    LessOneBlock(left, b);
  }

  /** Source and destination of a run of n bytes do not interfere. */
  ghost predicate Separate(S: seq<nat>, D: seq<nat>, n: nat) {
    n <= |S| && n <= |D| && ((S == D && Distinct(S[..n])) || Disjoint(S, D, n))
  }

  /** What is still to be read has not been written yet. */
  lemma Unwritten(m0: seq<Byte>, S: seq<nat>, D: seq<nat>, k: nat, n: nat, y: seq<Byte>, i: nat)
    requires Separate(S, D, n) && k <= i < n && |y| == k
    ensures ByteAt(Scatter(m0, D[..k], y), S[i]) == ByteAt(m0, S[i])
  {
    forall j | 0 <= j < k ensures D[j] != S[i] {
      if Disjoint(S, D, n) { assert Differ(S, D, i, j); } else { assert S[..n][j] != S[..n][i]; }
    }
    if S[i] < |m0| { ScatterElsewhere(m0, D[..k], y, S[i]); }
  }

  lemma GatherLater(m0: seq<Byte>, S: seq<nat>, D: seq<nat>, k: nat, n: nat, y: seq<Byte>, b: nat)
    requires Separate(S, D, n) && k + b <= n && |y| == k
    ensures Gather(Scatter(m0, D[..k], y), S[k..][..b]) == Gather(m0, S[k..][..b])
  {
    forall i | k <= i < k + b ensures ByteAt(Scatter(m0, D[..k], y), S[i])
      == ByteAt(m0, S[i]) { Unwritten(m0, S, D, k, n, y, i); }
  }

  lemma DisjointLess(S: seq<nat>, D: seq<nat>, k: nat, b: nat, n: nat)
    requires Disjoint(S, D, n) && k + b <= n
    ensures Disjoint(S[k..], D[k..], b)
  {
    forall i: nat, j: nat | i < b && j < b ensures Differ(S[k..], D[k..], i, j) {
      assert Differ(S, D, k + i, k + j);
    }
  }

  lemma SeparateLess(S: seq<nat>, D: seq<nat>, k: nat, n: nat)
    requires Separate(S, D, n) && k <= n
    ensures Separate(S[k..], D[k..], n - k) && (Disjoint(S, D, n) ==> Disjoint(S[k..], D[k..], n - k))
  {
    if Disjoint(S, D, n) {
      DisjointLess(S, D, k, n - k, n);
    } else {
      assert S[k..][..n - k] == S[..n][k..];
    }
  }

  lemma ScatterTwo(m: seq<Byte>, D: seq<nat>, b: nat, n: nat, y: seq<Byte>, z: seq<Byte>)
    requires b <= n <= |D| && |y| == b && |z| == n - b
    ensures Scatter(Scatter(m, D[..b], y), D[b..][..n - b], z) == Scatter(m, D[..n], y + z)
  {
    ScatterAppend(m, D[..b], y, D[b..][..n - b], z);
    assert D[..b] + D[b..][..n - b] == D[..n];
  }

  lemma GatherTwo(m: seq<Byte>, S: seq<nat>, b: nat, n: nat)
    requires b <= n <= |S|
    ensures Gather(m, S[..n])[..b] == Gather(m, S[..b]) && Gather(m, S[..n])[b..] == Gather(m, S[b..][..n - b])
  {
  }

  /** On separate addresses, working block by block in memory is the flat run over the gathered
      input, scattered over the destination. */
  lemma {:induction false} RunIsFlat<K(!new)>(mode: Mode, fn: BlockFn<K>, b: nat, ch: Chain<K>, m: seq<Byte>,
                                       S: seq<nat>, D: seq<nat>, n: nat)
    requires b > 0 && KeepsLength(fn, b) && |ch.iv| == b && Separate(S, D, n) && n % b == 0
    ensures var f := Flat(mode, fn, b, ch, Gather(m, S[..n]));
            |f.1| == n && RunBlocks(mode, fn, b, ch, m, S, D, n) == (f.0, Scatter(m, D[..n], f.1))
    decreases n
  {
    if n > 0 {
      WholeBlock(n, b);
      GatherTwo(m, S, b, n);
      var s := Step(mode, fn, ch, Gather(m, S[..b]));
      var m1 := Scatter(m, D[..b], s.1);
      SeparateLess(S, D, b, n);
      RunIsFlat(mode, fn, b, s.0, m1, S[b..], D[b..], n - b);
      GatherLater(m, S, D, b, n, s.1, n - b);
      ScatterTwo(m, D, b, n, s.1, Flat(mode, fn, b, s.0, Gather(m1, S[b..][..n - b])).1);
    }
  }

  /** Encrypting a scatter list in place and then decrypting it in place, from the same chaining
      value, restores all of memory. */
  lemma CbcInPlaceRoundTrip<K(!new)>(fe: BlockFn<K>, fd: BlockFn<K>, b: nat, ch: Chain<K>, m: seq<Byte>, D: seq<nat>)
    requires b > 0 && KeepsLength(fe, b) && KeepsLength(fd, b) && Inverse(fe, fd, b) && |ch.iv| == b && |D| % b == 0
    requires Inside(D, |m|) && Distinct(D)
    ensures var m1 := Scatter(m, D, Flat(CbcEncrypt, fe, b, ch, Gather(m, D)).1);
            Scatter(m1, D, Flat(CbcDecrypt, fd, b, ch, Gather(m1, D)).1) == m
  {
    var e := Flat(CbcEncrypt, fe, b, ch, Gather(m, D));
    CbcDecryptUndoesEncrypt(fe, fd, b, ch, Gather(m, D));
    GatherScatter(m, D, e.1);
    ScatterBack(m, D, e.1);
  }
}
