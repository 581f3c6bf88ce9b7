/** ieee80211/ieee80211_crypt_tkip.c: the sender's frame counter, and the cached phase 1 result that goes
    with its upper part. */
module TkipCounter {
  import opened Division
  import opened Numbers

  /** Phase 1 for a fixed key and transmitter, and phase 2 for a fixed key. */
  type P1<T> = U32 -> T
  type P2<!T, S> = (T, W16) -> S

  /** iv32 and iv16 are the next frame's counter; ttak counts only if done. */
  datatype Tx<T> = Tx(iv32: U32, iv16: W16, done: bool, ttak: T)

  function Current<T>(p1: P1<T>, tx: Tx<T>): T {
    if tx.done then tx.ttak else p1(tx.iv32)
  }

  function Inc32(n: U32): U32 { if n == 0xffff_ffff then 0 else n + 1 }

  /** The state after a frame: a new upper half makes the cache void. */
  function Next<T>(p1: P1<T>, tx: Tx<T>): Tx<T> {
    var t := Current(p1, tx);
    if tx.iv16 == 0xffff then Tx(Inc32(tx.iv32), 0, false, t) else Tx(tx.iv32, tx.iv16 + 1, true, t)
  }

  /** What is kept is what phase 1 would give now. */
  predicate Cached<T(==)>(p1: P1<T>, tx: Tx<T>) {
    tx.done ==> tx.ttak == p1(tx.iv32)
  }

  const TSC_SIZE: nat := 0x1_0000_0000_0000

  /** The counter as one number of 48 bits. */
  function Tsc<T>(tx: Tx<T>): nat { tx.iv32 * 0x1_0000 + tx.iv16 }

  function IncTsc(n: nat): nat { if n + 1 >= TSC_SIZE then 0 else n + 1 }

  lemma NextStep<T>(p1: P1<T>, tx: Tx<T>)
    requires Cached(p1, tx)
    ensures Current(p1, tx) == p1(tx.iv32) && Cached(p1, Next(p1, tx)) && Tsc(Next(p1, tx)) == IncTsc(Tsc(tx))
  {
  }

  function After<T>(p1: P1<T>, tx: Tx<T>, n: nat): Tx<T> {
    if n == 0 then tx else Next(p1, After(p1, tx, n - 1))
  }

  /** TSC starts at 1 with nothing cached. */
  predicate Initial<T>(tx: Tx<T>) {
    tx.iv32 == 0 && tx.iv16 == 1 && !tx.done
  }

  lemma {:induction false} Run<T>(p1: P1<T>, tx: Tx<T>, n: nat)
    requires Initial(tx)
    ensures Cached(p1, After(p1, tx, n)) && Tsc(After(p1, tx, n)) == (n + 1) % TSC_SIZE
  {
    if n > 0 {
      NextIndex(n, TSC_SIZE);
      Run(p1, tx, n - 1);
      NextStep(p1, After(p1, tx, n - 1));
    }
  }

  /** The key of the next frame. */
  function KeyNow<T, S>(p1: P1<T>, p2: P2<T, S>, tx: Tx<T>): S {
    p2(Current(p1, tx), tx.iv16)
  }

  /** The key determines the counter. */
  ghost predicate Injective<T(!new), S(!new)>(p1: P1<T>, p2: P2<T, S>) {
    forall a: U32, i: W16, b: U32, j: W16 {:trigger p2(p1(a), i), p2(p1(b), j)} :: p2(p1(a), i) == p2(p1(b), j) ==>
        a == b && i == j
  }

  lemma NoRepeat<T(!new), S(!new)>(p1: P1<T>, p2: P2<T, S>, tx: Tx<T>, i: nat, j: nat)
    requires Initial(tx) && Injective(p1, p2) && i < j < i + TSC_SIZE
    ensures KeyNow(p1, p2, After(p1, tx, i)) != KeyNow(p1, p2, After(p1, tx, j))
  {
    var a, b := After(p1, tx, i), After(p1, tx, j);
    Run(p1, tx, i);
    Run(p1, tx, j);
    DifferentRemainders(i + 1, j + 1, TSC_SIZE);
    NextStep(p1, a);
    NextStep(p1, b);
    assert KeyNow(p1, p2, a) == p2(p1(a.iv32), a.iv16) && KeyNow(p1, p2, b) == p2(p1(b.iv32), b.iv16);
  }
}
