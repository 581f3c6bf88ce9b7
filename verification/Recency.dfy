/** Distinct keys in order of their last occurrence, the latest first. */
module Recency {

  function Without<K(==)>(s: seq<K>, k: K): seq<K> {
    if s == [] then [] else if s[0] == k then Without(s[1..], k) else [s[0]] + Without(s[1..], k)
  }

  /** The distinct keys of ks, most recently occurring first. */
  function Recent<K(==)>(ks: seq<K>): seq<K> {
    if ks == [] then [] else [ks[|ks| - 1]] + Without(Recent(ks[..|ks| - 1]), ks[|ks| - 1])
  }

  predicate Distinct<K(==)>(s: seq<K>) {
    forall i, j :: 0 <= i < j < |s| ==> s[i] != s[j]
  }

  /** The position of the last occurrence of k. */
  function LastAt<K(==)>(ks: seq<K>, k: K): (i: nat)
    requires k in ks
    ensures i < |ks| && ks[i] == k && forall j :: i < j < |ks| ==> ks[j] != k
  {
    if ks[|ks| - 1] == k then |ks| - 1 else LastAt(ks[..|ks| - 1], k)
  }

  lemma {:induction false} WithoutIs<K>(s: seq<K>, k: K)
    requires Distinct(s)
    ensures Distinct(Without(s, k)) && k !in Without(s, k)
    ensures forall x :: x in Without(s, k) <==> x in s && x != k
    ensures |Without(s, k)| == |s| - if k in s then 1 else 0
  {
    if s != [] {
      WithoutIs(s[1..], k);
      assert s == [s[0]] + s[1..] && s[0] !in s[1..];
      var r := Without(s[1..], k);
      forall j | 0 <= j < |r| ensures r[j] != s[0] { assert r[j] in r; }
    }
  }

  /** Taking k out does not disturb what precedes it. */
  lemma {:induction false} WithoutPrefix<K>(s: seq<K>, k: K, n: nat)
    requires n <= |s| && k !in s[..n]
    ensures |Without(s, k)| >= n && Without(s, k)[..n] == s[..n]
  {
    if n > 0 {
      assert s[..n] == [s[0]] + s[1..][..n - 1];
      WithoutPrefix(s[1..], k, n - 1);
    }
  }

  /** If k is among the first n, the first n - 1 of the others are the rest of the first n. */
  lemma {:induction false} WithoutInside<K>(s: seq<K>, k: K, n: nat)
    requires n <= |s| && Distinct(s) && k in s[..n]
    ensures |Without(s, k)| >= n - 1 && forall x :: x in Without(s, k)[..n - 1] <==> x in s[..n] && x != k
  {
    if s[0] == k {
      assert k !in s[1..];
      WithoutPrefix(s[1..], k, n - 1);
      assert s[..n] == [k] + s[1..][..n - 1];
    } else {
      assert s[..n] == [s[0]] + s[1..][..n - 1];
      WithoutInside(s[1..], k, n - 1);
      assert Without(s, k)[..n - 1] == [s[0]] + Without(s[1..], k)[..n - 2];
    }
  }

  lemma {:induction false} RecentIs<K>(ks: seq<K>)
    ensures Distinct(Recent(ks))
    ensures forall x :: x in Recent(ks) <==> x in ks
  {
    if ks != [] {
      var n := |ks| - 1;
      RecentIs(ks[..n]);
      WithoutIs(Recent(ks[..n]), ks[n]);
      assert ks == ks[..n] + [ks[n]];
    }
  }

  lemma {:induction false} WithoutOrder<K>(ks: seq<K>, s: seq<K>, k: K)
    requires forall x :: x in s ==> x in ks
    requires Ordered(ks, s)
    ensures (forall x :: x in Without(s, k) ==> x in s) && Ordered(ks, Without(s, k))
  {
    if s != [] {
      assert forall i :: 0 <= i < |s[1..]| ==> s[1..][i] == s[i + 1];
      WithoutOrder(ks, s[1..], k);
      if s[0] != k {
        var r := Without(s[1..], k);
        forall j | 1 <= j < |[s[0]] + r| ensures LastAt(ks, s[0]) > LastAt(ks, ([s[0]] + r)[j]) {
          assert r[j - 1] in s[1..];
          var m :| 0 <= m < |s[1..]| && s[1..][m] == r[j - 1];
          assert s[m + 1] == r[j - 1];
        }
      }
    }
  }

  /** Earlier in s means later in ks. */
  ghost predicate Ordered<K>(ks: seq<K>, s: seq<K>)
    requires forall x :: x in s ==> x in ks
  {
    forall i, j :: 0 <= i < j < |s| ==> LastAt(ks, s[i]) > LastAt(ks, s[j])
  }

  lemma {:induction false} RecentOrdered<K>(ks: seq<K>)
    ensures (forall x :: x in Recent(ks) ==> x in ks) && Ordered(ks, Recent(ks))
  {
    RecentIs(ks);
    if ks != [] {
      var n := |ks| - 1;
      var k := ks[n];
      RecentOrdered(ks[..n]);
      WithoutOrder(ks[..n], Recent(ks[..n]), k);
      WithoutIs(Recent(ks[..n]), k);
      var r := Without(Recent(ks[..n]), k);
      RecentIs(ks[..n]);
      forall i | 0 <= i < |r| ensures r[i] in ks[..n] && r[i] != k && LastAt(ks, r[i]) == LastAt(ks[..n], r[i]) < n {
        assert r[i] in r;
      }
      forall i, j | 0 <= i < j < |Recent(ks)| ensures LastAt(ks, Recent(ks)[i]) > LastAt(ks, Recent(ks)[j]) {
        assert Recent(ks)[j] == r[j - 1];
        if i > 0 { assert Recent(ks)[i] == r[i - 1]; }
      }
    }
  }
}
