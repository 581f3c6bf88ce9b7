/** Facts about quotients and remainders. */
module Division {
  lemma AtLeast(b: nat, k: nat)
    requires k > 0
    ensures b * k >= b
  {
  }

  lemma NextIndex(i: nat, n: nat)
    requires n > 0
    ensures (i + 1) % n == if i % n + 1 >= n then 0 else i % n + 1
  {
    var q, r := i / n, i % n;
    assert i + 1 == n * q + (r + 1);
    if r + 1 < n { Modulo(n, q, r + 1); } else { Modulo(n, q + 1, 0); }
  }

  lemma Modulo(n: nat, q: nat, r: nat)
    requires r < n
    ensures (n * q + r) % n == r && (n * q + r) / n == q
  {
    var m := n * q + r;
    var q', r' := m / n, m % n;
    assert n * (q - q') == r' - r;
    if q > q' { AtLeast(n, q - q'); } else if q < q' { AtLeast(n, q' - q); }
  }

  lemma LessOneBlock(n: nat, b: nat)
    requires 0 < b <= n
    ensures (n - b) % b == n % b && (n - b) / b == n / b - 1
  {
    var q, r := n / b, n % b;
    assert q > 0;
    assert n - b == b * (q - 1) + r;
    Modulo(b, q - 1, r);
  }

  lemma DifferentRemainders(a: nat, b: nat, n: nat)
    requires a < b < a + n
    ensures a % n != b % n
  {
    if a % n == b % n {
      var q, q' := a / n, b / n;
      assert n * (q' - q) == b - a;
      if q' > q { AtLeast(n, q' - q); }
    }
  }
}
