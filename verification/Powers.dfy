/** Powers of two and the divisions that go with them. */
module Powers {

  /** The smallest capacity of a packed array. */
  const STORAGE_MIN_CAPACITY: nat := 8

  function Pow2(k: nat): (n: nat)
    ensures 1 <= n
  {
    if k == 0 then 1 else 2 * Pow2(k - 1)
  }

  /** floor(log2(n)) */
  function Log2(n: nat): (k: nat)
    requires 1 <= n
  {
    if n == 1 then 0 else 1 + Log2(n / 2)
  }

  ghost predicate PowerOfTwo(n: nat) {
    1 <= n && n == Pow2(Log2(n))
  }

  lemma DoublePow2(k: nat)
    ensures Pow2(k + 1) == 2 * Pow2(k)
  {
  }

  lemma {:induction false} BelowPow2(n: nat)
    ensures n < Pow2(n)
  {
    if n != 0 {
      BelowPow2(n - 1);
    }
  }

  /** The smallest power of two that is at least n. */
  function Hyperceil(n: nat): (p: nat)
  {
    Pow2(CeilLog2(n))
  }

  function CeilLog2(n: nat): (k: nat)
  {
    if n <= 1 then 0 else 1 + CeilLog2((n + 1) / 2)
  }

  lemma {:induction false} HyperceilLeast(n: nat, k: nat)
    ensures n <= Hyperceil(n)
    ensures n <= Pow2(k) ==> CeilLog2(n) <= k
  {
    if 1 < n {
      HyperceilLeast((n + 1) / 2, if k == 0 then 0 else k - 1);
    }
  }

  lemma {:induction false} Log2Pow2(k: nat)
    ensures Log2(Pow2(k)) == k
  {
    if k != 0 {
      Log2Pow2(k - 1);
      assert Pow2(k) / 2 == Pow2(k - 1);
    }
  }

  lemma {:induction false} Pow2Sum(j: nat, k: nat)
    ensures Pow2(j + k) == Pow2(j) * Pow2(k)
  {
    if j != 0 {
      Pow2Sum(j - 1, k);
      assert Pow2(j - 1 + k) == Pow2(j - 1) * Pow2(k);
    }
  }

  lemma {:induction false} Pow2Le(j: nat, k: nat)
    requires j <= k
    ensures Pow2(j) <= Pow2(k)
  {
    if j < k {
      Pow2Le(j, k - 1);
    }
  }

  lemma DivUnique(x: nat, d: nat, q: nat, r: nat)
    requires 0 < d && x == q * d + r && r < d
    ensures x / d == q && x % d == r
  {
    var q', r' := x / d, x % d;
    assert x == q' * d + r';
    if q' < q {
      assert q' + 1 <= q;
      MulLe(q' + 1, q, d);
    } else if q < q' {
      MulLe(q + 1, q', d);
    }
  }

  lemma MulLe(i: nat, j: nat, k: nat)
    requires i <= j
    ensures i * k <= j * k
  {
  }

  /** Halving the window number is the same as dividing by the doubled window length. */
  lemma Halving(x: nat, d: nat)
    requires 0 < d
    ensures x / (2 * d) == (x / d) / 2
    ensures (x / d) / 2 * (2 * d) <= (x / d) * d
    ensures (x / d) * d + d <= (x / d) / 2 * (2 * d) + 2 * d
  {
    var id, r := x / d, x % d;
    var a, b := id / 2, id % 2;
    assert x == id * d + r;
    assert id == 2 * a + b;
    assert id * d == a * (2 * d) + b * d;
    assert b == 0 || b == 1;
    assert b * d == if b == 0 then 0 else d;
    DivUnique(x, 2 * d, a, b * d + r);
  }
}
