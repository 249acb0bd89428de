/** Small facts of non-linear integer arithmetic used by the index proofs. */
module Arith {

  lemma MulMonotone(a: int, b: int, k: int)
    requires a <= b && 0 <= k
    ensures a * k <= b * k
  {
    assert b * k - a * k == (b - a) * k;
  }

  lemma DivMonotone(a: int, b: int, n: int)
    requires 0 <= a <= b && n > 0
    ensures a / n <= b / n
  {
    if a / n > b / n {
      assert n * (a / n) <= a;
      assert b < n * (b / n + 1);
      MulMonotone(b / n + 1, a / n, n);
    }
  }

  lemma DivOfMultiple(k: int, n: int)
    requires 0 <= k && n > 0
    ensures k * n / n == k
  {
    var d := k * n / n;
    assert n * d <= k * n < n * d + n;
    if d < k { MulMonotone(d + 1, k, n); }
    if d > k { MulMonotone(k + 1, d, n); }
  }
}
