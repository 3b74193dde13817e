/** Division facts that the solver does not find by itself. */
module Arithmetic {
  lemma MulSign(d: nat, k: int)
    requires d > 0
    ensures k >= 1 ==> d * k >= d
    ensures k <= -1 ==> d * k + d <= 0
  {
  }

  /** Quotient and remainder are unique. */
  lemma DivMod(q: int, d: nat, r: nat)
    requires r < d
    ensures (d * q + r) / d == q && (d * q + r) % d == r
  {
    var x := d * q + r;
    var a, b := x / d, x % d;
    assert x == d * a + b;
    assert d * (a - q) == r - b;
    MulSign(d, a - q);
  }

  lemma {:induction false} StepsApart(size: nat, i: nat, j: nat)
    requires i < j
    ensures i * size + size <= j * size
    decreases j
  {
    assert j * size == (j - 1) * size + size;
    if i + 1 < j {
      StepsApart(size, i, j - 1);
    }
  }
}
