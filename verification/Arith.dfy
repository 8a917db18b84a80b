/** Facts about integer division. */
module Arith {

  lemma MulAtLeast(a: int, p: int)
    requires a >= 1 && p > 0
    ensures a * p >= p
  {
  }

  lemma MulMonotone(a: int, b: int, p: int)
    requires a <= b && p >= 0
    ensures a * p <= b * p
  {
    assert (b - a) * p == b * p - a * p;
  }

  /** Division is determined by any representation as quotient and small remainder. */
  lemma DivUnique(p: int, q: int, r: int)
    requires p > 0 && 0 <= r < p
    ensures (q * p + r) / p == q
  {
    var x := q * p + r;
    var d := x / p;
    var m := x % p;
    assert x == d * p + m;
    assert (d - q) * p == d * p - q * p;
    assert (q - d) * p == q * p - d * p;
    if d > q { MulAtLeast(d - q, p); }
    if d < q { MulAtLeast(q - d, p); }
  }

  lemma DivMod(x: int, k: int) returns (t: int)
    requires k > 0
    ensures x == x / k * k + t && 0 <= t < k
    ensures x >= 0 ==> x / k >= 0
    ensures x < k ==> x / k <= 0
  {
    t := x % k;
    assert x == k * (x / k) + t;
  }
}
