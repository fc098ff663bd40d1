/** Small facts about integers shared by several solvers. */
module Numbers {

  /** `Math.abs` on integers. */
  function Abs(n: int): nat
  {
    if n < 0 then -n else n
  }

  lemma MulAtLeast(k: int, b: int)
    requires k >= 1 && b >= 0
    ensures k * b >= b
  {
  }

  /** The Euclidean quotient and remainder are determined by `n == q m + r`
      with `0 <= r < m`. */
  lemma DivModUnique(q: int, r: int, m: int, n: int)
    requires m > 0 && 0 <= r < m && n == q * m + r
    ensures n / m == q && n % m == r
  {
    var d, e := n / m, n % m;
    assert d * m + e == q * m + r;
    if d > q {
      assert (d - q) * m == r - e;
      MulAtLeast(d - q, m);
    } else if d < q {
      assert (q - d) * m == e - r;
      MulAtLeast(q - d, m);
    }
  }

  /** Multiplying by a non-negative factor keeps the order. */
  lemma MulMono(a: int, b: int, c: int)
    requires a <= b && c >= 0
    ensures a * c <= b * c
  {
  }
}
