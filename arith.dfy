/** Small facts of arithmetic that the tolerance, pixel index and rounding proofs rest on. */
module Arith {
  /** Math.min on integers. */
  function Min(a: int, b: int): int
  {
    if a <= b then a else b
  }

  /** Math.max on integers. */
  function Max(a: int, b: int): int
  {
    if a >= b then a else b
  }

  lemma RealMulMonotone(a: real, b: real, c: real)
    requires a <= b && 0.0 <= c
    ensures a * c <= b * c
  {
  }

  lemma RealSquareStrict(a: real, b: real)
    requires 0.0 <= a < b
    ensures a * a < b * b
  {
    var lo, mid, hi := a * a, a * b, b * b;
    assert lo <= mid;
    assert mid < hi;
  }


  lemma MulMonotone(a: int, b: int, c: int)
    requires a <= b && 0 <= c
    ensures a * c <= b * c
  {
  }

  lemma MulStrict(a: int, b: int, c: int)
    requires a * c < b * c && 0 < c
    ensures a < b
  {
  }

  lemma MulAdd(c: int, a: int, b: int)
    ensures c * (a + b) == c * a + c * b
  {
  }

  lemma MulAddOne(a: int, c: int)
    ensures (a + 1) * c == a * c + c
  {
  }

  /** A multiple of w strictly between -w and w is 0. */
  lemma SmallMultiple(k: int, w: int)
    requires 0 < w && -w < k * w < w
    ensures k == 0
  {
  }

  lemma DivModUnique(n: int, w: int, q: int, m: int)
    requires 0 < w && 0 <= m < w && n == q * w + m
    ensures n / w == q && n % w == m
  {
    var q', m' := n / w, n % w;
    assert (q - q') * w == m' - m;
    SmallMultiple(q - q', w);
  }

  lemma DivBelow(p: int, d: int, k: int)
    requires 0 < d && 0 <= p < k * d
    ensures 0 <= p / d < k
  {
    assert (p / d) * d <= p;
    MulStrict(p / d, k, d);
  }

  lemma DivMonotone(a: int, b: int, d: int)
    requires 0 < d && a <= b
    ensures a / d <= b / d
  {
    assert (a / d) * d <= a <= b < (b / d) * d + d;
    MulAddOne(b / d, d);
    MulStrict(a / d, b / d + 1, d);
  }

  lemma MulPositive(w: int, h: int)
    requires 0 <= w && 0 <= h && 0 < w * h
    ensures 0 < w && 0 < h
  {
  }
}
