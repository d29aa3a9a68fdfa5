/** Division and alignment facts shared by the size and offset arithmetic. */
module Arith {

  lemma MulMonotone(d: nat, a: int, b: int)
    requires a <= b
    ensures d * a <= d * b
  {
  }

  /** Quotient and remainder are the only pair that fits. */
  lemma DivModUnique(n: int, d: nat, q: int, r: nat)
    requires d > 0 && n == d * q + r && r < d
    ensures n / d == q && n % d == r
  {
    var q', r' := n / d, n % d;
    assert n == d * q' + r';
    assert d * (q + 1) == d * q + d && d * (q' + 1) == d * q' + d;
    if q < q' { MulMonotone(d, q + 1, q'); }
    if q' < q { MulMonotone(d, q' + 1, q); }
  }

  lemma MultipleMod(d: nat, k: int)
    requires d > 0
    ensures (d * k) % d == 0 && (d * k) / d == k
  {
    DivModUnique(d * k, d, k, 0);
  }

  function AlignDown(n: nat, size: nat): (r: nat)
    requires size > 0
    ensures r <= n < r + size && r % size == 0
  {
    assert n == size * (n / size) + n % size;
    MultipleMod(size, n / size);
    n - n % size
  }

  /** The smallest multiple of `size` not below `n`. */
  function AlignUp(n: nat, size: nat): (r: nat)
    requires size > 0
    ensures n <= r < n + size && r % size == 0
  {
    AlignDown(n + size - 1, size)
  }

  /** Distinct multiples are at least one unit apart. */
  lemma MultiplesApart(a: nat, b: nat, d: nat)
    requires d > 0 && a % d == 0 && b % d == 0 && a < b
    ensures a + d <= b
  {
    assert a == d * (a / d) && b == d * (b / d);
    assert d * (a / d + 1) == d * (a / d) + d;
    if b / d <= a / d { MulMonotone(d, b / d, a / d); } else { MulMonotone(d, a / d + 1, b / d); }
  }

  /** Rounding up never passes a multiple that was not yet reached. */
  lemma AlignUpBelow(n: nat, m: nat, d: nat)
    requires d > 0 && m % d == 0 && n <= m
    ensures AlignUp(n, d) <= m
  {
    if AlignUp(n, d) > m { MultiplesApart(m, AlignUp(n, d), d); }
  }
}
