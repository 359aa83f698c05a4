/** Integer facts about products and quotients that the chunking proofs
    rely on; the solver does not find the non-linear steps on its own. */
module Arith {

  lemma MulPositive(a: int, b: int)
    requires a > 0 && b > 0
    ensures a * b >= a && a * b >= b
  {
    assert a * b == a * (b - 1) + a;
    assert a * b == (a - 1) * b + b;
  }

  lemma MulMonotone(a: int, b: int, s: int)
    requires a <= b && s >= 0
    ensures a * s <= b * s
  {
    assert b * s - a * s == (b - a) * s;
    if b > a && s > 0 { MulPositive(b - a, s); }
  }

  lemma MulCancelLe(a: int, b: int, s: int)
    requires s > 0 && a * s <= b * s
    ensures a <= b
  {
    assert (b + 1) * s == b * s + s;
    if a > b {
      MulMonotone(b + 1, a, s);
      assert false;
    }
  }

  /** `e` lies in the block [i * size, i * size + size) exactly when i is
      the quotient `e / size`. */
  lemma InBlockIff(e: int, size: int, i: int)
    requires size > 0
    ensures i * size <= e < i * size + size <==> i == e / size
  {
    var q := e / size;
    assert size * q <= e < size * q + size;
    assert i * size + size == (i + 1) * size;
    assert q * size + size == (q + 1) * size;
    if i < q { MulMonotone(i + 1, q, size); }
    if i > q { MulMonotone(q + 1, i, size); }
  }

  /** A floor quotient `q` of `a` by `d` is zero exactly when `a` lies
      between 0 (included) and `d` (excluded). */
  lemma FloorZeroIff(a: int, d: int, q: int)
    requires d != 0
    requires d > 0 ==> d * q <= a < d * q + d
    requires d < 0 ==> d * q >= a > d * q + d
    ensures q == 0 <==> (d > 0 && 0 <= a < d) || (d < 0 && d < a <= 0)
  {
    if d > 0 {
      if q > 0 { MulPositive(d, q); }
      if q < 0 { MulPositive(d, -q); }
    } else {
      if q > 0 { MulPositive(-d, q); }
      if q < 0 { MulPositive(-d, -q); }
    }
  }

  lemma CeilBounds(n: int, size: int, k: int)
    requires size > 0 && k == (n + size - 1) / size
    ensures n > 0 ==> k >= 1 && (k - 1) * size < n <= k * size
  {
    assert size * k <= n + size - 1 < size * k + size;
    assert (k - 1) * size == size * k - size;
    if n > 0 && k < 1 {
      MulMonotone(k, 0, size);
    }
  }

  /** `ceil(n / size)` for a positive size. */
  function CeilDiv(n: int, size: int): (k: int)
    requires size > 0
    ensures n > 0 ==> k >= 1 && (k - 1) * size < n <= k * size
  {
    var k := (n + size - 1) / size;
    CeilBounds(n, size, k);
    k
  }

  /** The multiple count above is the only one that brackets `n`. */
  lemma CeilDivUnique(n: int, size: int, k: int)
    requires size > 0 && n > 0
    requires (k - 1) * size < n <= k * size
    ensures k == CeilDiv(n, size)
  {
    var c := CeilDiv(n, size);
    if k < c { MulMonotone(k, c - 1, size); }
    if c < k { MulMonotone(c, k - 1, size); }
  }
}
