/** Products and quotients, with the product named so that proofs can treat it as one quantity. */
module Arith {

  const MAX_INT64: int := 0x7FFF_FFFF_FFFF_FFFF
  const MIN_INT64: int := -0x8000_0000_0000_0000
  const TWO_64: int := 0x1_0000_0000_0000_0000

  /** Go's int on a 64-bit machine, and its int64. */
  type int64 = n: int | MIN_INT64 <= n <= MAX_INT64

  /** The wrapped result of sums and products of int64 values. */
  function Wrap64(n: int): int64 { (n - MIN_INT64) % TWO_64 + MIN_INT64 }

  /** What does not wrap is left as it is; what exceeds the range loses 2^64 at least once. */
  lemma WrapIs(n: int)
    ensures n <= MAX_INT64 && MIN_INT64 <= n ==> Wrap64(n) == n
    ensures n > MAX_INT64 ==> Wrap64(n) <= n - TWO_64
    ensures MAX_INT64 < n < TWO_64 ==> Wrap64(n) == n - TWO_64
  {}

  function Min(a: int, b: int): int { if a < b then a else b }

  function Max(a: int, b: int): int { if a > b then a else b }

  function Product(a: int, b: int): int { a * b }

  lemma ProductIs(a: int, b: int)
    ensures Product(a, b) == Product(b, a) == a * b
    ensures Product(a, b + 1) == Product(a, b) + a
  {}

  lemma ProductNat(a: nat, b: nat)
    ensures Product(a, b) >= 0
  {}

  lemma ProductOne(a: int)
    ensures Product(a, 1) == a
  {}

  lemma ProductLess(k: nat, x: int, y: int)
    requires k > 0 && x < y
    ensures Product(k, x) + k <= Product(k, y)
  {
    assert k * (x + 1) <= k * y;
  }

  lemma DivFloor(a: int, b: int)
    requires b > 0
    ensures Product(b, a / b) <= a < Product(b, a / b) + b
  {}

  lemma DivBound(a: int, b: int, c: int)
    requires b > 0
    ensures a / b <= c <==> a < Product(b, c) + b
  {
    hide Product;
    var q := a / b;
    DivFloor(a, b);
    if q < c { ProductLess(b, q, c); }
    if c < q { ProductLess(b, c, q); }
  }

  lemma ModIs(a: int, b: int, q: int, r: int)
    requires b > 0 && 0 <= r < b && a == Product(b, q) + r
    ensures a / b == q && a % b == r
  {
    DivFloor(a, b);
    ProductIs(b, a / b);
    hide Product;
    if a / b < q { ProductLess(b, a / b, q); }
    if q < a / b { ProductLess(b, q, a / b); }
  }

  lemma Regroup(c: int, a: int, x: int)
    ensures c * (a * x) == a * (c * x) == (c * a) * x
  {}

  lemma Distribute(c: int, x: int, y: int)
    ensures c * (x + y) == c * x + c * y
    ensures (x + y) * c == x * c + y * c
  {}
}
