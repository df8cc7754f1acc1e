/** Java's integer division and remainder, which truncate toward zero. */
module JavaInts {
  /** Java's `/`, which truncates toward zero. */
  function JavaDiv(a: int, d: int): (r: int)
    requires d > 0
  {
    if a >= 0 then a / d else -((-a) / d)
  }

  /** Java's `%`, whose result takes the sign of the dividend. */
  function JavaRem(a: int, d: int): (r: int)
    requires d > 0
    ensures -d < r < d && a == d * JavaDiv(a, d) + r
    ensures a >= 0 ==> r >= 0
  {
    a - d * JavaDiv(a, d)
  }

  /** On a non-negative dividend Java's division agrees with Dafny's. */
  lemma NonNegativeDivision(a: int, d: int)
    requires a >= 0 && d > 0
    ensures JavaDiv(a, d) == a / d && JavaRem(a, d) == a % d
  {
  }
}
