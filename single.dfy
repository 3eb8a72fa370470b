/**
 * Rounding to IEEE 754 binary32 (`float`), round-to-nearest with ties to
 * even, for the non-negative values below 2048 that a float product such as
 * `value * 1000` with `value` in [0, 1.1] can take. A binary32 number with
 * exponent e (2^e <= x < 2^(e+1)) has 23 fraction bits, so neighbouring
 * numbers are 2^(e - 23) apart; below 2^-126 the spacing stays 2^-149.
 */
module Single {

  /** The fraction bits of binary32. */
  const FractionBits: int := 23

  /** The smallest normal exponent of binary32. */
  const MinExponent: int := -126

  /** 2 to the power e. */
  function Pow2(e: int): (p: real)
    ensures p > 0.0
    decreases if e < 0 then -e else e
  {
    if e == 0 then 1.0
    else if e > 0 then 2.0 * Pow2(e - 1)
    else Pow2(e + 1) / 2.0
  }

  /** Powers of two grow with the exponent. */
  lemma {:induction false} Pow2Monotone(a: int, b: int)
    requires a <= b
    ensures Pow2(a) <= Pow2(b)
    decreases b - a
  {
    if a < b {
      Pow2Monotone(a, b - 1);
      Pow2Step(b - 1);
    }
  }

  /** One more exponent doubles the power. */
  lemma Pow2Step(e: int)
    ensures Pow2(e + 1) == 2.0 * Pow2(e)
  {
    if e < 0 && e + 1 != 0 {
      assert Pow2(e) == Pow2(e + 1) / 2.0;
    }
  }

  /**
   * The binary exponent of x, searched from e downwards: the largest
   * exponent at most e whose power does not exceed x, but no lower than the
   * smallest normal exponent.
   */
  function ExponentFrom(x: real, e: int): (r: int)
    requires e >= MinExponent
    ensures MinExponent <= r <= e
    ensures r > MinExponent ==> Pow2(r) <= x
    ensures x < Pow2(e + 1) ==> x < Pow2(r + 1)
    decreases e - MinExponent
  {
    if e == MinExponent || Pow2(e) <= x then e else ExponentFrom(x, e - 1)
  }

  /** The distance between x's binary32 neighbours, for 0 <= x < 2048. */
  function Spacing(x: real): (u: real)
    requires 0.0 <= x < 2048.0
    ensures 0.0 < u <= 0.0001220703125  // 2^-13
  {
    assert Pow2(11) == 2048.0;
    assert Pow2(-13) == 0.0001220703125;
    var e := ExponentFrom(x, 10);
    Pow2Monotone(e - FractionBits, -13);
    Pow2(e - FractionBits)
  }

  /** The integer nearest to y, the even one of two equally near. */
  function RoundHalfEven(y: real): (n: int)
    ensures (n as real) - 0.5 <= y <= (n as real) + 0.5
    ensures (n as real) - y == 0.5 || y - (n as real) == 0.5 ==> n % 2 == 0
  {
    var f := y.Floor;
    var d := y - f as real;
    if d < 0.5 then f
    else if d > 0.5 then f + 1
    else if f % 2 == 0 then f
    else f + 1
  }

  /** r is a whole multiple of u. */
  predicate OnGrid(r: real, u: real)
    requires u > 0.0
  {
    (r / u).Floor as real == r / u
  }

  /**
   * A non-negative x below 2048 rounded to the nearest binary32 number, ties
   * to even: a multiple of x's spacing, no further than half a spacing from
   * x, and an even multiple when x lies exactly halfway.
   */
  function Round(x: real): (r: real)
    requires 0.0 <= x < 2048.0
    ensures 0.0 <= r
    ensures OnGrid(r, Spacing(x))
    ensures x - Spacing(x) / 2.0 <= r <= x + Spacing(x) / 2.0
    ensures r - x == Spacing(x) / 2.0 || x - r == Spacing(x) / 2.0 ==> (r / Spacing(x)).Floor % 2 == 0
  {
    var u := Spacing(x);
    var n := RoundHalfEven(x / u);
    ScaleBounds(x, u, n);
    MulDiv(n, u);
    TieScale(x, u, n);
    n as real * u
  }

  /** The m-th multiple of u. */
  function Multiple(m: int, u: real): real
  {
    m as real * u
  }

  /** How far apart a and b are. */
  function Distance(a: real, b: real): real
  {
    if a < b then b - a else a - b
  }

  /** No multiple of x's spacing lies nearer to x than Round(x) does. */
  lemma RoundNearest(x: real, m: int)
    requires 0.0 <= x < 2048.0
    ensures Distance(Round(x), x) <= Distance(Multiple(m, Spacing(x)), x)
  {
    var u := Spacing(x);
    var r := Round(x);
    NearestOnGrid(x, u, r, m);
  }

  /** A multiple r of u within half of u of x is at least as near to x as any multiple m * u. */
  lemma NearestOnGrid(x: real, u: real, r: real, m: int)
    requires u > 0.0 && OnGrid(r, u) && x - u / 2.0 <= r <= x + u / 2.0
    ensures Distance(r, x) <= Distance(Multiple(m, u), x)
  {
    var n := (r / u).Floor;
    DivMul(r, u);
    assert r == n as real * u;
    if m > n {
      MulNonNegative((m - n - 1) as real, u);
      assert m as real * u - r == (m - n - 1) as real * u + u;
    } else if m < n {
      MulNonNegative((n - m - 1) as real, u);
      assert r - m as real * u == (n - m - 1) as real * u + u;
    }
  }

  /** Below 2048, rounding moves a value by at most 2^-14. */
  lemma RoundNear(x: real)
    requires 0.0 <= x < 2048.0
    ensures 0.0 <= Round(x) && x - 0.00006103515625 <= Round(x) <= x + 0.00006103515625
  {
  }

  /** A product of non-negative numbers is non-negative. */
  lemma MulNonNegative(a: real, b: real)
    requires 0.0 <= a && 0.0 <= b
    ensures 0.0 <= a * b
  {
  }

  /** Dividing by a positive u and multiplying back gives the number again. */
  lemma DivMul(x: real, u: real)
    requires u > 0.0
    ensures x / u * u == x
  {
  }

  /** A whole multiple of u divided by u gives the multiple back. */
  lemma MulDiv(n: int, u: real)
    requires u > 0.0
    ensures n as real * u / u == n as real
  {
  }

  /** n * u exactly half of u away from x means n exactly one half away from x / u. */
  lemma TieScale(x: real, u: real, n: int)
    requires u > 0.0
    ensures n as real * u - x == u / 2.0 ==> n as real - x / u == 0.5
    ensures x - n as real * u == u / 2.0 ==> x / u - n as real == 0.5
  {
    DivMul(x, u);
    var d := n as real - x / u;
    assert n as real * u - x == d * u;
    if d * u == u / 2.0 {
      assert (d - 0.5) * u == 0.0;
    }
    if -d * u == u / 2.0 {
      assert (-d - 0.5) * u == 0.0;
    }
  }

  /** An integer n within one half of x / u puts n * u within half of u of x. */
  lemma ScaleBounds(x: real, u: real, n: int)
    requires 0.0 <= x && u > 0.0
    requires (n as real) - 0.5 <= x / u <= (n as real) + 0.5
    ensures x - u / 2.0 <= n as real * u <= x + u / 2.0
    ensures 0.0 <= n as real * u
  {
    var y := x / u;
    DivMul(x, u);
    MulNonNegative(y - (n as real - 0.5), u);
    MulNonNegative((n as real + 0.5) - y, u);
    MulNonNegative(y, u);
    MulNonNegative(n as real, u);
  }

  /** A value on the grid of spacing u (a whole multiple of u) is left unchanged by rounding to that grid. */
  lemma GridExact(x: real, u: real)
    requires u > 0.0 && (x / u).Floor as real == x / u
    ensures RoundHalfEven(x / u) as real * u == x
  {
    DivMul(x, u);
  }
}
