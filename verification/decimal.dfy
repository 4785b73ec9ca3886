/** Exact decimal arithmetic on `real`, with the rounding modes Java's
    `BigDecimal` applies: `setScale(k, HALF_UP)`, `divide(d, k, HALF_UP)` and
    rounding to a number of significant digits (`MathContext(p, HALF_UP)`).

    The rounding facts are first proved for an arbitrary positive scale
    factor s and then instantiated with s = 10^k. */
module Decimal {

  /** 10^k for any integer k (negative k gives 1/10^-k). */
  function Scale(k: int): (r: real)
    ensures r > 0.0
    decreases if k >= 0 then k else -k
  {
    if k == 0 then 1.0
    else if k > 0 then 10.0 * Scale(k - 1)
    else Scale(k + 1) / 10.0
  }

  lemma ScaleStep(k: int)
    ensures Scale(k + 1) == 10.0 * Scale(k)
  {
    if k < 0 {
      assert Scale(k) == Scale(k + 1) / 10.0;
    }
  }

  /** x * s is a whole number. */
  predicate Scaled(x: real, s: real) {
    (x * s).Floor as real == x * s
  }

  /** 10^k is a whole number for k >= 0. */
  lemma {:induction false} ScaleIsWhole(k: nat)
    ensures Scale(k).Floor as real == Scale(k)
  {
    if k > 0 {
      ScaleIsWhole(k - 1);
      var m := Scale(k - 1).Floor;
      assert Scale(k) == (10 * m) as real;
    }
  }

  /** A whole number has every non-negative scale. */
  lemma WholeHasScale(n: int, k: nat)
    ensures HasScale(n as real, k)
  {
    ScaleIsWhole(k);
    var m := Scale(k).Floor;
    var p := n * m;
    assert (n as real) * Scale(k) == p as real by {
      assert Scale(k) == m as real;
      IntProduct(n, m);
    }
    assert (p as real).Floor == p;
  }

  /** Multiplying whole numbers as reals agrees with multiplying them as integers. */
  lemma IntProduct(n: int, m: int)
    ensures (n as real) * (m as real) == (n * m) as real
  {
  }

  /** x has at most k digits after the decimal point (BigDecimal scale <= k). */
  predicate HasScale(x: real, k: int) {
    Scaled(x, Scale(k))
  }

  /** HALF_UP rounding to a multiple of 1/s: nearest, ties away from zero. */
  function RoundTo(x: real, s: real): real
    requires s > 0.0
  {
    if x >= 0.0 then RoundUnsigned(x, s) else -RoundUnsigned(-x, s)
  }

  /** HALF_UP rounding of a non-negative value to a multiple of 1/s. */
  function RoundUnsigned(x: real, s: real): real
    requires x >= 0.0 && s > 0.0
  {
    ((x * s + 0.5).Floor as real) / s
  }

  /** `setScale(k, RoundingMode.HALF_UP)`, also `divide(d, k, HALF_UP)` applied
      to the exact quotient. The sign of the value is kept; scale and
      accuracy are stated by `RoundHalfUpFacts`. */
  function RoundHalfUp(x: real, k: int): (r: real)
    ensures x >= 0.0 ==> r >= 0.0
    ensures x <= 0.0 ==> r <= 0.0
  {
    RoundToFacts(x, Scale(k));
    RoundTo(x, Scale(k))
  }

  /** The rounded value has at most k decimals and lies within half a unit
      of the k-th decimal of the exact value. */
  lemma RoundHalfUpFacts(x: real, k: int)
    ensures HasScale(RoundHalfUp(x, k), k)
    ensures x - 0.5 / Scale(k) <= RoundHalfUp(x, k) <= x + 0.5 / Scale(k)
  {
    RoundToFacts(x, Scale(k));
  }

  lemma DivMul(n: real, s: real)
    requires s > 0.0
    ensures (n / s) * s == n
  {
  }

  lemma NegScaled(x: real, s: real)
    requires Scaled(x, s)
    ensures Scaled(-x, s)
  {
    var y := x * s;
    assert (-x) * s == -y;
    var n := y.Floor;
    assert -y == (-n) as real;
  }

  lemma RoundUnsignedFacts(x: real, s: real)
    requires x >= 0.0 && s > 0.0
    ensures var r := RoundUnsigned(x, s);
      x - 0.5 / s <= r <= x + 0.5 / s && r >= 0.0 && Scaled(r, s)
  {
    var y := x * s;
    var n := (y + 0.5).Floor as real;
    var r := n / s;
    DivMul(n, s);
    assert r == RoundUnsigned(x, s);
    assert (r - x) * s == n - y;
    DivMul(0.5, s);
    assert (r * s).Floor as real == r * s by {
      assert r * s == n;
      assert n.Floor as real == n;
    }
    assert Scaled(r, s);
  }

  lemma RoundToFacts(x: real, s: real)
    requires s > 0.0
    ensures Scaled(RoundTo(x, s), s)
    ensures x - 0.5 / s <= RoundTo(x, s) <= x + 0.5 / s
    ensures x >= 0.0 ==> RoundTo(x, s) >= 0.0
    ensures x <= 0.0 ==> RoundTo(x, s) <= 0.0
  {
    if x >= 0.0 {
      RoundUnsignedFacts(x, s);
    } else {
      RoundUnsignedFacts(-x, s);
      NegScaled(RoundUnsigned(-x, s), s);
    }
  }

  lemma UnsignedExact(x: real, s: real)
    requires x >= 0.0 && s > 0.0 && Scaled(x, s)
    ensures RoundUnsigned(x, s) == x
  {
    var y := x * s;
    var n := y.Floor;
    assert y == n as real;
    assert (y + 0.5).Floor == n;
    assert (n as real) / s == y / s;
  }

  lemma RoundToExact(x: real, s: real)
    requires s > 0.0 && Scaled(x, s)
    ensures RoundTo(x, s) == x
  {
    if x >= 0.0 {
      UnsignedExact(x, s);
    } else {
      NegScaled(x, s);
      UnsignedExact(-x, s);
    }
  }

  /** Rounding leaves a value that already has the target scale unchanged. */
  lemma RoundExact(x: real, k: int)
    requires HasScale(x, k)
    ensures RoundHalfUp(x, k) == x
  {
    RoundToExact(x, Scale(k));
  }

  /** Rounding a non-negative value gives n / 10^k when n is the whole number
      nearest to x · 10^k, ties going up. */
  lemma RoundHalfUpIs(x: real, k: int, n: int)
    requires x >= 0.0
    requires n as real <= x * Scale(k) + 0.5 < n as real + 1.0
    ensures RoundHalfUp(x, k) == n as real / Scale(k)
  {
    assert (x * Scale(k) + 0.5).Floor == n;
  }

  /** HALF_UP rounding is symmetric about zero. */
  lemma RoundOdd(x: real, k: int)
    ensures RoundHalfUp(-x, k) == -RoundHalfUp(x, k)
  {
    var s := Scale(k);
    if x == 0.0 {
      assert (0.0 * s + 0.5).Floor == 0;
    }
  }

  lemma UnsignedMonotone(x: real, y: real, s: real)
    requires 0.0 <= x <= y && s > 0.0
    ensures RoundUnsigned(x, s) <= RoundUnsigned(y, s)
  {
    var xs, ys := x * s, y * s;
    MulMonotone(x, y, s);
    assert xs <= ys;
    var p, q := xs + 0.5, ys + 0.5;
    FloorMonotone(p, q);
    var a, b := p.Floor as real, q.Floor as real;
    DivMonotone(a, b, s);
  }

  lemma FloorMonotone(p: real, q: real)
    requires p <= q
    ensures p.Floor <= q.Floor
  {
    assert p.Floor as real <= p;
    assert q < q.Floor as real + 1.0;
  }

  lemma MulMonotone(x: real, y: real, s: real)
    requires x <= y && s > 0.0
    ensures x * s <= y * s
  {
  }

  lemma DivMonotone(a: real, b: real, s: real)
    requires a <= b && s > 0.0
    ensures a / s <= b / s
  {
  }

  lemma RoundToMonotone(x: real, y: real, s: real)
    requires x <= y && s > 0.0
    ensures RoundTo(x, s) <= RoundTo(y, s)
  {
    if 0.0 <= x {
      UnsignedMonotone(x, y, s);
    } else if y < 0.0 {
      NegativeMonotone(x, y, s);
    } else {
      RoundToFacts(x, s);
      RoundToFacts(y, s);
    }
  }

  lemma NegativeMonotone(x: real, y: real, s: real)
    requires x <= y < 0.0 && s > 0.0
    ensures RoundTo(x, s) <= RoundTo(y, s)
  {
    UnsignedMonotone(-y, -x, s);
  }

  /** Rounding never reverses the order of two values. */
  lemma RoundMonotone(x: real, y: real, k: int)
    requires x <= y
    ensures RoundHalfUp(x, k) <= RoundHalfUp(y, k)
  {
    RoundToMonotone(x, y, Scale(k));
  }

  /** Rounding a value at or above one of scale k does not go below it. */
  lemma RoundNotBelow(x: real, y: real, k: int)
    requires HasScale(y, k) && y <= x
    ensures y <= RoundHalfUp(x, k)
  {
    RoundMonotone(y, x, k);
    RoundExact(y, k);
  }

  lemma SumScaled(a: real, b: real, s: real)
    requires Scaled(a, s) && Scaled(b, s)
    ensures Scaled(a + b, s)
  {
    var m, n := (a * s).Floor, (b * s).Floor;
    assert (a + b) * s == a * s + b * s;
    assert (a + b) * s == (m + n) as real;
  }

  /** The sum of two values of scale k has scale k. */
  lemma SumScale(a: real, b: real, k: int)
    requires HasScale(a, k) && HasScale(b, k)
    ensures HasScale(a + b, k)
  {
    SumScaled(a, b, Scale(k));
  }

  /** b^n for a natural exponent. */
  function Pow(b: real, n: nat): real {
    if n == 0 then 1.0 else b * Pow(b, n - 1)
  }

  /** The number of digits of x before the decimal point: 10^(e-1) <= x < 10^e
      (zero or negative for x < 1). */
  function Magnitude(x: real): (e: int)
    requires x > 0.0
    ensures Scale(e - 1) <= x < Scale(e)
    decreases if x < 1.0 then 1 else 0, if x >= 1.0 then x.Floor else (1.0 / x).Floor
  {
    if x >= 10.0 then
      TenthShrinks(x);
      var e := Magnitude(x / 10.0);
      ScaleStep(e - 1);
      ScaleStep(e);
      e + 1
    else if x >= 1.0 then
      assert Scale(1) == 10.0 by { ScaleStep(0); }
      1
    else
      TenfoldShrinksReciprocal(x);
      var e := Magnitude(x * 10.0);
      ScaleStep(e - 1);
      ScaleStep(e - 2);
      e - 1
  }

  lemma TenthShrinks(x: real)
    requires x >= 10.0
    ensures (x / 10.0).Floor < x.Floor
  {
    var y := x / 10.0;
    assert x == 10.0 * y;
    assert y.Floor as real <= y;
    assert x.Floor as real > x - 1.0;
  }

  lemma TenfoldShrinksReciprocal(x: real)
    requires 0.0 < x < 1.0
    ensures x * 10.0 < 1.0 ==> (1.0 / (x * 10.0)).Floor < (1.0 / x).Floor
  {
    if x * 10.0 < 1.0 {
      var r := 1.0 / x;
      assert 1.0 / (x * 10.0) == r / 10.0;
      assert r > 10.0;
      TenthShrinks(r);
    }
  }

  /** Rounding to p significant digits, HALF_UP (`MathContext(p, RoundingMode.HALF_UP)`). */
  function RoundSignificant(x: real, p: nat): (r: real)
    requires p >= 1
    ensures x >= 0.0 ==> r >= 0.0
    ensures x <= 0.0 ==> r <= 0.0
  {
    if x == 0.0 then 0.0
    else if x > 0.0 then RoundHalfUp(x, p - Magnitude(x))
    else -RoundHalfUp(-x, p - Magnitude(-x))
  }

  /** A positive value rounded to p significant digits keeps p digits in all
      and is within half a unit of its last kept digit. */
  lemma RoundSignificantFacts(x: real, p: nat)
    requires p >= 1 && x > 0.0
    ensures HasScale(RoundSignificant(x, p), p - Magnitude(x))
    ensures x - 0.5 / Scale(p - Magnitude(x)) <= RoundSignificant(x, p) <= x + 0.5 / Scale(p - Magnitude(x))
  {
    RoundHalfUpFacts(x, p - Magnitude(x));
  }

  /** 10^n is at least 1 for n >= 0. */
  lemma {:induction false} ScaleAtLeastOne(n: nat)
    ensures Scale(n) >= 1.0
  {
    if n > 0 {
      ScaleAtLeastOne(n - 1);
    }
  }

  /** A product kept as one term, so that the solver does not expand the
      powers of ten on either side of it. */
  function Mul(x: real, y: real): real {
    x * y
  }

  /** 10^a · 10^-b = 10^(a-b). */
  lemma {:induction false} ScaleShift(a: int, b: int)
    requires b >= 0
    decreases b
    ensures Mul(Scale(a), Scale(-b)) == Scale(a - b)
  {
    if b > 0 {
      var c, d := b - 1, a - b;
      ScaleShift(a, c);
      ScaleStep(d);
      ScaleDown(b);
      var u, v, w, y, z := Scale(a), Scale(-c), Scale(d), Scale(a - c), Scale(-b);
      assert a - c == d + 1;
      assert y == Scale(d + 1);
      ProductShift(u, v, w, y, z);
    } else {
      assert Scale(-b) == 1.0;
      assert Scale(a) * 1.0 == Scale(a);
    }
  }

  /** 10^(a-b) · 10^b = 10^a. */
  lemma {:induction false} ScaleSplit(a: int, b: nat)
    ensures Mul(Scale(a - b), Scale(b)) == Scale(a)
  {
    if b > 0 {
      ScaleSplit(a, b - 1);
      ScaleStep(a - b);
      ScaleStep(b - 1);
      var u, v := Scale(a - b), Scale(b - 1);
      assert Scale(a - (b - 1)) == 10.0 * u;
      assert Scale(b) == 10.0 * v;
      TenMoves(u, v);
    }
  }

  /** r lies within slack of exact. */
  predicate Within(r: real, exact: real, slack: real) {
    exact - slack <= r <= exact + slack
  }

  /** A value within v of y, which is within u of e, is within u + v of e. */
  lemma WithinBoth(r: real, y: real, e: real, u: real, v: real)
    requires Within(y, e, u) && Within(r, y, v)
    ensures Within(r, e, v + u)
  {
  }

  /** 10^a · 10^b = 10^(a+b). */
  lemma ScaleAdd(a: int, b: int)
    ensures Mul(Scale(a), Scale(b)) == Scale(a + b)
  {
    if b >= 0 {
      ScaleSplit(a + b, b);
      assert a + b - b == a;
    } else {
      ScaleShift(a, -b);
    }
  }

  /** Rounding a positive value to p significant digits moves it by at most
      half a unit of its p-th digit, which is at most x · 0.5 / 10^(p-1). */
  lemma RoundSignificantRelative(x: real, p: nat)
    requires p >= 1 && x > 0.0
    ensures x - Mul(x, 0.5 / Scale(p - 1)) <= RoundSignificant(x, p) <= x + Mul(x, 0.5 / Scale(p - 1))
  {
    RoundSignificantFacts(x, p);
    var m := Magnitude(x);
    ScaleAdd(p - m, m - 1);
    assert p - m + (m - 1) == p - 1;
    HalfUnitBelow(Scale(p - m), Scale(m - 1), x, Scale(p - 1));
  }

  /** 0.5 / a = b · 0.5 / (a · b), which is at most x · 0.5 / (a · b) when b <= x. */
  lemma HalfUnitBelow(a: real, b: real, x: real, c: real)
    requires a > 0.0 && b > 0.0 && b <= x && Mul(a, b) == c
    ensures 0.5 / a <= Mul(x, 0.5 / c)
  {
    assert 0.5 / a == b * (0.5 / c);
    assert b * (0.5 / c) <= x * (0.5 / c);
  }

  lemma TenMoves(u: real, v: real)
    ensures Mul(u, 10.0 * v) == Mul(10.0 * u, v)
  {
  }

  lemma ScaleDown(b: int)
    requires b > 0
    ensures Scale(-b) * 10.0 == Scale(-(b - 1))
  {
  }

  lemma ProductShift(u: real, v: real, w: real, y: real, z: real)
    requires Mul(u, v) == y && y == 10.0 * w && z * 10.0 == v
    ensures Mul(u, z) == w
  {
    assert u * v == (u * z) * 10.0;
  }

  /** A value of at least 1 keeps at least 1 when rounded to p significant
      digits. */
  lemma RoundSignificantAtLeastOne(x: real, p: nat)
    requires p >= 1 && x >= 1.0
    ensures RoundSignificant(x, p) >= 1.0
  {
    var e := Magnitude(x);
    var k := p - e;
    if k >= 0 {
      WholeHasScale(1, k);
      RoundNotBelow(x, 1.0, k);
    } else {
      var y := Scale(e - 1);
      ScaleShift(e - 1, -k);
      assert Mul(y, Scale(k)) == Scale(p - 1);
      assert y * Scale(k) == Scale(p - 1);
      ScaleIsWhole(p - 1);
      assert HasScale(y, k);
      RoundNotBelow(x, y, k);
      ScaleAtLeastOne(e - 1);
    }
  }
}
