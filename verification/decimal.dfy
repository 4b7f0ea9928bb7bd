/**
  Arbitrary-precision decimals as java.math.BigDecimal represents them: an unscaled
  integer and a scale, standing for unscaled × 10^(−scale). Two decimals with the
  same value may differ in scale (2 and 2.00); `compareTo` compares values, while
  `setScale`, `stripTrailingZeros` and the text conversions depend on the scale.
*/
module Decimals {

  datatype Decimal = Decimal(unscaled: int, scale: int)

  /** BigDecimal.ZERO and BigDecimal.ONE. */
  const Zero: Decimal := Decimal(0, 0)
  const One: Decimal := Decimal(1, 0)

  function AbsInt(x: int): (r: nat)
    ensures r == x || r == -x
  {
    if x < 0 then -x else x
  }

  function Pow10(n: nat): (r: nat)
    ensures r >= 1
  {
    if n == 0 then 1 else 10 * Pow10(n - 1)
  }

  lemma {:induction false} Pow10Add(a: nat, b: nat)
    ensures Pow10(a + b) == Pow10(a) * Pow10(b)
  {
    if b > 0 {
      Pow10Add(a, b - 1);
      calc {
        Pow10(a + b);
        10 * Pow10(a + b - 1);
        10 * (Pow10(a) * Pow10(b - 1));
        Pow10(a) * (10 * Pow10(b - 1));
      }
    }
  }

  lemma CastMul(x: int, y: int)
    ensures (x * y) as real == x as real * y as real
  {
  }

  /**
    10^e as a real number, for any integer exponent. It deliberately carries no
    postcondition, and it is split over two functions so that the solver only
    unfolds one layer of it when asked: facts about it come from the lemmas
    below, which keeps the solver away from nonlinear search.
  */
  function Ten(e: int): real
    decreases if e < 0 then -e else e, 1
  {
    TenLayer(e)
  }

  function TenLayer(e: int): real
    decreases if e < 0 then -e else e, 0
  {
    if e == 0 then 1.0 else if e > 0 then 10.0 * Ten(e - 1) else Ten(e + 1) / 10.0
  }

  lemma TenStep(e: int)
    ensures Ten(e) == 10.0 * Ten(e - 1)
  {
    assert Ten(e) == TenLayer(e);
    assert Ten(e - 1) == TenLayer(e - 1);
  }

  lemma {:induction false} TenPositive(e: int)
    ensures Ten(e) > 0.0
    decreases if e < 0 then -e else e
  {
    if e > 0 {
      TenPositive(e - 1);
    } else if e < 0 {
      TenPositive(e + 1);
    }
  }

  lemma {:induction false} TenOfNat(n: nat)
    ensures Ten(n) == Pow10(n) as real
  {
    if n > 0 {
      TenOfNat(n - 1);
    }
  }

  lemma ProductStep(p: real, q: real, r: real, x: real, y: real)
    requires r == x * q
    requires p == 10.0 * r
    requires y == 10.0 * q
    ensures p == x * y
  {
  }

  lemma {:induction false} TenAddNat(a: int, b: nat)
    ensures Ten(a + b) == Ten(a) * Ten(b)
  {
    if b > 0 {
      TenAddNat(a, b - 1);
      TenStep(a + b);
      TenStep(b);
      ProductStep(Ten(a + b), Ten(b - 1), Ten(a + b - 1), Ten(a), Ten(b));
    }
  }

  lemma ProductSwap(p: real, q: real, x: real, y: real)
    requires q == p * y && y * x == 1.0
    ensures p == q * x
  {
  }

  /** Exponents add: 10^(a+b) = 10^a · 10^b. */
  lemma TenAdd(a: int, b: int)
    ensures Ten(a + b) == Ten(a) * Ten(b)
  {
    if b >= 0 {
      TenAddNat(a, b);
    } else if a >= 0 {
      TenAddNat(b, a);
    } else {
      // both negative: 10^a = 10^(a+b) · 10^(-b) and 10^b · 10^(-b) = 1
      TenAddNat(a + b, -b);
      TenAddNat(b, -b);
      ProductSwap(Ten(a + b), Ten(a), Ten(b), Ten(-b));
    }
  }

  /** The number a decimal stands for. */
  function Value(d: Decimal): real
  {
    d.unscaled as real * Ten(-d.scale)
  }

  /** The integer value of a decimal with scale 0. */
  lemma ValueOfScaleZero(n: int)
    ensures Value(Decimal(n, 0)) == n as real
  {
  }

  /** Appending k zero digits while raising the scale by k keeps the value. */
  lemma ValueRescale(u: int, s: int, k: nat)
    ensures Value(Decimal(u * Pow10(k), s + k)) == Value(Decimal(u, s))
  {
    TenOfNat(k);
    TenAdd(k, -(s + k));
    assert k + -(s + k) == -s;
    CastMul(u, Pow10(k));
  }

  function Neg(d: Decimal): Decimal
  {
    Decimal(-d.unscaled, d.scale)
  }

  /** BigDecimal.abs(): the magnitude, at the same scale. */
  function Abs(d: Decimal): Decimal
  {
    Decimal(AbsInt(d.unscaled), d.scale)
  }

  /** BigDecimal.signum(), which is also the result of compareTo(ZERO). */
  function Sign(d: Decimal): (r: int)
    ensures r == 1 <==> Value(d) > 0.0
    ensures r == 0 <==> Value(d) == 0.0
    ensures r == -1 <==> Value(d) < 0.0
  {
    TenPositive(-d.scale);
    if d.unscaled > 0 then 1 else if d.unscaled < 0 then -1 else 0
  }

  lemma ValueNeg(d: Decimal)
    ensures Value(Neg(d)) == -Value(d)
  {
  }

  lemma ValueAbs(d: Decimal)
    ensures Value(Abs(d)) == if Value(d) < 0.0 then -Value(d) else Value(d)
  {
    TenPositive(-d.scale);
  }

  /** Values at one common scale add like their unscaled integers. */
  lemma ValueSumAtScale(u: int, v: int, s: int)
    ensures Value(Decimal(u + v, s)) == Value(Decimal(u, s)) + Value(Decimal(v, s))
  {
  }

  /** BigDecimal.valueOf(long): an integer at scale 0. */
  function FromInt(n: int): Decimal
  {
    Decimal(n, 0)
  }

  /** BigDecimal.add: exact, at the larger of the two scales. */
  function Add(a: Decimal, b: Decimal): (r: Decimal)
    ensures r.scale == if a.scale >= b.scale then a.scale else b.scale
    ensures Value(r) == Value(a) + Value(b)
  {
    if a.scale >= b.scale then
      var k := a.scale - b.scale;
      ValueRescale(b.unscaled, b.scale, k);
      assert b.scale + k == a.scale;
      ValueSumAtScale(a.unscaled, b.unscaled * Pow10(k), a.scale);
      Decimal(a.unscaled + b.unscaled * Pow10(k), a.scale)
    else
      var k := b.scale - a.scale;
      ValueRescale(a.unscaled, a.scale, k);
      assert a.scale + k == b.scale;
      ValueSumAtScale(a.unscaled * Pow10(k), b.unscaled, b.scale);
      Decimal(a.unscaled * Pow10(k) + b.unscaled, b.scale)
  }

  /** BigDecimal.subtract: exact, at the larger of the two scales. */
  function Sub(a: Decimal, b: Decimal): (r: Decimal)
    ensures r.scale == if a.scale >= b.scale then a.scale else b.scale
    ensures Value(r) == Value(a) - Value(b)
  {
    if a.scale >= b.scale then
      var k := a.scale - b.scale;
      ValueRescale(b.unscaled, b.scale, k);
      assert b.scale + k == a.scale;
      ValueDifferenceAtScale(a.unscaled, b.unscaled * Pow10(k), a.scale);
      Decimal(a.unscaled - b.unscaled * Pow10(k), a.scale)
    else
      var k := b.scale - a.scale;
      ValueRescale(a.unscaled, a.scale, k);
      assert a.scale + k == b.scale;
      ValueDifferenceAtScale(a.unscaled * Pow10(k), b.unscaled, b.scale);
      Decimal(a.unscaled * Pow10(k) - b.unscaled, b.scale)
  }

  /** BigDecimal.compareTo: the sign of a − b, so that scale plays no part. */
  function Compare(a: Decimal, b: Decimal): (r: int)
    ensures r == 1 <==> Value(a) > Value(b)
    ensures r == 0 <==> Value(a) == Value(b)
    ensures r == -1 <==> Value(a) < Value(b)
  {
    if a.scale >= b.scale then
      ValueRescale(b.unscaled, b.scale, a.scale - b.scale);
      assert b.scale + (a.scale - b.scale) == a.scale;
      CompareAtScale(a.unscaled, b.unscaled * Pow10(a.scale - b.scale), a.scale)
    else
      ValueRescale(a.unscaled, a.scale, b.scale - a.scale);
      assert a.scale + (b.scale - a.scale) == b.scale;
      CompareAtScale(a.unscaled * Pow10(b.scale - a.scale), b.unscaled, b.scale)
  }

  function CompareAtScale(x: int, y: int, s: int): (r: int)
    ensures r == 1 <==> Value(Decimal(x, s)) > Value(Decimal(y, s))
    ensures r == 0 <==> Value(Decimal(x, s)) == Value(Decimal(y, s))
    ensures r == -1 <==> Value(Decimal(x, s)) < Value(Decimal(y, s))
  {
    ValueMonotoneAtScale(x, y, s);
    ValueMonotoneAtScale(y, x, s);
    if x < y then -1 else if x == y then 0 else 1
  }

  lemma MulValue(a: Decimal, b: Decimal)
    ensures Value(Decimal(a.unscaled * b.unscaled, a.scale + b.scale)) == Value(a) * Value(b)
  {
    TenAdd(-a.scale, -b.scale);
    CastMul(a.unscaled, b.unscaled);
    var x, y, p, q := a.unscaled as real, b.unscaled as real, Ten(-a.scale), Ten(-b.scale);
    assert (x * y) * (p * q) == (x * p) * (y * q);
  }

  /** BigDecimal.multiply: exact, the scales add. */
  function Mul(a: Decimal, b: Decimal): (r: Decimal)
    ensures r.scale == a.scale + b.scale
    ensures Value(r) == Value(a) * Value(b)
  {
    MulValue(a, b);
    Decimal(a.unscaled * b.unscaled, a.scale + b.scale)
  }

  function RealAbs(x: real): real
  {
    if x < 0.0 then -x else x
  }

  /** Decimals at one scale compare like their unscaled integers. */
  lemma ValueMonotoneAtScale(u: int, v: int, s: int)
    ensures u <= v <==> Value(Decimal(u, s)) <= Value(Decimal(v, s))
    ensures u == v <==> Value(Decimal(u, s)) == Value(Decimal(v, s))
  {
    TenPositive(-s);
    ScaledOrder(u as real, v as real, Ten(-s));
  }

  lemma ScaledOrder(x: real, y: real, t: real)
    requires t > 0.0
    ensures x <= y <==> x * t <= y * t
    ensures x == y <==> x * t == y * t
  {
    if x * t == y * t {
      assert (x - y) * t == 0.0;
    }
  }

  lemma AbsValueAtScale(u: int, s: int)
    ensures RealAbs(Value(Decimal(u, s))) == Value(Decimal(AbsInt(u), s))
  {
    ValueAbs(Decimal(u, s));
  }

  /** Scaling by 10^(−p) moves the scale up by p. */
  lemma ValueShift(u: int, s: int, p: int)
    ensures Value(Decimal(u, s)) * Ten(-p) == Value(Decimal(u, s + p))
  {
    TenAdd(-s, -p);
    assert -s + -p == -(s + p);
  }

  lemma ValueDifferenceAtScale(u: int, v: int, s: int)
    ensures Value(Decimal(u, s)) - Value(Decimal(v, s)) == Value(Decimal(u - v, s))
  {
    ValueSumAtScale(u, -v, s);
  }

  lemma ValueDoubleAtScale(u: int, s: int)
    ensures 2.0 * Value(Decimal(u, s)) == Value(Decimal(2 * u, s))
  {
    ValueSumAtScale(u, u, s);
  }

  /** The integer nearest to n / m, with halves rounded away from zero (RoundingMode.HALF_UP). */
  function RoundHalfUpQuotient(n: int, m: int): int
    requires m != 0
  {
    var a, b := AbsInt(n), AbsInt(m);
    var t := if 2 * (a % b) >= b then a / b + 1 else a / b;
    if (n < 0) == (m < 0) then t else -t
  }

  lemma MagnitudeRounding(a: nat, b: nat) returns (t: nat)
    requires b > 0
    ensures t == if 2 * (a % b) >= b then a / b + 1 else a / b
    ensures 2 * AbsInt(t * b - a) <= b
    ensures 2 * AbsInt(t * b - a) == b ==> t * b > a
  {
    var q, r := a / b, a % b;
    assert a == q * b + r;
    if 2 * r >= b {
      t := q + 1;
      assert t * b == q * b + b;
    } else {
      t := q;
    }
  }

  /** When q·m and n are ±t·b and ±a with matching signs, q·m − n is ±(t·b − a). */
  lemma SignedDistance(q: int, m: int, n: int, t: int, b: int, a: int)
    requires (q == t && m == b && n == a) || (q == t && m == -b && n == -a) ||
             (q == -t && m == b && n == -a) || (q == -t && m == -b && n == a)
    ensures AbsInt(q * m - n) == AbsInt(t * b - a)
    ensures AbsInt(q * m) == AbsInt(t * b)
  {
    if q == t && m == -b {
      assert q * m == -(t * b);
    } else if q == -t && m == b {
      assert q * m == -(t * b);
    } else if q == -t && m == -b {
      assert q * m == t * b;
    }
  }

  /**
    The quotient is within half a unit of n / m, and an exact half is rounded
    away from zero.
  */
  lemma RoundHalfUpNearest(n: int, m: int)
    requires m != 0
    ensures 2 * AbsInt(RoundHalfUpQuotient(n, m) * m - n) <= AbsInt(m)
    ensures 2 * AbsInt(RoundHalfUpQuotient(n, m) * m - n) == AbsInt(m) ==>
              AbsInt(RoundHalfUpQuotient(n, m) * m) > AbsInt(n)
  {
    var a, b := AbsInt(n), AbsInt(m);
    var t := MagnitudeRounding(a, b);
    SignedDistance(RoundHalfUpQuotient(n, m), m, n, t, b, a);
  }

  lemma RoundHalfUpByOne(n: int)
    ensures RoundHalfUpQuotient(n, 1) == n
  {
  }

  /**
    x is y rounded to the nearest multiple of a unit u, where w = u·|scale| is
    twice the largest allowed error: |x − y| ≤ w / 2, and an exact half is
    rounded away from zero.
  */
  predicate HalfUpNearest(x: real, y: real, w: real)
  {
    && 2.0 * RealAbs(x - y) <= w
    && (2.0 * RealAbs(x - y) == w ==> RealAbs(x) > RealAbs(y))
  }

  /** The integer facts about q·m − n, read as facts about values at one scale s. */
  lemma NearestAtScale(q: int, m: int, n: int, s: int)
    requires m != 0 && q == RoundHalfUpQuotient(n, m)
    ensures HalfUpNearest(Value(Decimal(q * m, s)), Value(Decimal(n, s)), Value(Decimal(AbsInt(m), s)))
  {
    RoundHalfUpNearest(n, m);
    var x := q * m - n;
    ValueDifferenceAtScale(q * m, n, s);
    AbsValueAtScale(x, s);
    ValueDoubleAtScale(AbsInt(x), s);
    ValueMonotoneAtScale(2 * AbsInt(x), AbsInt(m), s);
    AbsValueAtScale(q * m, s);
    AbsValueAtScale(n, s);
    ValueMonotoneAtScale(AbsInt(q * m), AbsInt(n), s);
  }

  /**
    BigDecimal.divide(divisor, scale, RoundingMode.HALF_UP): the quotient a / b
    rounded to `p` fractional digits, halves away from zero. Dividing by zero
    throws in the source; here the divisor must be nonzero, and callers test for
    zero first.
  */
  function DivideHalfUp(a: Decimal, b: Decimal, p: int): (r: Decimal)
    requires b.unscaled != 0
    ensures r.scale == p
  {
    // a / b · 10^p = a.unscaled · 10^e / b.unscaled
    var e := b.scale - a.scale + p;
    if e >= 0 then
      Decimal(RoundHalfUpQuotient(a.unscaled * Pow10(e), b.unscaled), p)
    else
      Decimal(RoundHalfUpQuotient(a.unscaled, b.unscaled * Pow10(-e)), p)
  }

  /** r is the quotient a / b rounded half-up to p fractional digits. */
  predicate RoundsHalfUp(r: Decimal, a: Decimal, b: Decimal, p: int)
  {
    HalfUpNearest(Value(r) * Value(b), Value(a), RealAbs(Value(b)) * Ten(-p))
  }

  /** The rounded quotient times the divisor is within half a unit of the dividend. */
  lemma DivideHalfUpNearest(a: Decimal, b: Decimal, p: int)
    requires b.unscaled != 0
    ensures RoundsHalfUp(DivideHalfUp(a, b, p), a, b, p)
  {
    if b.scale - a.scale + p >= 0 {
      DivideAtScaleNonNegative(a, b, p, DivideHalfUp(a, b, p));
    } else {
      DivideAtScaleNegative(a, b, p, DivideHalfUp(a, b, p));
    }
  }

  lemma AbsShift(b: Decimal, p: int)
    ensures RealAbs(Value(b)) * Ten(-p) == Value(Decimal(AbsInt(b.unscaled), p + b.scale))
  {
    var u := AbsInt(b.unscaled);
    assert b == Decimal(b.unscaled, b.scale);
    AbsValueAtScale(b.unscaled, b.scale);
    assert RealAbs(Value(b)) == Value(Decimal(u, b.scale));
    MulCongruence(RealAbs(Value(b)), Value(Decimal(u, b.scale)), Ten(-p));
    ValueShift(u, b.scale, p);
    assert b.scale + p == p + b.scale;
  }

  lemma DivisorBound(b: Decimal, p: int, k: nat)
    ensures RealAbs(Value(b)) * Ten(-p) == Value(Decimal(AbsInt(b.unscaled) * Pow10(k), p + b.scale + k))
  {
    AbsShift(b, p);
    ValueRescale(AbsInt(b.unscaled), p + b.scale, k);
  }

  lemma DivideAtScaleNonNegative(a: Decimal, b: Decimal, p: int, r: Decimal)
    requires b.unscaled != 0 && b.scale - a.scale + p >= 0
    requires r == DivideHalfUp(a, b, p)
    ensures RoundsHalfUp(r, a, b, p)
  {
    var e := b.scale - a.scale + p;
    var s := p + b.scale;
    MulValue(r, b);
    ValueRescale(a.unscaled, a.scale, e);
    assert a.scale + e == s;
    DivisorBound(b, p, 0);
    NearestAtScale(r.unscaled, b.unscaled, a.unscaled * Pow10(e), s);
    assert r.scale + b.scale == s;
    assert Value(r) * Value(b) == Value(Decimal(r.unscaled * b.unscaled, s));
    assert Value(a) == Value(Decimal(a.unscaled * Pow10(e), s));
    assert RealAbs(Value(b)) * Ten(-p) == Value(Decimal(AbsInt(b.unscaled), s));
    NearestCongruence(Value(r) * Value(b), Value(a), RealAbs(Value(b)) * Ten(-p),
                      Value(Decimal(r.unscaled * b.unscaled, s)), Value(Decimal(a.unscaled * Pow10(e), s)),
                      Value(Decimal(AbsInt(b.unscaled), s)));
  }

  lemma DivideAtScaleNegative(a: Decimal, b: Decimal, p: int, r: Decimal)
    requires b.unscaled != 0 && b.scale - a.scale + p < 0
    requires r == DivideHalfUp(a, b, p)
    ensures RoundsHalfUp(r, a, b, p)
  {
    var k := a.scale - b.scale - p;
    var m := b.unscaled * Pow10(k);
    var s := p + b.scale;
    MulValue(r, b);
    assert r.scale + b.scale == s;
    assert Value(r) * Value(b) == Value(Decimal(r.unscaled * b.unscaled, s));
    ValueRescale(r.unscaled * b.unscaled, s, k);
    assert s + k == a.scale;
    MulAssoc(r.unscaled, b.unscaled, Pow10(k));
    assert Value(r) * Value(b) == Value(Decimal(r.unscaled * m, a.scale));
    DivisorBound(b, p, k);
    AbsMul(b.unscaled, Pow10(k));
    assert RealAbs(Value(b)) * Ten(-p) == Value(Decimal(AbsInt(m), a.scale));
    assert r.unscaled == RoundHalfUpQuotient(a.unscaled, m);
    NearestAtScale(r.unscaled, m, a.unscaled, a.scale);
    NearestCongruence(Value(r) * Value(b), Value(a), RealAbs(Value(b)) * Ten(-p),
                      Value(Decimal(r.unscaled * m, a.scale)), Value(Decimal(a.unscaled, a.scale)),
                      Value(Decimal(AbsInt(m), a.scale)));
  }

  lemma NearestCongruence(x: real, y: real, w: real, x': real, y': real, w': real)
    requires x == x' && y == y' && w == w'
    requires HalfUpNearest(x', y', w')
    ensures HalfUpNearest(x, y, w)
  {
  }

  lemma MulCongruence(x: real, y: real, t: real)
    requires x == y
    ensures x * t == y * t
  {
  }

  lemma MulAssoc(x: int, y: int, z: int)
    ensures x * y * z == x * (y * z)
  {
  }

  lemma NegMul(x: int, y: int)
    ensures (-x) * y == -(x * y)
  {
  }

  /** The digits of n left of its last k digits: n / 10^k. */
  function DropDigits(n: nat, k: nat): (q: nat)
    ensures q * Pow10(k) + n % Pow10(k) == n
  {
    var p := Pow10(k);
    DivModNat(n, p);
    n / p
  }

  lemma DivModNat(n: nat, p: int)
    requires p >= 1
    ensures n / p >= 0 && (n / p) * p + n % p == n
  {
  }

  /** A multiple of 10^k with k > 0 ends in the digit 0. */
  lemma MultipleOfPowerEndsInZero(x: int, k: nat)
    requires k > 0
    ensures x * Pow10(k) == (x * Pow10(k - 1)) * 10
    ensures (x * Pow10(k)) % 10 == 0
  {
    var p := Pow10(k - 1);
    assert Pow10(k) == p * 10;
    MulAssoc(x, p, 10);
  }

  lemma MulZero(x: int, p: int)
    requires p >= 1
    ensures x * p == 0 <==> x == 0
  {
    MulAwayFromZero(x, p);
  }

  lemma AbsMul(x: int, y: nat)
    ensures AbsInt(x) * y == AbsInt(x * y)
  {
  }

  /**
    BigDecimal.setScale(p, RoundingMode.HALF_UP): the same number with exactly p
    fractional digits; exact when digits are only added, otherwise rounded to the
    nearest unit of 10^(−p) with halves away from zero.
  */
  function SetScaleHalfUp(d: Decimal, p: int): (r: Decimal)
    ensures r.scale == p
    ensures p >= d.scale ==> r.unscaled == d.unscaled * Pow10(p - d.scale)
  {
    DivideHalfUp(d, One, p)
  }

  /** Rounding moves the value by at most half a unit of 10^(-p), and a tie moves it away from zero. */
  lemma SetScaleHalfUpNearest(d: Decimal, p: int)
    ensures HalfUpNearest(Value(SetScaleHalfUp(d, p)), Value(d), Ten(-p))
  {
    var r := SetScaleHalfUp(d, p);
    DivideHalfUpNearest(d, One, p);
    assert Value(One) == 1.0;
    assert RealAbs(Value(One)) * Ten(-p) == Ten(-p);
    NearestCongruence(Value(r), Value(d), Ten(-p), Value(r) * Value(One), Value(d), RealAbs(Value(One)) * Ten(-p));
  }

  /** Adding fractional digits keeps the value. */
  lemma SetScaleHalfUpExact(d: Decimal, p: int)
    requires p >= d.scale
    ensures Value(SetScaleHalfUp(d, p)) == Value(d)
  {
    ValueRescale(d.unscaled, d.scale, p - d.scale);
    assert d.scale + (p - d.scale) == p;
  }

  /** A decimal with no trailing zero digit in its unscaled value, or the zero 0 at scale 0. */
  predicate Stripped(d: Decimal)
  {
    d == Zero || d.unscaled % 10 != 0
  }

  /**
    BigDecimal.stripTrailingZeros(): removes zero digits from the right of the
    unscaled value, lowering the scale by one each time; every zero becomes 0 at
    scale 0.
  */
  function StripTrailingZeros(d: Decimal): (r: Decimal)
    ensures Value(r) == Value(d)
    ensures Stripped(r)
    decreases AbsInt(d.unscaled)
  {
    if d.unscaled == 0 then
      Zero
    else if d.unscaled % 10 == 0 then
      var u := d.unscaled / 10;
      assert d.unscaled == u * 10;
      ValueRescale(u, d.scale - 1, 1);
      assert d.scale - 1 + 1 == d.scale;
      StripTrailingZeros(Decimal(u, d.scale - 1))
    else
      d
  }

  /** Two values are equal exactly when their unscaled integers agree after rescaling to one scale. */
  lemma ValueEqualRescaled(a: Decimal, b: Decimal)
    requires a.scale <= b.scale
    ensures Value(a) == Value(b) <==> a.unscaled * Pow10(b.scale - a.scale) == b.unscaled
  {
    var k := b.scale - a.scale;
    ValueRescale(a.unscaled, a.scale, k);
    assert a.scale + k == b.scale;
    ValueMonotoneAtScale(a.unscaled * Pow10(k), b.unscaled, b.scale);
  }

  lemma {:induction false} StrippedUnique(a: Decimal, b: Decimal)
    requires Stripped(a) && Stripped(b) && Value(a) == Value(b)
    ensures a == b
  {
    if a.scale <= b.scale {
      StrippedUniqueOrdered(a, b);
    } else {
      StrippedUniqueOrdered(b, a);
    }
  }

  lemma StrippedUniqueOrdered(a: Decimal, b: Decimal)
    requires Stripped(a) && Stripped(b) && Value(a) == Value(b) && a.scale <= b.scale
    ensures a == b
  {
    ValueEqualRescaled(a, b);
    var k := b.scale - a.scale;
    if k > 0 {
      MultipleOfPowerEndsInZero(a.unscaled, k);
    }
    MulZero(a.unscaled, Pow10(k));
  }

  /** Equal values strip to the same decimal, whatever their scales. */
  lemma StripTrailingZerosCanonical(a: Decimal, b: Decimal)
    requires Value(a) == Value(b)
    ensures StripTrailingZeros(a) == StripTrailingZeros(b)
  {
    StrippedUnique(StripTrailingZeros(a), StripTrailingZeros(b));
  }

  /** A real number with no fractional part. */
  predicate IsWhole(x: real)
  {
    x.Floor as real == x
  }

  lemma WholeOfNonPositiveScale(d: Decimal)
    requires d.scale <= 0
    ensures Value(d) == (d.unscaled * Pow10(-d.scale)) as real
    ensures IsWhole(Value(d))
  {
    TenOfNat(-d.scale);
    CastMul(d.unscaled, Pow10(-d.scale));
  }

  /** A whole value written with fractional digits has a zero as its last digit. */
  lemma WholeEndsInZero(d: Decimal)
    ensures d.scale > 0 && IsWhole(Value(d)) ==> d.unscaled % 10 == 0
  {
    if d.scale > 0 && IsWhole(Value(d)) {
      var n := Value(d).Floor;
      ValueOfScaleZero(n);
      ValueEqualRescaled(Decimal(n, 0), d);
      MultipleOfPowerEndsInZero(n, d.scale);
    }
  }

  /**
    The test `stripTrailingZeros().scale() <= 0` holds exactly for the decimals
    whose value is a whole number.
  */
  lemma WholeIffStrippedScale(d: Decimal)
    ensures StripTrailingZeros(d).scale <= 0 <==> IsWhole(Value(d))
  {
    var r := StripTrailingZeros(d);
    if r.scale <= 0 {
      WholeOfNonPositiveScale(r);
    } else {
      WholeEndsInZero(r);
    }
  }

  /** The whole number a decimal stands for, truncating any fraction toward zero. */
  function Trunc(d: Decimal): (r: int)
    ensures IsWhole(Value(d)) ==> r as real == Value(d)
  {
    if d.scale <= 0 then
      WholeOfNonPositiveScale(d);
      d.unscaled * Pow10(-d.scale)
    else
      TruncWhole(d);
      if d.unscaled >= 0 then d.unscaled / Pow10(d.scale) else -((-d.unscaled) / Pow10(d.scale))
  }

  lemma TruncWhole(d: Decimal)
    requires d.scale > 0
    ensures IsWhole(Value(d)) ==>
      (if d.unscaled >= 0 then d.unscaled / Pow10(d.scale) else -((-d.unscaled) / Pow10(d.scale))) as real == Value(d)
  {
    if IsWhole(Value(d)) {
      var n := Value(d).Floor;
      ValueOfScaleZero(n);
      ValueEqualRescaled(Decimal(n, 0), d);
      var p := Pow10(d.scale);
      assert d.unscaled == n * p;
      if d.unscaled >= 0 {
        ExactQuotient(n, p);
      } else {
        assert -d.unscaled == (-n) * p;
        ExactQuotient(-n, p);
      }
    }
  }

  lemma ExactQuotient(n: int, p: int)
    requires p > 0
    ensures (n * p) / p == n && (n * p) % p == 0
  {
    var q, r := (n * p) / p, (n * p) % p;
    assert (n - q) * p == r by {
      assert n * p == q * p + r;
    }
    MulAwayFromZero(n - q, p);
  }

  lemma MulAwayFromZero(x: int, p: int)
    requires p > 0
    ensures x >= 1 ==> x * p >= p
    ensures x <= -1 ==> x * p <= -p
  {
  }

  /** Java's 32-bit int wrap-around: the value congruent to n modulo 2^32 in [−2^31, 2^31). */
  function Wrap32(n: int): (r: int)
    ensures -0x8000_0000 <= r < 0x8000_0000
    ensures (r - n) % 0x1_0000_0000 == 0
  {
    (n + 0x8000_0000) % 0x1_0000_0000 - 0x8000_0000
  }

  /**
    BigDecimal.intValue(): the fraction is discarded and only the low 32 bits
    of the whole part are kept.
  */
  function IntValue(d: Decimal): int
  {
    Wrap32(Trunc(d))
  }

  /** For a whole value in int range, intValue() is that value. */
  lemma IntValueOfWhole(d: Decimal)
    requires IsWhole(Value(d)) && -0x8000_0000 as real <= Value(d) < 0x8000_0000 as real
    ensures IntValue(d) as real == Value(d)
  {
  }

  /**
    The cast `(int) x` of a double x that is a finite number: the fraction is
    discarded and a whole part outside the int range saturates at the nearest
    end of the range.
  */
  function SaturatingIntCast(d: Decimal): (r: int)
    ensures -0x8000_0000 <= r < 0x8000_0000
    ensures -0x8000_0000 <= Trunc(d) < 0x8000_0000 ==> r == Trunc(d)
    ensures Trunc(d) >= 0x8000_0000 ==> r == 0x7fff_ffff
    ensures Trunc(d) < -0x8000_0000 ==> r == -0x8000_0000
  {
    var n := Trunc(d);
    if n < -0x8000_0000 then -0x8000_0000 else if n >= 0x8000_0000 then 0x7fff_ffff else n
  }

  /**
    With p > 0 fractional digits, a decimal is a whole number exactly when its
    last p digits are zeros.
  */
  lemma WholeIffDivisible(d: Decimal)
    requires d.scale > 0
    ensures IsWhole(Value(d)) <==> AbsInt(d.unscaled) % Pow10(d.scale) == 0
  {
    var p := Pow10(d.scale);
    if IsWhole(Value(d)) {
      var n := Value(d).Floor;
      ValueOfScaleZero(n);
      ValueEqualRescaled(Decimal(n, 0), d);
      assert d.unscaled == n * p;
      AbsMul(n, p);
      ExactQuotient(AbsInt(n), p);
    }
    if AbsInt(d.unscaled) % p == 0 {
      var q: int := DropDigits(AbsInt(d.unscaled), d.scale);
      var v: int := if d.unscaled < 0 then -q else q;
      NegMul(q, p);
      assert d.unscaled == v * p;
      ValueRescale(v, 0, d.scale);
      assert 0 + d.scale == d.scale;
      ValueOfScaleZero(v);
    }
  }

  /** Rounding a zero gives a zero. */
  lemma SetScaleOfZero(d: Decimal, p: int)
    requires Value(d) == 0.0
    ensures Value(SetScaleHalfUp(d, p)) == 0.0
  {
    ValueMonotoneAtScale(d.unscaled, 0, d.scale);
    assert d.unscaled == 0;
    ValueMonotoneAtScale(SetScaleHalfUp(d, p).unscaled, 0, p);
  }
}
