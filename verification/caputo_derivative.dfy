/**
  The term computation behind the Caputo fractional derivative of a
  polynomial (CaputoDerivativeComputationService).

  For an order α that is zero the terms are kept; for a whole α every term
  c·x^k with k ≥ α becomes c·k·(k−1)···(k−α+1)·x^(k−α); for any other α every
  term becomes c·Γ(k+1)/Γ(k−α+1)·x^(k−α). The result is sorted by descending
  power. The gamma function and the 34-digit division are parameters.
*/
module CaputoDerivativeComputation {
  import opened Wrappers
  import opened Decimals
  import opened Terms
  import opened MathUtils

  /** BigDecimal.divide(divisor, MathContext.DECIMAL128), called with a non-zero divisor. */
  type Divide = (Decimal, Decimal) -> Decimal

  /** Why a term of the input contributes nothing to the result. */
  datatype Skip = ZeroCoefficient | BelowOrder | NegativePower | GammaFailed | ZeroDenominator

  /** What one input term contributes: one new term, or nothing for a reason. */
  datatype Outcome = Emitted(term: Term) | Skipped(reason: Skip)

  function Emit(o: Outcome): seq<Term>
  {
    if o.Emitted? then [o.term] else []
  }

  /** The terms emitted, in input order, when every input term is handled by f. */
  function Collect(terms: seq<Term>, f: Term -> Outcome): (r: seq<Term>)
    ensures |r| <= |terms|
  {
    if terms == [] then []
    else Collect(terms[..|terms| - 1], f) + Emit(f(terms[|terms| - 1]))
  }

  /** Each term is handled on its own: the result for a + b is the result for a, then for b. */
  lemma {:induction false} CollectConcat(a: seq<Term>, b: seq<Term>, f: Term -> Outcome)
    ensures Collect(a + b, f) == Collect(a, f) + Collect(b, f)
  {
    if b == [] {
      assert a + b == a;
    } else {
      var b' := b[..|b| - 1];
      assert (a + b)[..|a + b| - 1] == a + b';
      assert (a + b)[|a + b| - 1] == b[|b| - 1];
      CollectConcat(a, b', f);
    }
  }

  /** A term is in the result exactly when some input term is handled into it. */
  lemma {:induction false} CollectMembers(terms: seq<Term>, f: Term -> Outcome, t: Term)
    ensures t in Collect(terms, f) <==> exists i :: 0 <= i < |terms| && f(terms[i]) == Emitted(t)
  {
    if terms != [] {
      var init, last := terms[..|terms| - 1], terms[|terms| - 1];
      assert Collect(terms, f) == Collect(init, f) + Emit(f(last));
      assert t in Emit(f(last)) <==> f(last) == Emitted(t);
      CollectMembers(init, f, t);
      if t in Collect(init, f) {
        var i :| 0 <= i < |init| && f(init[i]) == Emitted(t);
        assert terms[i] == init[i];
      }
      if exists i :: 0 <= i < |terms| && f(terms[i]) == Emitted(t) {
        var i :| 0 <= i < |terms| && f(terms[i]) == Emitted(t);
        if i < |init| {
          assert init[i] == terms[i];
        }
      }
    }
  }

  // ---------------------------------------------------------------- whole order

  /**
    The coefficient after n passes of the inner loop:
    c·k·(k−1)···(k−n+1), each factor an exact BigDecimal product. The
    definition is split over three functions so that the solver unfolds one
    pass only when FallingProductUnfold is called.
  */
  function FallingProduct(c: Decimal, k: Decimal, n: nat): Decimal
    decreases n, 2
  {
    if n == 0 then c else FallingProductStep(c, k, n)
  }

  function FallingProductStep(c: Decimal, k: Decimal, n: nat): Decimal
    requires n > 0
    decreases n, 1
  {
    FallingProductPass(c, k, n)
  }

  /** Pass n − 1 of `newCoefficient = newCoefficient.multiply(currentDegree.subtract(valueOf(j)))`. */
  function FallingProductPass(c: Decimal, k: Decimal, n: nat): Decimal
    requires n > 0
    decreases n, 0
  {
    Mul(FallingProduct(c, k, n - 1), Sub(k, FromInt(n - 1)))
  }

  lemma FallingProductUnfold(c: Decimal, k: Decimal, n: nat)
    requires n > 0
    ensures FallingProduct(c, k, n) == Mul(FallingProduct(c, k, n - 1), Sub(k, FromInt(n - 1)))
  {
    assert FallingProduct(c, k, n) == FallingProductStep(c, k, n);
    assert FallingProductStep(c, k, n) == FallingProductPass(c, k, n);
  }

  /** The factor x − j of the falling factorial. */
  function Factor(x: real, j: nat): real
  {
    x - j as real
  }

  /** The falling factorial x·(x−1)···(x−n+1), with 1 for n = 0. */
  function FallingFactorial(x: real, n: nat): real
  {
    if n == 0 then 1.0 else FallingFactorial(x, n - 1) * Factor(x, n - 1)
  }

  /** a·x·(x−1)···(x−n+1), multiplied from the left as the loop does. */
  function ScaledFalling(a: real, x: real, n: nat): real
  {
    if n == 0 then a else ScaledFalling(a, x, n - 1) * Factor(x, n - 1)
  }

  lemma {:induction false} ScaledFallingProduct(a: real, x: real, n: nat)
    ensures ScaledFalling(a, x, n) == a * FallingFactorial(x, n)
  {
    if n > 0 {
      ScaledFallingProduct(a, x, n - 1);
    }
  }

  /** The value of pass n − 1: the running product times k − (n − 1). */
  lemma MulFactorValue(p: Decimal, k: Decimal, n: nat)
    requires n > 0
    ensures Value(Mul(p, Sub(k, FromInt(n - 1)))) == Value(p) * Factor(Value(k), n - 1)
  {
    ValueOfScaleZero(n - 1);
  }

  lemma {:induction false} FallingProductScaled(c: Decimal, k: Decimal, n: nat)
    ensures Value(FallingProduct(c, k, n)) == ScaledFalling(Value(c), Value(k), n)
  {
    if n > 0 {
      FallingProductScaled(c, k, n - 1);
      FallingProductUnfold(c, k, n);
      MulFactorValue(FallingProduct(c, k, n - 1), k, n);
    }
  }

  /** The exact products compute c times the falling factorial of k. */
  lemma FallingProductValue(c: Decimal, k: Decimal, n: nat)
    ensures Value(FallingProduct(c, k, n)) == Value(c) * FallingFactorial(Value(k), n)
  {
    FallingProductScaled(c, k, n);
    ScaledFallingProduct(Value(c), Value(k), n);
  }

  lemma AtLeastOneProduct(a: real, b: real)
    requires a >= 1.0 && b >= 1.0
    ensures a * b >= 1.0
  {
    assert a * b >= a * 1.0;
  }

  lemma NonZeroProduct(a: real, b: real)
    requires a != 0.0 && b >= 1.0
    ensures a * b != 0.0
  {
  }

  /** For x ≥ n every factor is at least 1. */
  lemma {:induction false} FallingFactorialAtLeastOne(x: real, n: nat)
    requires x >= n as real
    ensures FallingFactorial(x, n) >= 1.0
  {
    if n > 0 {
      FallingFactorialAtLeastOne(x, n - 1);
      AtLeastOneProduct(FallingFactorial(x, n - 1), Factor(x, n - 1));
    }
  }

  /** How often `for (int j = 0; j < intAlpha; j++)` runs. */
  function LoopCount(n: int): nat
  {
    if n > 0 then n else 0
  }

  /** One pass of the outer loop of computeIntegerOrderDerivativeTerms. */
  function IntegerOrderOutcome(t: Term, intAlpha: int): Outcome
  {
    if Compare(t.coefficient, Zero) == 0 then Skipped(ZeroCoefficient)
    else if Compare(t.power, FromInt(intAlpha)) < 0 then Skipped(BelowOrder)
    else
      var newDegree := Sub(t.power, FromInt(intAlpha));
      if Compare(newDegree, Zero) < 0 then Skipped(NegativePower)
      else Emitted(Term(FallingProduct(t.coefficient, t.power, LoopCount(intAlpha)), newDegree))
  }

  function IntegerOrderTerms(terms: seq<Term>, intAlpha: int): seq<Term>
  {
    Collect(terms, t => IntegerOrderOutcome(t, intAlpha))
  }

  /**
    A term is differentiated exactly when its coefficient is non-zero and its
    power is at least the order; the new term is c·k(k−1)···(k−n+1)·x^(k−n), its
    power is never negative and its coefficient never zero.
  */
  lemma IntegerOrderOutcomeMeaning(t: Term, intAlpha: int)
    ensures IntegerOrderOutcome(t, intAlpha).Emitted? <==>
              Value(t.coefficient) != 0.0 && Value(t.power) >= intAlpha as real
    ensures IntegerOrderOutcome(t, intAlpha) != Skipped(NegativePower)
    ensures IntegerOrderOutcome(t, intAlpha).Emitted? ==>
              var r := IntegerOrderOutcome(t, intAlpha).term;
              && Value(r.power) == Value(t.power) - intAlpha as real
              && Value(r.power) >= 0.0
              && Value(r.coefficient) == Value(t.coefficient) * FallingFactorial(Value(t.power), LoopCount(intAlpha))
              && Value(r.coefficient) != 0.0
  {
    ValueOfScaleZero(intAlpha);
    if IntegerOrderOutcome(t, intAlpha).Emitted? {
      assert Value(t.coefficient) != 0.0 && Value(t.power) >= intAlpha as real;
      EmittedCoefficient(t, intAlpha);
    }
  }

  /** The coefficient of a differentiated term is c·k(k−1)···(k−n+1), and it is not zero. */
  lemma EmittedCoefficient(t: Term, intAlpha: int)
    requires IntegerOrderOutcome(t, intAlpha).Emitted?
    requires Value(t.coefficient) != 0.0 && Value(t.power) >= intAlpha as real
    ensures Value(IntegerOrderOutcome(t, intAlpha).term.coefficient) ==
      Value(t.coefficient) * FallingFactorial(Value(t.power), LoopCount(intAlpha))
    ensures Value(IntegerOrderOutcome(t, intAlpha).term.coefficient) != 0.0
  {
    EmittedProduct(t, intAlpha);
    FallingProductNonZero(t.coefficient, t.power, LoopCount(intAlpha));
  }

  lemma EmittedProduct(t: Term, intAlpha: int)
    requires IntegerOrderOutcome(t, intAlpha).Emitted?
    ensures IntegerOrderOutcome(t, intAlpha).term.coefficient == FallingProduct(t.coefficient, t.power, LoopCount(intAlpha))
  {
  }

  /** For a nonzero c and k ≥ n the product c·k(k−1)···(k−n+1) is not zero. */
  lemma FallingProductNonZero(c: Decimal, k: Decimal, n: nat)
    requires Value(c) != 0.0 && (n > 0 ==> Value(k) >= n as real)
    ensures Value(FallingProduct(c, k, n)) == Value(c) * FallingFactorial(Value(k), n)
    ensures Value(FallingProduct(c, k, n)) != 0.0
  {
    FallingProductValue(c, k, n);
    if n > 0 {
      FallingFactorialAtLeastOne(Value(k), n);
    }
    NonZeroProduct(Value(c), FallingFactorial(Value(k), n));
  }

  /**
    One pass of the outer loop of computeIntegerOrderDerivativeTerms: the
    guard, the inner loop that multiplies in k, k−1, …, k−n+1, and the check
    on the new power.
  */
  method DifferentiateTerm(t: Term, intAlpha: int) returns (o: Outcome)
    ensures o == IntegerOrderOutcome(t, intAlpha)
  {
    var coefficient := t.coefficient;
    var currentDegree := t.power;
    if Compare(coefficient, Zero) == 0 {
      return Skipped(ZeroCoefficient);
    }
    if Compare(currentDegree, FromInt(intAlpha)) < 0 {
      return Skipped(BelowOrder);
    }
    var newCoefficient := coefficient;
    var j := 0;
    while j < intAlpha
      invariant 0 <= j <= LoopCount(intAlpha)
      invariant newCoefficient == FallingProduct(coefficient, currentDegree, j)
    {
      FallingProductUnfold(coefficient, currentDegree, j + 1);
      newCoefficient := Mul(newCoefficient, Sub(currentDegree, FromInt(j)));
      j := j + 1;
    }
    var newDegree := Sub(currentDegree, FromInt(intAlpha));
    if Compare(newDegree, Zero) < 0 {
      return Skipped(NegativePower);
    }
    return Emitted(Term(newCoefficient, newDegree));
  }

  /** Method form of computeIntegerOrderDerivativeTerms: appends to computedTerms. */
  method ComputeIntegerOrderDerivativeTerms(terms: seq<Term>, intAlpha: int, computedTerms: seq<Term>)
    returns (result: seq<Term>)
    ensures result == computedTerms + IntegerOrderTerms(terms, intAlpha)
  {
    result := computedTerms;
    for i := 0 to |terms|
      invariant result == computedTerms + IntegerOrderTerms(terms[..i], intAlpha)
    {
      var outcome := DifferentiateTerm(terms[i], intAlpha);
      if outcome.Emitted? {
        result := result + [outcome.term];
      }
      assert terms[..i + 1][..i] == terms[..i];
    }
    assert terms[..|terms|] == terms;
  }

  // ----------------------------------------------------------- fractional order

  /** One pass of the loop of computeFractionalOrderDerivativeTerms. */
  function FractionalOrderOutcome(t: Term, alpha: Decimal, gamma: Gamma, divide: Divide): Outcome
  {
    if Compare(t.coefficient, Zero) == 0 then Skipped(ZeroCoefficient)
    else
      var k := t.power;
      match gamma(Add(k, One))
      case None => Skipped(GammaFailed)
      case Some(gammaNumerator) =>
        match gamma(Add(Sub(k, alpha), One))
        case None => Skipped(GammaFailed)
        case Some(gammaDenominator) =>
          if Compare(gammaDenominator, Zero) == 0 then Skipped(ZeroDenominator)
          else Emitted(Term(Mul(t.coefficient, divide(gammaNumerator, gammaDenominator)), Sub(k, alpha)))
  }

  function FractionalOrderTerms(terms: seq<Term>, alpha: Decimal, gamma: Gamma, divide: Divide): seq<Term>
  {
    Collect(terms, t => FractionalOrderOutcome(t, alpha, gamma, divide))
  }

  /**
    A term is kept exactly when its coefficient is non-zero, both gamma calls
    succeed and Γ(k−α+1) is non-zero; the new power is k − α, whatever its
    sign, and the coefficient is c times the quotient of the two gamma values.
  */
  lemma FractionalOrderOutcomeMeaning(t: Term, alpha: Decimal, gamma: Gamma, divide: Divide)
    ensures FractionalOrderOutcome(t, alpha, gamma, divide).Emitted? <==>
              && Value(t.coefficient) != 0.0
              && gamma(Add(t.power, One)).Some?
              && gamma(Add(Sub(t.power, alpha), One)).Some?
              && Value(gamma(Add(Sub(t.power, alpha), One)).value) != 0.0
    ensures FractionalOrderOutcome(t, alpha, gamma, divide).Emitted? ==>
              var r := FractionalOrderOutcome(t, alpha, gamma, divide).term;
              && Value(r.power) == Value(t.power) - Value(alpha)
              && Value(r.coefficient) == Value(t.coefficient) *
                   Value(divide(gamma(Add(t.power, One)).value, gamma(Add(Sub(t.power, alpha), One)).value))
  {
  }

  /** Method form of computeFractionalOrderDerivativeTerms: appends to computedTerms. */
  method ComputeFractionalOrderDerivativeTerms(terms: seq<Term>, alpha: Decimal, gamma: Gamma, divide: Divide,
                                               computedTerms: seq<Term>)
    returns (result: seq<Term>)
    ensures result == computedTerms + FractionalOrderTerms(terms, alpha, gamma, divide)
  {
    result := computedTerms;
    for i := 0 to |terms|
      invariant result == computedTerms + FractionalOrderTerms(terms[..i], alpha, gamma, divide)
    {
      var coefficient := terms[i].coefficient;
      var k := terms[i].power;
      if Compare(coefficient, Zero) != 0 {
        var gammaNumerator := gamma(Add(k, One));
        var gammaDenominator := gamma(Add(Sub(k, alpha), One));
        // a gamma call that throws ends the pass without adding a term
        if gammaNumerator.Some? && gammaDenominator.Some? {
          if Compare(gammaDenominator.value, Zero) != 0 {
            var gammaCoefficient := divide(gammaNumerator.value, gammaDenominator.value);
            var newCoefficient := Mul(coefficient, gammaCoefficient);
            var newPower := Sub(k, alpha);
            result := result + [Term(newCoefficient, newPower)];
          }
        }
      }
      assert terms[..i + 1][..i] == terms[..i];
    }
    assert terms[..|terms|] == terms;
  }

  // ------------------------------------------------------------------ dispatch

  /** The unsorted terms computeTerms collects for order alpha. */
  function CaputoDerivativeTerms(terms: seq<Term>, alpha: Decimal, gamma: Gamma, divide: Divide): seq<Term>
  {
    if Compare(alpha, Zero) == 0 then terms
    else if StripTrailingZeros(alpha).scale <= 0 then IntegerOrderTerms(terms, IntValue(alpha))
    else FractionalOrderTerms(terms, alpha, gamma, divide)
  }

  /**
    computeTerms: the derivative's terms, sorted by descending power, with the
    terms of one power in the order they were computed.
  */
  method ComputeTerms(terms: seq<Term>, alpha: Decimal, gamma: Gamma, divide: Divide)
    returns (computedTerms: seq<Term>)
    ensures computedTerms == SortByPowerDescending(CaputoDerivativeTerms(terms, alpha, gamma, divide))
    ensures DescendingPowers(computedTerms)
    ensures multiset(computedTerms) == multiset(CaputoDerivativeTerms(terms, alpha, gamma, divide))
    ensures forall v :: WithPower(computedTerms, v) == WithPower(CaputoDerivativeTerms(terms, alpha, gamma, divide), v)
  {
    computedTerms := [];
    if Compare(alpha, Zero) == 0 {
      computedTerms := computedTerms + terms;
    } else if StripTrailingZeros(alpha).scale <= 0 {
      computedTerms := ComputeIntegerOrderDerivativeTerms(terms, IntValue(alpha), computedTerms);
    } else {
      computedTerms := ComputeFractionalOrderDerivativeTerms(terms, alpha, gamma, divide, computedTerms);
    }
    assert computedTerms == CaputoDerivativeTerms(terms, alpha, gamma, divide);
    SortByPowerDescendingSorts(computedTerms);
    forall v {
      SortByPowerDescendingStable(computedTerms, v);
    }
    computedTerms := SortByPowerDescending(computedTerms);
  }

  /**
    The order decides the path by value: zero keeps the terms, a non-zero
    whole order (2, 2.0, 2.00) differentiates that many times, anything else
    takes the gamma path.
  */
  lemma CaputoDerivativeDispatch(terms: seq<Term>, alpha: Decimal, gamma: Gamma, divide: Divide)
    ensures Value(alpha) == 0.0 ==> CaputoDerivativeTerms(terms, alpha, gamma, divide) == terms
    ensures Value(alpha) != 0.0 && IsWhole(Value(alpha)) ==>
              CaputoDerivativeTerms(terms, alpha, gamma, divide) == IntegerOrderTerms(terms, IntValue(alpha))
    ensures !IsWhole(Value(alpha)) ==>
              CaputoDerivativeTerms(terms, alpha, gamma, divide) == FractionalOrderTerms(terms, alpha, gamma, divide)
  {
    WholeIffStrippedScale(alpha);
  }

  /** Never more terms out than in, except that order zero keeps them all. */
  lemma CaputoDerivativeLength(terms: seq<Term>, alpha: Decimal, gamma: Gamma, divide: Divide)
    ensures |CaputoDerivativeTerms(terms, alpha, gamma, divide)| <= |terms|
    ensures Value(alpha) == 0.0 ==> |CaputoDerivativeTerms(terms, alpha, gamma, divide)| == |terms|
  {
  }

  /** On the whole-order path every power in the result is non-negative. */
  lemma IntegerOrderPowersNonNegative(terms: seq<Term>, intAlpha: int)
    ensures forall t :: t in IntegerOrderTerms(terms, intAlpha) ==> Value(t.power) >= 0.0
  {
    forall t | t in IntegerOrderTerms(terms, intAlpha)
      ensures Value(t.power) >= 0.0
    {
      CollectMembers(terms, u => IntegerOrderOutcome(u, intAlpha), t);
      var i :| 0 <= i < |terms| && IntegerOrderOutcome(terms[i], intAlpha) == Emitted(t);
      IntegerOrderOutcomeMeaning(terms[i], intAlpha);
    }
  }

  /** In the first derivative of 3x² + 2x + 5, the term 3x² becomes 6x. */
  lemma FirstDerivativeOfSquare()
    ensures IntegerOrderOutcome(Term(FromInt(3), FromInt(2)), 1) == Emitted(Term(FromInt(6), FromInt(1)))
  {
    FallingProductUnfold(FromInt(3), FromInt(2), 1);
  }

  /** In the first derivative of 3x² + 2x + 5, the term 2x becomes 2. */
  lemma FirstDerivativeOfLinear()
    ensures IntegerOrderOutcome(Term(FromInt(2), FromInt(1)), 1) == Emitted(Term(FromInt(2), FromInt(0)))
  {
    FallingProductUnfold(FromInt(2), FromInt(1), 1);
  }

  /** In the first derivative of 3x² + 2x + 5, the constant 5 is dropped: its power is below the order. */
  lemma FirstDerivativeOfConstant()
    ensures IntegerOrderOutcome(Term(FromInt(5), FromInt(0)), 1) == Skipped(BelowOrder)
  {
  }
}
