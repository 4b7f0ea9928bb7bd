/**
  The formatter of Caputo fractional integrals (CaputoIntegralFormattingService).
  It writes the integrated terms with the shared formatter, skipping no term
  and writing a zero polynomial as "C", and then appends the constants of
  integration: one constant C for a fractional order or the order one, and for
  a whole order n > 1 the n constants C, D, E, … each times x^(n−1−i)/Γ(n−i).
*/
module CaputoIntegralFormatting {
  import opened Wrappers
  import opened Decimals
  import opened DecimalText
  import opened Terms
  import opened MathUtils
  import opened BaseFormatting

  /** shouldSkipTerm is false for every term; getZeroPolynomialResult is "C". */
  const IntegralHooks: FormatHooks := FormatHooks(t => false, "C")

  /**
    `(char) ('C' + i)`: the code unit 'C' + i, kept to 16 bits. A code unit in
    the surrogate range is not a character on its own and stands as U+FFFD.
  */
  function ConstantName(i: nat): (c: char)
    ensures i < 24 ==> c as int == 'C' as int + i
    ensures i < 24 ==> 'C' <= c <= 'Z'
  {
    var code := (67 + i) % 0x1_0000;
    if 0xD800 <= code < 0xE000 then 0xFFFD as char else code as char
  }

  /** The variable part of a constant: "x" for the power 1, "x^k" for a power k > 1, else nothing. */
  function ConstantPower(k: int): string
  {
    if k > 0 then "x" + (if k > 1 then "^" + IntToString(k) else "") else ""
  }

  /**
    `ONE.divide(gamma(valueOf(k)), precision, HALF_UP)`: the reciprocal of
    Γ(k), or None when gamma throws or returns zero (ArithmeticException).
  */
  function ConstantCoefficient(k: int, precision: int, gamma: Gamma): Option<Decimal>
  {
    match gamma(FromInt(k))
    case None => None
    case Some(g) => if g.unscaled == 0 then None else Some(DivideHalfUp(One, g, precision))
  }

  /**
    The reciprocal exists exactly when gamma returns a nonzero value, and it is
    1/Γ(k) rounded half-up to `precision` fractional digits.
  */
  lemma ConstantCoefficientMeaning(k: int, precision: int, gamma: Gamma)
    ensures ConstantCoefficient(k, precision, gamma).Some? <==>
      gamma(FromInt(k)).Some? && Value(gamma(FromInt(k)).value) != 0.0
    ensures ConstantCoefficient(k, precision, gamma).Some? ==>
      ConstantCoefficient(k, precision, gamma).value.scale == precision &&
      RoundsHalfUp(ConstantCoefficient(k, precision, gamma).value, One, gamma(FromInt(k)).value, precision)
  {
    if gamma(FromInt(k)).Some? {
      var g := gamma(FromInt(k)).value;
      ValueMonotoneAtScale(g.unscaled, 0, g.scale);
      ValueMonotoneAtScale(0, g.unscaled, g.scale);
      if g.unscaled != 0 {
        DivideHalfUpNearest(One, g, precision);
      }
    }
  }

  /** The coefficient of a constant as written: nothing when it equals one, else formatCoefficient's text. */
  function ConstantNumeral(cc: Decimal, precision: int): string
  {
    if Compare(cc, One) == 0 then "" else FormatCoefficient(cc, precision)
  }

  /** The i-th constant of an order-n integral: coefficient, letter and variable part. */
  function ConstantText(n: int, i: nat, precision: int, gamma: Gamma): Option<string>
  {
    match ConstantCoefficient(n - i, precision, gamma)
    case None => None
    case Some(cc) => Some(ConstantPiece(cc, ConstantName(i), n - i - 1, precision))
  }

  /** A constant as appended: its coefficient unless that equals one, its letter and x^power. */
  function ConstantPiece(cc: Decimal, constant: char, power: int, precision: int): string
  {
    ConstantNumeral(cc, precision) + [constant] + ConstantPower(power)
  }

  /** `text` followed by " + " when it is not empty. */
  function Joined(text: string): (r: string)
    ensures text == "" ==> r == ""
    ensures text != "" ==> r == text + " + "
  {
    if text != "" then text + " + " else text
  }

  /**
    The text a loop builds from `result` by appending, for i = 0 … k−1, " + "
    when the text is not empty and then piece(i); None once a piece fails.
  */
  function Appended(result: string, k: nat, piece: nat -> Option<string>): Option<string>
  {
    if k == 0 then Some(result)
    else
      match Appended(result, k - 1, piece)
      case None => None
      case Some(sb) =>
        match piece(k - 1)
        case None => None
        case Some(text) => Some(Joined(sb) + text)
  }

  /** The text of a piece that exists, nothing otherwise. */
  function PieceText(p: Option<string>): string
  {
    if p.Some? then p.value else ""
  }

  /** The pieces lo, …, hi−1 one after the other, each preceded by " + ". */
  function PlusEach(lo: nat, hi: nat, piece: nat -> Option<string>): string
    decreases hi - lo
  {
    if lo >= hi then "" else " + " + PieceText(piece(lo)) + PlusEach(lo + 1, hi, piece)
  }

  lemma {:induction false} PlusEachSnoc(lo: nat, hi: nat, piece: nat -> Option<string>)
    requires lo <= hi
    ensures PlusEach(lo, hi + 1, piece) == PlusEach(lo, hi, piece) + " + " + PieceText(piece(hi))
    decreases hi - lo
  {
    if lo < hi {
      PlusEachSnoc(lo + 1, hi, piece);
      var t := PieceText(piece(lo));
      ConcatAssoc4(" + " + t, PlusEach(lo + 1, hi, piece), " + ", PieceText(piece(hi)));
    }
  }

  /**
    When every piece exists and is not empty, the loop writes each piece after
    " + ", except a first piece written on an empty text, which stands alone:
    a constant is never joined in any other way.
  */
  lemma {:induction false} AppendedJoinsWithPlus(result: string, k: nat, piece: nat -> Option<string>)
    requires forall j: nat :: j < k ==> piece(j).Some? && piece(j).value != ""
    ensures result != "" ==> Appended(result, k, piece) == Some(result + PlusEach(0, k, piece))
    ensures result == "" && k > 0 ==> Appended(result, k, piece) == Some(piece(0).value + PlusEach(1, k, piece))
  {
    if k == 0 {
      assert result + PlusEach(0, 0, piece) == result;
    } else {
      AppendedJoinsWithPlus(result, k - 1, piece);
      var t := piece(k - 1).value;
      if result != "" {
        PlusEachSnoc(0, k - 1, piece);
        var sb := result + PlusEach(0, k - 1, piece);
        assert Appended(result, k, piece) == Some(sb + " + " + t);
        ConcatAssoc4(result, PlusEach(0, k - 1, piece), " + ", t);
      } else if k > 1 {
        PlusEachSnoc(1, k - 1, piece);
        var sb := piece(0).value + PlusEach(1, k - 1, piece);
        assert Appended(result, k, piece) == Some(sb + " + " + t);
        ConcatAssoc4(piece(0).value, PlusEach(1, k - 1, piece), " + ", t);
      } else {
        assert Appended(result, 1, piece) == Some(Joined("") + t);
        assert Joined("") + t == t + PlusEach(1, 1, piece);
      }
    }
  }

  /** Once a piece has failed, the loop fails whatever follows. */
  lemma {:induction false} AppendedStaysFailed(result: string, piece: nat -> Option<string>, k: nat, m: nat)
    requires k <= m && Appended(result, k, piece) == None
    ensures Appended(result, m, piece) == None
  {
    if k < m {
      AppendedStaysFailed(result, piece, k, m - 1);
    }
  }

  /** The loop depends only on the pieces it uses. */
  lemma {:induction false} AppendedAgree(result: string, k: nat, piece: nat -> Option<string>, other: nat -> Option<string>)
    requires forall j: nat :: j < k ==> piece(j) == other(j)
    ensures Appended(result, k, piece) == Appended(result, k, other)
  {
    if k > 0 {
      AppendedAgree(result, k - 1, piece, other);
    }
  }

  /** The constants of an order-n integral, by index. */
  function ConstantTexts(n: int, precision: int, gamma: Gamma): nat -> Option<string>
  {
    (i: nat) => ConstantText(n, i, precision, gamma)
  }

  /**
    The text appendConstantsOfIntegration has built after the first k
    constants of an order-n integral, or None when a gamma call has failed.
  */
  function Constants(result: string, n: int, precision: int, gamma: Gamma, k: nat): Option<string>
  {
    Appended(result, k, ConstantTexts(n, precision, gamma))
  }

  /** `piece` gives the constants of an order-n integral, by index. */
  ghost predicate ListsConstants(piece: nat -> Option<string>, n: int, precision: int, gamma: Gamma)
  {
    forall j: nat {:trigger ConstantText(n, j, precision, gamma)} :: piece(j) == ConstantText(n, j, precision, gamma)
  }

  /**
    One pass of appendConstantsOfIntegration's loop after the separator: the
    gamma call and the division (None when either throws), then the
    coefficient unless it equals one, the constant's letter and x^power.
    The constant it appends is piece(i), the i-th constant.
  */
  method AppendConstant(sb: string, alphaInt: int, i: nat, precision: int, gamma: Gamma,
                        ghost piece: nat -> Option<string>)
    returns (r: Option<string>)
    requires ListsConstants(piece, alphaInt, precision, gamma)
    ensures r.None? <==> piece(i).None?
    ensures r.Some? ==> r.value == sb + piece(i).value
  {
    var constant := ConstantName(i);
    var g: Option<Decimal>;
    if i == 0 {
      g := gamma(FromInt(alphaInt));
    } else {
      g := gamma(FromInt(alphaInt - i));
    }
    assert g == gamma(FromInt(alphaInt - i));
    if g.None? || g.value.unscaled == 0 {
      assert piece(i) == ConstantText(alphaInt, i, precision, gamma);
      return None;
    }
    var constantCoefficient := DivideHalfUp(One, g.value, precision);
    var s := sb;
    var coefficientStr := FormatCoefficient(constantCoefficient, precision);
    if Compare(constantCoefficient, One) == 0 {
      coefficientStr := "";
    } else {
      s := s + coefficientStr;
    }
    assert s == sb + ConstantNumeral(constantCoefficient, precision);
    s := s + [constant];
    ghost var named := s;
    var power := alphaInt - i - 1;
    if power > 0 {
      s := s + "x";
      if power > 1 {
        s := s + "^" + IntToString(power);
        ConcatAssoc4(named, "x", "^", IntToString(power));
        ConcatAssoc3("x", "^", IntToString(power));
      }
    }
    assert s == named + ConstantPower(power);
    ConcatAssoc4(sb, ConstantNumeral(constantCoefficient, precision), [constant], ConstantPower(power));
    assert piece(i) == ConstantText(alphaInt, i, precision, gamma);
    return Some(s);
  }

  /**
    appendConstantsOfIntegration(result, alphaInt, precision): for each
    i < alphaInt, " + " when the text is not empty and then the i-th constant
    (`piece` names the constants, by index).
  */
  method AppendConstantsOfIntegration(result: string, alphaInt: int, precision: int, gamma: Gamma,
                                      ghost piece: nat -> Option<string>)
    returns (r: Option<string>)
    requires ListsConstants(piece, alphaInt, precision, gamma)
    ensures alphaInt <= 0 ==> r == Some(result)
    ensures alphaInt > 0 ==> r == Appended(result, alphaInt, piece)
  {
    var sb := result;
    var i := 0;
    while i < alphaInt
      invariant 0 <= i <= (if alphaInt > 0 then alphaInt else 0)
      invariant Appended(result, i, piece) == Some(sb)
    {
      if sb != "" {
        sb := sb + " + ";
      }
      var next := AppendConstant(sb, alphaInt, i, precision, gamma, piece);
      if next.None? {
        AppendedStaysFailed(result, piece, i + 1, alphaInt);
        return None;
      }
      sb := next.value;
      i := i + 1;
    }
    return Some(sb);
  }

  /** What the order contributes after the formatted terms: nothing, one constant C, or n constants. */
  function WithConstants(result: string, alpha: Decimal, precision: int, gamma: Gamma): Option<string>
  {
    var integerAlpha := StripTrailingZeros(alpha).scale <= 0;
    var alphaInt := SaturatingIntCast(alpha);
    if integerAlpha then
      if alphaInt > 1 then Constants(result, alphaInt, precision, gamma, alphaInt)
      else if alphaInt == 1 then Some(Joined(result) + "C")
      else Some(result)
    else
      Some(Joined(result) + "C")
  }

  /** formatTerms(terms, alpha, precision) as a value; alpha is the decimal BigDecimal.valueOf gives for the double. */
  function IntegralText(terms: seq<Term>, alpha: Decimal, precision: int, gamma: Gamma): Option<string>
  {
    WithConstants(BaseFormatting.FormattedTerms(terms, precision, IntegralHooks), alpha, precision, gamma)
  }

  /** formatTerms(terms, alpha, precision) of CaputoIntegralFormattingService. */
  method FormatTerms(terms: seq<Term>, alpha: Decimal, precision: int, gamma: Gamma) returns (r: Option<string>)
    ensures r == IntegralText(terms, alpha, precision, gamma)
  {
    var result := BaseFormatting.FormatTerms(terms, precision, IntegralHooks);
    var integerAlpha := StripTrailingZeros(alpha).scale <= 0;
    var alphaInt := SaturatingIntCast(alpha);
    if integerAlpha {
      if alphaInt > 1 {
        r := AppendConstantsOfIntegration(result, alphaInt, precision, gamma, ConstantTexts(alphaInt, precision, gamma));
        return r;
      } else if alphaInt == 1 {
        if result != "" {
          result := result + " + ";
        }
        result := result + "C";
      }
    } else {
      if result != "" {
        result := result + " + ";
      }
      result := result + "C";
    }
    return Some(result);
  }

  /** The formatted terms are never empty: a polynomial that rounds to zero is written "C". */
  lemma BaseTextNonEmpty(terms: seq<Term>, precision: int)
    ensures FormattedTerms(terms, precision, IntegralHooks) != ""
    ensures RoundsToZero(terms, precision, IntegralHooks) <==> FormattedTerms(terms, precision, IntegralHooks) == "C"
  {
    FormattedTermsMeaning(terms, precision, IntegralHooks);
    RenderedHead(terms, precision, IntegralHooks);
  }

  /** A fractional order, or the order one, appends the one constant C after the given text. */
  lemma SingleConstant(result: string, alpha: Decimal, precision: int, gamma: Gamma)
    requires !IsWhole(Value(alpha)) || Value(alpha) == 1.0
    ensures WithConstants(result, alpha, precision, gamma) == Some(Joined(result) + "C")
  {
    WholeIffStrippedScale(alpha);
  }

  /** A fractional order appends the one constant C after the terms. */
  lemma IntegralFractionalOrder(terms: seq<Term>, alpha: Decimal, precision: int, gamma: Gamma)
    requires !IsWhole(Value(alpha))
    ensures IntegralText(terms, alpha, precision, gamma) == Some(FormattedTerms(terms, precision, IntegralHooks) + " + C")
  {
    var base := FormattedTerms(terms, precision, IntegralHooks);
    BaseTextNonEmpty(terms, precision);
    SingleConstant(base, alpha, precision, gamma);
    assert Joined(base) + "C" == base + " + C";
  }

  /** The order one appends the one constant C after the terms. */
  lemma IntegralFirstOrder(terms: seq<Term>, alpha: Decimal, precision: int, gamma: Gamma)
    requires Value(alpha) == 1.0
    ensures IntegralText(terms, alpha, precision, gamma) == Some(FormattedTerms(terms, precision, IntegralHooks) + " + C")
  {
    var base := FormattedTerms(terms, precision, IntegralHooks);
    BaseTextNonEmpty(terms, precision);
    SingleConstant(base, alpha, precision, gamma);
    assert Joined(base) + "C" == base + " + C";
  }

  /** A whole order of zero or less appends nothing: the integral is written as the terms. */
  lemma IntegralNonPositiveOrder(terms: seq<Term>, alpha: Decimal, precision: int, gamma: Gamma)
    requires IsWhole(Value(alpha)) && Value(alpha) <= 0.0
    ensures IntegralText(terms, alpha, precision, gamma) == Some(FormattedTerms(terms, precision, IntegralHooks))
  {
    WholeIffStrippedScale(alpha);
  }

  /**
    A whole order n >= 2 appends the n constants; n is the order itself when
    it is within the int range, and 2^31 - 1 beyond it.
  */
  lemma IntegralHigherOrder(terms: seq<Term>, alpha: Decimal, precision: int, gamma: Gamma)
    requires IsWhole(Value(alpha)) && Value(alpha) >= 2.0
    ensures SaturatingIntCast(alpha) >= 2
    ensures Value(alpha) < 0x8000_0000 as real ==> SaturatingIntCast(alpha) as real == Value(alpha)
    ensures Value(alpha) >= 0x8000_0000 as real ==> SaturatingIntCast(alpha) == 0x7fff_ffff
    ensures IntegralText(terms, alpha, precision, gamma) ==
      Constants(FormattedTerms(terms, precision, IntegralHooks), SaturatingIntCast(alpha), precision, gamma, SaturatingIntCast(alpha))
  {
    WholeIffStrippedScale(alpha);
  }

  /**
    The variable part reads back as the power: nothing for a power of zero or
    less, "x" for one, and "x^" followed by the power's decimal text above one.
  */
  lemma ConstantPowerMeaning(k: int)
    ensures ConstantPower(k) == "" <==> k <= 0
    ensures ConstantPower(k) == "x" <==> k == 1
    ensures k > 1 ==> (|ConstantPower(k)| > 2 && ConstantPower(k)[..2] == "x^" &&
                       ParseDecimal(ConstantPower(k)[2..]) == Some(Decimal(k, 0)))
  {
    if k > 1 {
      var t := IntToString(k);
      ParseIntToString(k);
      CaretThen(t);
    }
  }

  /** "x" then "^" then t is "x^" followed by t. */
  lemma CaretThen(t: string)
    ensures "x" + ("^" + t) == "x^" + t
    ensures |"x^" + t| == |t| + 2
    ensures ("x^" + t)[..2] == "x^" && ("x^" + t)[2..] == t
  {
  }

  /**
    A constant's coefficient is left out exactly when it equals one; otherwise
    its text reads back as the coefficient rounded half-up to the precision,
    and unless its fraction is all zeros it is that rounded value's plain
    text with exactly `precision` digits after the point ("0.500").
  */
  lemma ConstantNumeralMeaning(cc: Decimal, precision: int)
    ensures ConstantNumeral(cc, precision) == "" <==> Value(cc) == 1.0
    ensures Value(cc) != 1.0 ==>
      ParseDecimal(ConstantNumeral(cc, precision)).Some? &&
      Value(ParseDecimal(ConstantNumeral(cc, precision)).value) == Value(SetScaleHalfUp(cc, precision))
    ensures Value(cc) != 1.0 && (precision <= 0 || !IsWhole(Value(SetScaleHalfUp(cc, precision)))) ==>
      ConstantNumeral(cc, precision) == ToPlainString(SetScaleHalfUp(cc, precision))
    ensures Value(cc) != 1.0 && '.' in ConstantNumeral(cc, precision) ==>
      |SplitOnDot(ConstantNumeral(cc, precision))| == 2 && |SplitOnDot(ConstantNumeral(cc, precision))[1]| == precision
  {
    FormatCoefficientHead(cc, precision);
    FormatCoefficientMeaning(cc, precision);
  }

  /** The loop completes exactly when every piece it asks for exists. */
  lemma {:induction false} AppendedSucceeds(result: string, k: nat, piece: nat -> Option<string>)
    ensures Appended(result, k, piece).Some? <==> forall j: nat :: j < k ==> piece(j).Some?
  {
    if k > 0 {
      AppendedSucceeds(result, k - 1, piece);
    }
  }

  /** The loop only appends: what it completes begins with the text it started from. */
  lemma {:induction false} AppendedExtends(result: string, k: nat, piece: nat -> Option<string>)
    ensures Appended(result, k, piece).Some? ==> result <= Appended(result, k, piece).value
  {
    if k > 0 {
      AppendedExtends(result, k - 1, piece);
      if Appended(result, k, piece).Some? {
        var sb := Appended(result, k - 1, piece).value;
        assert Appended(result, k, piece).value == sb + (if sb != "" then " + " else "") + piece(k - 1).value;
      }
    }
  }

  /**
    The n constants are all written exactly when gamma returns a nonzero value
    for every order 1, …, n; one failed or zero Γ fails the whole text.
  */
  lemma ConstantsSucceed(result: string, n: nat, precision: int, gamma: Gamma)
    ensures Constants(result, n, precision, gamma, n).Some? <==>
      forall m :: 1 <= m <= n ==> gamma(FromInt(m)).Some? && Value(gamma(FromInt(m)).value) != 0.0
  {
    var piece := ConstantTexts(n, precision, gamma);
    AppendedSucceeds(result, n, piece);
    if Constants(result, n, precision, gamma, n).Some? {
      forall m | 1 <= m <= n
        ensures gamma(FromInt(m)).Some? && Value(gamma(FromInt(m)).value) != 0.0
      {
        var j: nat := n - m;
        assert piece(j).Some?;
        ConstantCoefficientMeaning(n - j, precision, gamma);
      }
    } else {
      var j: nat :| j < n && piece(j).None?;
      ConstantCoefficientMeaning(n - j, precision, gamma);
    }
  }

  /** n!, so that Γ(m) = (m − 1)! for a whole m >= 1. */
  function Factorial(n: nat): (r: nat)
    ensures r >= 1
  {
    if n == 0 then 1 else n * Factorial(n - 1)
  }

  /**
    When gamma gives Γ(m) = (m − 1)! for m = 1 … n, every constant of an
    order-n integral is written, the constant with Γ(m) in its coefficient
    gets 1/(m − 1)! rounded half-up, and the last two constants, whose
    factorials are one, are bare: the letter of n − 2 followed by "x", and
    the letter of n − 1 alone.
  */
  lemma FactorialGammaConstants(result: string, n: int, precision: int, gamma: Gamma)
    requires n >= 2 && precision >= 0
    requires forall m :: 1 <= m <= n ==> gamma(FromInt(m)) == Some(FromInt(Factorial(m - 1)))
    ensures Constants(result, n, precision, gamma, n).Some?
    ensures forall m :: 1 <= m <= n ==>
      ConstantCoefficient(m, precision, gamma).Some? &&
      RoundsHalfUp(ConstantCoefficient(m, precision, gamma).value, One, FromInt(Factorial(m - 1)), precision)
    ensures ConstantText(n, n - 2, precision, gamma) == Some([ConstantName(n - 2)] + "x")
    ensures ConstantText(n, n - 1, precision, gamma) == Some([ConstantName(n - 1)])
  {
    forall m | 1 <= m <= n
      ensures gamma(FromInt(m)).Some? && Value(gamma(FromInt(m)).value) != 0.0
      ensures ConstantCoefficient(m, precision, gamma).Some? &&
        RoundsHalfUp(ConstantCoefficient(m, precision, gamma).value, One, FromInt(Factorial(m - 1)), precision)
    {
      FactorialGammaCoefficient(m, precision, gamma);
    }
    ConstantsSucceed(result, n, precision, gamma);
    LastConstants(n, precision, gamma);
  }

  lemma FactorialGammaCoefficient(m: int, precision: int, gamma: Gamma)
    requires m >= 1 && gamma(FromInt(m)) == Some(FromInt(Factorial(m - 1)))
    ensures gamma(FromInt(m)).Some? && Value(gamma(FromInt(m)).value) != 0.0
    ensures ConstantCoefficient(m, precision, gamma).Some? &&
      RoundsHalfUp(ConstantCoefficient(m, precision, gamma).value, One, FromInt(Factorial(m - 1)), precision)
  {
    ValueOfScaleZero(Factorial(m - 1));
    ConstantCoefficientMeaning(m, precision, gamma);
  }

  lemma LastConstants(n: int, precision: int, gamma: Gamma)
    requires n >= 2 && precision >= 0
    requires gamma(FromInt(2)) == Some(FromInt(Factorial(1))) && gamma(FromInt(1)) == Some(FromInt(Factorial(0)))
    ensures ConstantText(n, n - 2, precision, gamma) == Some([ConstantName(n - 2)] + "x")
    ensures ConstantText(n, n - 1, precision, gamma) == Some([ConstantName(n - 1)])
  {
    assert Factorial(1) == 1;
    var i: nat, j: nat := n - 2, n - 1;
    assert n - i == 2 && n - i - 1 == 1 && n - j == 1 && n - j - 1 == 0;
    BareConstant(n, i, precision, gamma);
    BareConstant(n, j, precision, gamma);
    assert ConstantPower(1) == "x" && ConstantPower(0) == "";
    assert [ConstantName(j)] + "" == [ConstantName(j)];
  }

  /** A constant whose Γ is one is written as its letter and its variable part alone. */
  lemma BareConstant(n: int, i: nat, precision: int, gamma: Gamma)
    requires precision >= 0 && gamma(FromInt(n - i)) == Some(One)
    ensures ConstantText(n, i, precision, gamma) == Some([ConstantName(i)] + ConstantPower(n - i - 1))
  {
    var cc := DivideHalfUp(One, One, precision);
    assert cc == SetScaleHalfUp(One, precision);
    SetScaleHalfUpExact(One, precision);
    assert ConstantNumeral(cc, precision) == "";
    assert ConstantPiece(cc, ConstantName(i), n - i - 1, precision) == [ConstantName(i)] + ConstantPower(n - i - 1);
  }

  /** Order 2 after "0.500x^2" when Γ(2) = Γ(1) = 1: both coefficients are left out. */
  lemma SecondOrderConstants(gamma: Gamma)
    requires gamma(FromInt(2)) == Some(One) && gamma(FromInt(1)) == Some(One)
    ensures Constants("0.500x^2", 2, 3, gamma, 2) == Some("0.500x^2 + Cx + D")
  {
    UnitConstants(gamma);
    var piece := ConstantTexts(2, 3, gamma);
    assert piece(0) == Some("Cx") && piece(1) == Some("D");
    assert Appended("0.500x^2", 1, piece) == Some("0.500x^2" + " + " + "Cx");
    assert Appended("0.500x^2", 2, piece) == Some("0.500x^2" + " + " + "Cx" + " + " + "D");
    assert "0.500x^2" + " + " + "Cx" + " + " + "D" == "0.500x^2 + Cx + D";
  }

  lemma UnitConstants(gamma: Gamma)
    requires gamma(FromInt(2)) == Some(One) && gamma(FromInt(1)) == Some(One)
    ensures ConstantText(2, 0, 3, gamma) == Some("Cx") && ConstantText(2, 1, 3, gamma) == Some("D")
  {
    UnitReciprocal();
    assert ConstantCoefficient(2, 3, gamma) == Some(Decimal(1000, 3));
    assert ConstantCoefficient(1, 3, gamma) == Some(Decimal(1000, 3));
    assert ConstantName(0) == 'C' && ConstantName(1) == 'D';
    assert ConstantPower(1) == "x" && ConstantPower(0) == "";
    assert ConstantPiece(Decimal(1000, 3), 'C', 1, 3) == "" + ['C'] + "x" == "Cx";
    assert ConstantPiece(Decimal(1000, 3), 'D', 0, 3) == "" + ['D'] + "" == "D";
  }

  lemma UnitReciprocal()
    ensures DivideHalfUp(One, One, 3) == Decimal(1000, 3)
    ensures ConstantNumeral(Decimal(1000, 3), 3) == ""
  {
  }

  /**
    As written, a polynomial that rounds to zero is first written "C", and an
    order that then appends a constant appends a second one: the text is
    "C + C" for the order one or a fractional order, not the single "C".
  */
  lemma ZeroPolynomialRepeatsConstant(terms: seq<Term>, alpha: Decimal, precision: int, gamma: Gamma)
    requires RoundsToZero(terms, precision, IntegralHooks)
    requires Value(alpha) == 1.0 || !IsWhole(Value(alpha))
    ensures IntegralText(terms, alpha, precision, gamma) == Some("C + C")
  {
    BaseTextNonEmpty(terms, precision);
    if Value(alpha) == 1.0 {
      IntegralFirstOrder(terms, alpha, precision, gamma);
    } else {
      IntegralFractionalOrder(terms, alpha, precision, gamma);
    }
    assert "C" + " + C" == "C + C";
  }

  /** Whether the order appends any constant: a fractional order or a whole order of one or more. */
  predicate AppendsConstants(alpha: Decimal)
  {
    StripTrailingZeros(alpha).scale > 0 || SaturatingIntCast(alpha) >= 1
  }

  /**
    The integral text with the zero polynomial's "C" standing alone: when the
    terms round to zero and the order appends constants, the constants are
    the whole text.
  */
  function CorrectedIntegralText(terms: seq<Term>, alpha: Decimal, precision: int, gamma: Gamma): Option<string>
  {
    if RoundsToZero(terms, precision, IntegralHooks) && AppendsConstants(alpha) then
      WithConstants("", alpha, precision, gamma)
    else
      IntegralText(terms, alpha, precision, gamma)
  }

  /**
    With the correction a polynomial that rounds to zero is written exactly
    "C" for every order below two, its order-n constants alone for a whole
    order n >= 2, and every other polynomial as before.
  */
  lemma CorrectedIntegralTextMeaning(terms: seq<Term>, alpha: Decimal, precision: int, gamma: Gamma)
    ensures RoundsToZero(terms, precision, IntegralHooks) && !(IsWhole(Value(alpha)) && Value(alpha) >= 2.0) ==>
      CorrectedIntegralText(terms, alpha, precision, gamma) == Some("C")
    ensures RoundsToZero(terms, precision, IntegralHooks) && IsWhole(Value(alpha)) && Value(alpha) >= 2.0 ==>
      CorrectedIntegralText(terms, alpha, precision, gamma) ==
        Constants("", SaturatingIntCast(alpha), precision, gamma, SaturatingIntCast(alpha))
    ensures !RoundsToZero(terms, precision, IntegralHooks) ==>
      CorrectedIntegralText(terms, alpha, precision, gamma) == IntegralText(terms, alpha, precision, gamma)
  {
    WholeIffStrippedScale(alpha);
    BaseTextNonEmpty(terms, precision);
    if RoundsToZero(terms, precision, IntegralHooks) {
      if !IsWhole(Value(alpha)) || Value(alpha) == 1.0 {
        SingleConstant("", alpha, precision, gamma);
        assert Joined("") + "C" == "C";
      } else if Value(alpha) <= 0.0 {
        IntegralNonPositiveOrder(terms, alpha, precision, gamma);
      }
    }
  }
}
