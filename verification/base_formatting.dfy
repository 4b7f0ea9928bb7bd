/**
  The shared polynomial formatter (BaseFormattingService): each term's
  coefficient is rounded half-up to the requested precision and printed
  without a fraction of zeros, terms are joined with " + " or " - ", a unit
  coefficient in front of x is left out, and x^1 and x^0 are written as x and
  as nothing. The two hooks a concrete formatter supplies, which terms to
  skip and the text of a zero polynomial, are a record of values here.
*/
module BaseFormatting {
  import opened Wrappers
  import opened Decimals
  import opened DecimalText
  import opened Terms

  /** The abstract methods shouldSkipTerm and getZeroPolynomialResult of a concrete formatter. */
  datatype FormatHooks = FormatHooks(shouldSkipTerm: Term -> bool, zeroPolynomialResult: string)

  /** Every coefficient compares equal to zero. */
  predicate AllZeroCoefficients(terms: seq<Term>)
  {
    forall i :: 0 <= i < |terms| ==> Compare(terms[i].coefficient, Zero) == 0
  }

  /**
    `s.matches("0{" + precision + "}")`: exactly `precision` zeros. It is
    asked only of the digits after a point, which exist only for a positive
    precision.
  */
  predicate MatchesZeros(s: string, precision: int)
  {
    precision >= 0 && s == Zeros(precision)
  }

  /**
    formatCoefficient: the coefficient rounded half-up to `precision`
    fractional digits, in plain text, with the point and the digits after it
    dropped when those digits are all zeros.
  */
  function FormatCoefficient(c: Decimal, precision: int): string
  {
    var s := ToPlainString(SetScaleHalfUp(c, precision));
    if '.' in s then
      var parts := SplitOnDot(s);
      if |parts| == 2 && MatchesZeros(parts[1], precision) then parts[0] else s
    else
      s
  }

  /** The sign of a decimal with a positive scale, its whole digits and its fraction digits. */
  lemma PointedParts(d: Decimal) returns (sign: string, w: string, f: string)
    requires d.scale > 0
    ensures sign == (if d.unscaled < 0 then "-" else "")
    ensures w == NatToString(DropDigits(AbsInt(d.unscaled), d.scale))
    ensures f == PaddedDigits(AbsInt(d.unscaled), d.scale)
    ensures ToPlainString(d) == sign + w + "." + f
    ensures '.' in ToPlainString(d)
    ensures SplitOnDot(ToPlainString(d)) == [sign + w, f]
    ensures f == Zeros(d.scale) <==> AbsInt(d.unscaled) % Pow10(d.scale) == 0
  {
    var n := AbsInt(d.unscaled);
    sign, w, f := (if d.unscaled < 0 then "-" else ""), NatToString(DropDigits(n, d.scale)), PaddedDigits(n, d.scale);
    PlainStringPointed(d);
    assert ToPlainString(d) == sign + w + "." + f;
    assert ToPlainString(d)[|sign + w|] == '.';
    DigitsHaveNo(w, '.');
    DigitsHaveNo(f, '.');
    assert '.' !in sign + w;
    SplitOnSingleDot(sign + w, f);
    DigitsValueZero(f);
    if f == Zeros(d.scale) {
      ZerosValue(d.scale);
    }
    if n % Pow10(d.scale) == 0 {
      assert f == Zeros(d.scale);
    }
  }

  /** The text "w" or "-w" of the whole part of a decimal whose fraction digits are all zeros. */
  lemma ParseWholePart(d: Decimal, sign: string, w: string)
    requires d.scale > 0 && AbsInt(d.unscaled) % Pow10(d.scale) == 0
    requires sign == (if d.unscaled < 0 then "-" else "")
    requires w == NatToString(DropDigits(AbsInt(d.unscaled), d.scale))
    ensures ParseDecimal(sign + w).Some?
    ensures ParseDecimal(sign + w).value.scale == 0
    ensures Value(ParseDecimal(sign + w).value) == Value(d)
  {
    var q: int := DropDigits(AbsInt(d.unscaled), d.scale);
    assert q * Pow10(d.scale) == AbsInt(d.unscaled);
    var v: int := if d.unscaled < 0 then -q else q;
    if d.unscaled < 0 {
      NegMul(q, Pow10(d.scale));
      ParseNegativeWhole(w, q);
    } else {
      assert sign + w == w;
      ParseNatToString(q);
      ParseUnsignedDigitFirst(w);
    }
    assert ParseDecimal(sign + w) == Some(Decimal(v, 0));
    assert d.unscaled == v * Pow10(d.scale);
    ValueRescale(v, 0, d.scale);
    assert 0 + d.scale == d.scale;
  }

  lemma ParseNegativeWhole(w: string, q: nat)
    requires w == NatToString(q)
    ensures ParseDecimal("-" + w) == Some(Decimal(-(q as int), 0))
  {
    ParseNatToString(q);
    ParseNegative(w);
  }

  /**
    The coefficient text reads back as the coefficient rounded half-up to
    `precision` digits (within half a unit of the last digit, ties away from
    zero), and it holds a point exactly when that rounded value is not a
    whole number. Unless the fraction is all zeros, the text is the rounded
    value's plain text as it stands, with exactly `precision` digits after the
    point (2.5 at precision 3 is "2.500").
  */
  lemma FormatCoefficientMeaning(c: Decimal, precision: int)
    ensures ParseDecimal(FormatCoefficient(c, precision)).Some?
    ensures Value(ParseDecimal(FormatCoefficient(c, precision)).value) == Value(SetScaleHalfUp(c, precision))
    ensures HalfUpNearest(Value(ParseDecimal(FormatCoefficient(c, precision)).value), Value(c), Ten(-precision))
    ensures '.' in FormatCoefficient(c, precision) <==> precision > 0 && !IsWhole(Value(SetScaleHalfUp(c, precision)))
    ensures precision <= 0 || !IsWhole(Value(SetScaleHalfUp(c, precision))) ==>
      FormatCoefficient(c, precision) == ToPlainString(SetScaleHalfUp(c, precision))
    ensures '.' in FormatCoefficient(c, precision) ==>
      |SplitOnDot(FormatCoefficient(c, precision))| == 2 && |SplitOnDot(FormatCoefficient(c, precision))[1]| == precision
  {
    var d := SetScaleHalfUp(c, precision);
    SetScaleHalfUpNearest(c, precision);
    var r := FormatCoefficient(c, precision);
    if precision <= 0 {
      PlainStringHead(d);
      ParsePlainString(d);
      PlainValue(d);
    } else {
      var sign, w, f := PointedParts(d);
      WholeIffDivisible(d);
      if AbsInt(d.unscaled) % Pow10(precision) == 0 {
        assert r == sign + w;
        ParseWholePart(d, sign, w);
        DigitsHaveNo(w, '.');
        assert '.' !in sign + w;
      } else {
        assert r == ToPlainString(d);
        ParsePointed(d);
      }
    }
  }

  /** The coefficient text is never empty and begins with '-' or a digit. */
  lemma FormatCoefficientHead(c: Decimal, precision: int)
    ensures |FormatCoefficient(c, precision)| > 0
    ensures FormatCoefficient(c, precision)[0] == '-' || IsDigit(FormatCoefficient(c, precision)[0])
  {
    var d := SetScaleHalfUp(c, precision);
    PlainStringHead(d);
    if precision > 0 {
      var sign, w, f := PointedParts(d);
      assert (sign + w)[0] == ToPlainString(d)[0];
    }
  }

  /** The separator appendTerm writes in front of a term when the text so far is not empty. */
  function Separator(nonEmpty: bool, c: Decimal): (r: string)
    ensures r == "" <==> !nonEmpty
    ensures nonEmpty ==> (r == " + " <==> Value(c) > 0.0) && (r == " - " <==> Value(c) <= 0.0)
  {
    if !nonEmpty then "" else if Compare(c, Zero) > 0 then " + " else " - "
  }

  /** A coefficient of magnitude one is left out in front of a power of x other than x^0. */
  predicate OmitsCoefficient(c: Decimal, power: Decimal)
  {
    Compare(Abs(c), One) == 0 && Compare(power, Zero) != 0
  }

  /**
    The coefficient as appendTerm writes it: after a " - " separator its
    magnitude, a left-out unit as nothing, except a leading −1 as "-".
  */
  function Numeral(nonEmpty: bool, c: Decimal, coefficientString: string, power: Decimal): string
  {
    var shown := if nonEmpty && Compare(c, Zero) <= 0 then ToPlainString(Abs(c)) else coefficientString;
    if !OmitsCoefficient(c, power) then shown
    else if Compare(c, Neg(One)) == 0 && !nonEmpty then "-"
    else ""
  }

  /** The variable part: nothing for x^0, "x" for x^1, else "x^" and the power without trailing zeros. */
  function PowerText(power: Decimal): string
  {
    if Compare(power, Zero) != 0 then
      "x" + (if Compare(power, One) != 0 then "^" + ToPlainString(StripTrailingZeros(power)) else "")
    else
      ""
  }

  /**
    Nothing for a power of value zero, "x" for a power of value one, and
    otherwise "x^" followed by a text that reads back as the power.
  */
  lemma PowerTextMeaning(power: Decimal)
    ensures PowerText(power) == "" <==> Value(power) == 0.0
    ensures PowerText(power) == "x" <==> Value(power) == 1.0
    ensures Value(power) != 0.0 && Value(power) != 1.0 ==>
      |PowerText(power)| > 2 && PowerText(power)[..2] == "x^" &&
      ParseDecimal(PowerText(power)[2..]).Some? &&
      Value(ParseDecimal(PowerText(power)[2..]).value) == Value(power)
  {
    var e := StripTrailingZeros(power);
    PlainStringHead(e);
    if Value(power) != 0.0 && Value(power) != 1.0 {
      assert PowerText(power) == "x^" + ToPlainString(e);
      assert PowerText(power)[2..] == ToPlainString(e);
      ParsePlainString(e);
      PlainValue(e);
    }
  }

  /** Powers of equal value are written alike, whatever their scale (x^2.50 and x^2.5 both as x^2.5). */
  lemma PowerTextCanonical(a: Decimal, b: Decimal)
    requires Value(a) == Value(b)
    ensures PowerText(a) == PowerText(b)
  {
    StripTrailingZerosCanonical(a, b);
  }

  /**
    appendTerm's contribution for a term whose coefficient text is
    `coefficientString`, when the text so far is empty or not: nothing for a
    zero coefficient, otherwise separator, coefficient and variable part.
  */
  function TermText(nonEmpty: bool, t: Term, coefficientString: string, c: Decimal): string
  {
    if Compare(c, Zero) == 0 then ""
    else Separator(nonEmpty, c) + Numeral(nonEmpty, c, coefficientString, t.power) + PowerText(t.power)
  }

  /**
    The number a separator and a written coefficient stand for together:
    " - " or "-" negates, and a left-out coefficient stands for one.
  */
  function ReadCoefficient(sign: string, numeral: string): Option<real>
  {
    var negate := sign == " - " || numeral == "-";
    var magnitude :=
      if numeral == "" || numeral == "-" then Some(1.0)
      else match ParseDecimal(numeral)
        case None => None
        case Some(d) => Some(Value(d));
    match magnitude
    case None => None
    case Some(m) => Some(if negate then -m else m)
  }

  /**
    appendTerm writes a non-zero coefficient faithfully: its separator and
    numeral read back as the coefficient, and the numeral is left out exactly
    for a unit coefficient in front of a non-zero power. A bare "-" is
    written only for a −1 in front of a non-zero power as the first term.
  */
  lemma NumeralMeaning(nonEmpty: bool, c: Decimal, coefficientString: string, power: Decimal)
    requires ParseDecimal(coefficientString) == Some(c) && Value(c) != 0.0
    ensures ReadCoefficient(Separator(nonEmpty, c), Numeral(nonEmpty, c, coefficientString, power)) == Some(Value(c))
    ensures (Numeral(nonEmpty, c, coefficientString, power) in {"", "-"}) <==>
      (RealAbs(Value(c)) == 1.0 && Value(power) != 0.0)
    ensures Numeral(nonEmpty, c, coefficientString, power) == "-" <==>
      !nonEmpty && Value(c) == -1.0 && Value(power) != 0.0
  {
    var sep, m := Separator(nonEmpty, c), Numeral(nonEmpty, c, coefficientString, power);
    ValueAbs(c);
    if !OmitsCoefficient(c, power) {
      if nonEmpty && Compare(c, Zero) <= 0 {
        var a := Abs(c);
        assert m == ToPlainString(a) && sep == " - ";
        PlainStringHead(a);
        ParsePlainString(a);
        PlainValue(a);
        ReadParsed(sep, m, Plain(a));
      } else {
        assert m == coefficientString && sep != " - ";
        ParsedNotSign(coefficientString);
        ReadParsed(sep, m, c);
      }
    } else {
      ValueNeg(One);
      if Compare(c, Neg(One)) == 0 && !nonEmpty {
        assert m == "-" && sep == "";
        assert ReadCoefficient(sep, m) == Some(-1.0);
      } else {
        assert m == "";
        assert ReadCoefficient(sep, m) == Some(if sep == " - " then -1.0 else 1.0);
      }
    }
  }

  /**
    The coefficient text is canonical: parsing it and printing the decimal
    again gives the same text, zeros after the point included.
  */
  lemma FormatCoefficientPrintsBack(c: Decimal, precision: int)
    ensures ParseDecimal(FormatCoefficient(c, precision)).Some?
    ensures ToPlainString(ParseDecimal(FormatCoefficient(c, precision)).value) == FormatCoefficient(c, precision)
  {
    var d := SetScaleHalfUp(c, precision);
    FormatCoefficientMeaning(c, precision);
    if precision > 0 && IsWhole(Value(d)) {
      var sign, w, f := PointedParts(d);
      WholeIffDivisible(d);
      ParseWholePart(d, sign, w);
      WholePartPrintsBack(d, sign, w);
    } else {
      ParsePlainString(d);
      PlainStringOfPlain(d);
    }
  }

  lemma WholePartPrintsBack(d: Decimal, sign: string, w: string)
    requires d.scale > 0 && AbsInt(d.unscaled) % Pow10(d.scale) == 0
    requires sign == (if d.unscaled < 0 then "-" else "")
    requires w == NatToString(DropDigits(AbsInt(d.unscaled), d.scale))
    ensures ParseDecimal(sign + w).Some?
    ensures ToPlainString(ParseDecimal(sign + w).value) == sign + w
  {
    var q: nat := DropDigits(AbsInt(d.unscaled), d.scale);
    if d.unscaled < 0 {
      assert q * Pow10(d.scale) == AbsInt(d.unscaled);
      assert q >= 1;
    }
    SignedWholePrintsBack(d.unscaled < 0, q);
  }

  /** "q" and, for q >= 1, "-q" read back as a whole number that prints as the same text. */
  lemma SignedWholePrintsBack(negative: bool, q: nat)
    requires negative ==> q >= 1
    ensures ParseDecimal((if negative then "-" else "") + NatToString(q)).Some?
    ensures ToPlainString(ParseDecimal((if negative then "-" else "") + NatToString(q)).value) ==
      (if negative then "-" else "") + NatToString(q)
  {
    var w := NatToString(q);
    if negative {
      ParseNegativeWhole(w, q);
      NegativeIntToString(-(q as int), q);
    } else {
      assert "" + w == w;
      ParseNatToString(q);
      ParseUnsignedDigitFirst(w);
    }
  }

  /**
    The coefficient appendTerm writes, when it is written at all, is the text
    formatCoefficient gave, zeros after the point kept ("1.040"): after a
    " - " separator that text without its leading '-', otherwise all of it.
  */
  lemma WrittenNumeral(nonEmpty: bool, c0: Decimal, precision: int, power: Decimal)
    ensures ParseDecimal(FormatCoefficient(c0, precision)).Some?
    ensures |FormatCoefficient(c0, precision)| > 0
    ensures var s := FormatCoefficient(c0, precision);
      var c := ParseDecimal(s).value;
      Value(c) != 0.0 && !OmitsCoefficient(c, power) ==>
        (Value(c) < 0.0 ==> s[0] == '-') &&
        Numeral(nonEmpty, c, s, power) == (if nonEmpty && Value(c) < 0.0 then s[1..] else s)
  {
    var s := FormatCoefficient(c0, precision);
    FormatCoefficientHead(c0, precision);
    FormatCoefficientPrintsBack(c0, precision);
    var c := ParseDecimal(s).value;
    if Value(c) < 0.0 {
      ValueMonotoneAtScale(c.unscaled, 0, c.scale);
      PlainStringOfNegative(c);
      assert s == "-" + ToPlainString(Abs(c));
      assert s[1..] == ToPlainString(Abs(c));
    }
  }

  /** A text that parses is neither empty nor a lone minus sign. */
  lemma ParsedNotSign(s: string)
    requires ParseDecimal(s).Some?
    ensures s != "" && s != "-"
  {
    assert ParseDecimal("-") == None;
  }

  lemma ReadParsed(sign: string, numeral: string, d: Decimal)
    requires numeral != "" && numeral != "-" && ParseDecimal(numeral) == Some(d)
    ensures ReadCoefficient(sign, numeral) == Some(if sign == " - " then -Value(d) else Value(d))
  {
  }

  /** A term adds text exactly when its coefficient is not zero. */
  lemma TermTextEmpty(nonEmpty: bool, t: Term, coefficientString: string, c: Decimal)
    requires coefficientString != ""
    ensures TermText(nonEmpty, t, coefficientString, c) == "" <==> Value(c) == 0.0
  {
    if Value(c) != 0.0 {
      var m, v := Numeral(nonEmpty, c, coefficientString, t.power), PowerText(t.power);
      assert TermText(nonEmpty, t, coefficientString, c) == Separator(nonEmpty, c) + m + v;
      if OmitsCoefficient(c, t.power) {
        assert v != "";
      } else if nonEmpty && Compare(c, Zero) <= 0 {
        PlainStringHead(Abs(c));
      }
    }
  }

  /**
    appendTerm(result, term, coefficientString): the StringBuilder `result`
    is a string that the method returns extended.
  */
  method AppendTerm(result: string, term: Term, coefficientString: string) returns (r: string)
    requires ParseDecimal(coefficientString).Some?
    ensures r == result + TermText(result != "", term, coefficientString, ParseDecimal(coefficientString).value)
  {
    var coefficient := ParseDecimal(coefficientString).value;
    r := result;
    if Compare(coefficient, Zero) == 0 {
      return;
    }
    var shown := coefficientString;
    if r != "" {
      if Compare(coefficient, Zero) > 0 {
        r := r + " + ";
      } else {
        r := r + " - ";
        shown := ToPlainString(Abs(coefficient));
      }
    }
    ghost var sep := Separator(result != "", coefficient);
    assert r == result + sep;
    var omitCoefficient := Compare(Abs(coefficient), One) == 0 && Compare(term.power, Zero) != 0;
    if !omitCoefficient {
      r := r + shown;
    } else if Compare(coefficient, Neg(One)) == 0 && r == "" {
      r := r + "-";
    }
    ghost var numeral := Numeral(result != "", coefficient, coefficientString, term.power);
    assert r == result + sep + numeral;
    r := AppendVariablePart(r, term.power);
    ConcatAssoc4(result, sep, numeral, PowerText(term.power));
  }

  /** The variable part appendTerm writes last: "x" and, unless the power is one, "^" and the stripped power. */
  method AppendVariablePart(written: string, power: Decimal) returns (r: string)
    ensures r == written + PowerText(power)
  {
    r := written;
    if Compare(power, Zero) != 0 {
      r := r + "x";
      if Compare(power, One) != 0 {
        var exponent := ToPlainString(StripTrailingZeros(power));
        r := r + "^" + exponent;
        assert PowerText(power) == "x" + ("^" + exponent);
        ConcatAssoc4(written, "x", "^", exponent);
        ConcatAssoc3("x", "^", exponent);
      } else {
        assert PowerText(power) == "x";
      }
    } else {
      assert PowerText(power) == "";
    }
  }

  lemma EmptyConcat(a: string, b: string)
    ensures "" + a + b == a + b
  {
  }

  lemma ConcatAssoc3(a: string, b: string, c: string)
    ensures a + b + c == a + (b + c)
  {
  }

  lemma ConcatAssoc4(a: string, b: string, c: string, d: string)
    ensures a + b + c + d == a + (b + c + d)
  {
  }

  /** What the loop of formatTerms appends for a term it does not skip. */
  function WrittenTerm(nonEmpty: bool, t: Term, precision: int): string
  {
    FormatCoefficientMeaning(t.coefficient, precision);
    var coefficientString := FormatCoefficient(t.coefficient, precision);
    TermText(nonEmpty, t, coefficientString, ParseDecimal(coefficientString).value)
  }

  /** A term is written as nothing exactly when its coefficient rounds to zero. */
  lemma WrittenTermEmpty(nonEmpty: bool, t: Term, precision: int)
    ensures WrittenTerm(nonEmpty, t, precision) == "" <==> Value(SetScaleHalfUp(t.coefficient, precision)) == 0.0
  {
    FormatCoefficientMeaning(t.coefficient, precision);
    FormatCoefficientHead(t.coefficient, precision);
    var coefficientString := FormatCoefficient(t.coefficient, precision);
    TermTextEmpty(nonEmpty, t, coefficientString, ParseDecimal(coefficientString).value);
  }

  /** The first term written starts with its sign, a digit or the variable. */
  lemma WrittenTermHead(t: Term, precision: int)
    ensures WrittenTerm(false, t, precision) == "" || StartsTerm(WrittenTerm(false, t, precision))
  {
    FormatCoefficientMeaning(t.coefficient, precision);
    FormatCoefficientHead(t.coefficient, precision);
    var coefficientString := FormatCoefficient(t.coefficient, precision);
    TermTextHead(t, coefficientString, ParseDecimal(coefficientString).value);
  }

  /** With nothing written before it, a term whose coefficient text starts as a number starts as a term. */
  lemma TermTextHead(t: Term, coefficientString: string, c: Decimal)
    requires |coefficientString| > 0 && (coefficientString[0] == '-' || IsDigit(coefficientString[0]))
    ensures TermText(false, t, coefficientString, c) == "" || StartsTerm(TermText(false, t, coefficientString, c))
  {
    var text := TermText(false, t, coefficientString, c);
    if Compare(c, Zero) != 0 {
      var m, v := Numeral(false, c, coefficientString, t.power), PowerText(t.power);
      assert text == "" + m + v by {
        assert Separator(false, c) == "";
      }
      EmptyConcat(m, v);
      if m == "" {
        assert v == "x" + (if Compare(t.power, One) != 0 then "^" + ToPlainString(StripTrailingZeros(t.power)) else "") by {
          assert OmitsCoefficient(c, t.power);
        }
        assert text == v;
      } else {
        assert m == "-" || m == coefficientString;
        assert text[0] == m[0];
      }
    }
  }

  /** A text that begins as a written polynomial does: with a sign, a digit or the variable. */
  predicate StartsTerm(s: string)
  {
    |s| > 0 && (s[0] == '-' || s[0] == 'x' || IsDigit(s[0]))
  }

  /**
    The text a loop builds by appending write(text so far is non-empty, term)
    for every term that skip does not reject.
  */
  function RenderedBy(terms: seq<Term>, skip: Term -> bool, write: (bool, Term) -> string): string
  {
    if terms == [] then ""
    else
      var prefix := RenderedBy(terms[..|terms| - 1], skip, write);
      var t := terms[|terms| - 1];
      if skip(t) then prefix else prefix + write(prefix != "", t)
  }

  /** The text the loop of formatTerms has built after the given terms. */
  function Rendered(terms: seq<Term>, precision: int, hooks: FormatHooks): string
  {
    RenderedBy(terms, hooks.shouldSkipTerm, (nonEmpty, t) => WrittenTerm(nonEmpty, t, precision))
  }

  /** formatTerms(terms, precision) as a value. */
  function FormattedTerms(terms: seq<Term>, precision: int, hooks: FormatHooks): string
  {
    if AllZeroCoefficients(terms) then hooks.zeroPolynomialResult
    else
      var s := Rendered(terms, precision, hooks);
      if s == "" then hooks.zeroPolynomialResult else s
  }

  /** Every term that is not skipped rounds to zero at the precision. */
  predicate RoundsToZero(terms: seq<Term>, precision: int, hooks: FormatHooks)
  {
    forall i :: 0 <= i < |terms| && !hooks.shouldSkipTerm(terms[i]) ==>
      Value(SetScaleHalfUp(terms[i].coefficient, precision)) == 0.0
  }

  /** formatTerms(terms, precision) of BaseFormattingService. */
  method FormatTerms(terms: seq<Term>, precision: int, hooks: FormatHooks) returns (r: string)
    ensures r == FormattedTerms(terms, precision, hooks)
  {
    if AllZeroCoefficients(terms) {
      return hooks.zeroPolynomialResult;
    }
    var result := "";
    for i := 0 to |terms|
      invariant result == Rendered(terms[..i], precision, hooks)
    {
      var term := terms[i];
      assert terms[..i + 1][..i] == terms[..i];
      if hooks.shouldSkipTerm(term) {
        continue;
      }
      var coefficientString := FormatCoefficient(term.coefficient, precision);
      FormatCoefficientMeaning(term.coefficient, precision);
      result := AppendTerm(result, term, coefficientString);
    }
    assert terms[..|terms|] == terms;
    if result == "" {
      return hooks.zeroPolynomialResult;
    }
    return result;
  }

  /**
    When a term is written as nothing exactly when it is silent, the loop
    writes nothing exactly when every term it does not skip is silent.
  */
  lemma {:induction false} RenderedByEmpty(terms: seq<Term>, skip: Term -> bool, write: (bool, Term) -> string, silent: Term -> bool)
    requires forall nonEmpty, t :: write(nonEmpty, t) == "" <==> silent(t)
    ensures RenderedBy(terms, skip, write) == "" <==> forall i :: 0 <= i < |terms| && !skip(terms[i]) ==> silent(terms[i])
  {
    if terms != [] {
      var init := terms[..|terms| - 1];
      RenderedByEmpty(init, skip, write, silent);
      assert forall i :: 0 <= i < |init| ==> init[i] == terms[i];
    }
  }

  /** When every first term starts as a term, so does every non-empty text the loop builds. */
  lemma {:induction false} RenderedByHead(terms: seq<Term>, skip: Term -> bool, write: (bool, Term) -> string)
    requires forall t :: write(false, t) == "" || StartsTerm(write(false, t))
    ensures RenderedBy(terms, skip, write) == "" || StartsTerm(RenderedBy(terms, skip, write))
  {
    if terms != [] {
      var init := terms[..|terms| - 1];
      RenderedByHead(init, skip, write);
      var prefix := RenderedBy(init, skip, write);
      var t := terms[|terms| - 1];
      if !skip(t) && prefix != "" {
        assert (prefix + write(true, t))[0] == prefix[0];
      }
    }
  }

  /** The loop writes nothing exactly when every term it does not skip rounds to zero. */
  lemma RenderedEmpty(terms: seq<Term>, precision: int, hooks: FormatHooks)
    ensures Rendered(terms, precision, hooks) == "" <==> RoundsToZero(terms, precision, hooks)
  {
    var write := (nonEmpty, t) => WrittenTerm(nonEmpty, t, precision);
    var silent := (t: Term) => Value(SetScaleHalfUp(t.coefficient, precision)) == 0.0;
    forall nonEmpty, t
      ensures write(nonEmpty, t) == "" <==> silent(t)
    {
      WrittenTermEmpty(nonEmpty, t, precision);
    }
    RenderedByEmpty(terms, hooks.shouldSkipTerm, write, silent);
  }

  /**
    formatTerms gives the zero-polynomial text exactly when every term it
    does not skip rounds to zero, and otherwise the non-empty text the loop
    built.
  */
  lemma FormattedTermsMeaning(terms: seq<Term>, precision: int, hooks: FormatHooks)
    ensures RoundsToZero(terms, precision, hooks) ==>
      FormattedTerms(terms, precision, hooks) == hooks.zeroPolynomialResult
    ensures !RoundsToZero(terms, precision, hooks) ==>
      FormattedTerms(terms, precision, hooks) == Rendered(terms, precision, hooks) != ""
  {
    RenderedEmpty(terms, precision, hooks);
    if AllZeroCoefficients(terms) {
      forall i | 0 <= i < |terms|
        ensures Value(SetScaleHalfUp(terms[i].coefficient, precision)) == 0.0
      {
        SetScaleOfZero(terms[i].coefficient, precision);
      }
    }
  }

  /**
    The built text never begins with a separator: it begins with the first
    written term's sign, a digit or the variable.
  */
  lemma RenderedHead(terms: seq<Term>, precision: int, hooks: FormatHooks)
    ensures Rendered(terms, precision, hooks) == "" || StartsTerm(Rendered(terms, precision, hooks))
  {
    var write := (nonEmpty, t) => WrittenTerm(nonEmpty, t, precision);
    forall t
      ensures write(false, t) == "" || StartsTerm(write(false, t))
    {
      WrittenTermHead(t, precision);
    }
    RenderedByHead(terms, hooks.shouldSkipTerm, write);
  }
}
