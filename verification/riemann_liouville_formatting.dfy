/**
  The formatter of Riemann–Liouville derivatives (RiemannLiouvilleFormattingService):
  every term, zero coefficients included, is written with its coefficient
  rounded half-up to three places and stripped of trailing zeros. The first
  term carries a "-" only when it is negative; every later term is joined with
  " + " when positive and " - " otherwise. A unit coefficient in front of a
  non-zero power is left out, x^1 and x^0 are written as "x" and as nothing,
  and an empty list gives "0".
*/
module RiemannLiouvilleFormatting {
  import opened Wrappers
  import opened Decimals
  import opened DecimalText
  import opened Terms
  import BaseFormatting

  /** The fixed number of fractional digits the coefficients are rounded to. */
  const Places: int := 3

  /** The coefficient rounded half-up to three fractional digits. */
  function Rounded(t: Term): Decimal
  {
    SetScaleHalfUp(t.coefficient, Places)
  }

  /** The term's sign is written apart from its magnitude: for the first term when below zero, for a later one when not above. */
  predicate Negated(first: bool, c: Decimal)
  {
    if first then Compare(c, Zero) < 0 else Compare(c, Zero) <= 0
  }

  /** What is written before the coefficient: "-" or nothing first, " + " or " - " later. */
  function SignText(first: bool, c: Decimal): (r: string)
    ensures first ==> (r == "-" <==> Value(c) < 0.0) && (r == "" <==> Value(c) >= 0.0)
    ensures !first ==> (r == " - " <==> Value(c) <= 0.0) && (r == " + " <==> Value(c) > 0.0)
  {
    if first then (if Compare(c, Zero) < 0 then "-" else "")
    else if Compare(c, Zero) > 0 then " + " else " - "
  }

  /** The number whose text is written: the magnitude after a written sign, the coefficient itself otherwise, without trailing zeros. */
  function Shown(first: bool, c: Decimal): (r: Decimal)
    ensures Stripped(r)
    ensures Value(r) == if Negated(first, c) then RealAbs(Value(c)) else Value(c)
  {
    ValueAbs(c);
    if Negated(first, c) then StripTrailingZeros(Abs(c)) else StripTrailingZeros(c)
  }

  /** The coefficient's text. */
  function Magnitude(first: bool, c: Decimal): string
  {
    ToPlainString(Shown(first, c))
  }

  /** The coefficient as written: left out when it is a unit in front of a non-zero power. */
  function Numeral(first: bool, c: Decimal, power: Decimal): string
  {
    if Compare(Abs(c), One) != 0 || Compare(power, Zero) == 0 then Magnitude(first, c) else ""
  }

  /** What the loop of formatTerms appends for one term, the first or a later one. */
  function TermText(first: bool, t: Term): string
  {
    var c := Rounded(t);
    SignText(first, c) + Numeral(first, c, t.power) + BaseFormatting.PowerText(t.power)
  }

  /** The text a loop builds by appending write(is the first, term) for every term in turn. */
  function RenderedWith(terms: seq<Term>, write: (bool, Term) -> string): string
  {
    if terms == [] then ""
    else RenderedWith(terms[..|terms| - 1], write) + write(|terms| == 1, terms[|terms| - 1])
  }

  /** The text the loop of formatTerms has built after the given terms. */
  function Rendered(terms: seq<Term>): string
  {
    RenderedWith(terms, TermText)
  }

  /** formatTerms(terms) as a value. */
  function FormattedTerms(terms: seq<Term>): string
  {
    if terms == [] then "0" else Rendered(terms)
  }

  /**
    The number a sign and a written coefficient stand for together: "-" and
    " - " negate, and a left-out coefficient stands for one.
  */
  function ReadSigned(sign: string, numeral: string): Option<real>
  {
    var magnitude :=
      if numeral == "" then Some(1.0)
      else match ParseDecimal(numeral)
        case None => None
        case Some(d) => Some(Value(d));
    match magnitude
    case None => None
    case Some(m) => Some(if sign == "-" || sign == " - " then -m else m)
  }

  /**
    The body of the loop of formatTerms for the term at index i: the
    StringBuilder is a string the method returns extended.
  */
  method AppendTerm(result: string, i: nat, term: Term) returns (r: string)
    ensures r == result + TermText(i == 0, term)
  {
    var coefficient := SetScaleHalfUp(term.coefficient, Places);
    var coefficientStr := ToPlainString(StripTrailingZeros(coefficient));
    r := result;
    if i > 0 {
      if Compare(coefficient, Zero) > 0 {
        r := r + " + ";
      } else {
        r := r + " - ";
        coefficientStr := ToPlainString(StripTrailingZeros(Abs(coefficient)));
      }
    } else {
      if Compare(coefficient, Zero) < 0 {
        r := r + "-";
        coefficientStr := ToPlainString(StripTrailingZeros(Abs(coefficient)));
      }
    }
    ghost var sign := SignText(i == 0, coefficient);
    assert r == result + sign;
    assert coefficientStr == Magnitude(i == 0, coefficient) by {
      assert ToPlainString(Shown(i == 0, coefficient)) == coefficientStr;
    }
    if Compare(Abs(coefficient), One) != 0 || Compare(term.power, Zero) == 0 {
      r := r + coefficientStr;
    }
    ghost var numeral := Numeral(i == 0, coefficient, term.power);
    assert r == result + sign + numeral;
    r := BaseFormatting.AppendVariablePart(r, term.power);
    BaseFormatting.ConcatAssoc4(result, sign, numeral, BaseFormatting.PowerText(term.power));
  }

  /** formatTerms(terms) of RiemannLiouvilleFormattingService. */
  method FormatTerms(terms: seq<Term>) returns (r: string)
    ensures r == FormattedTerms(terms)
  {
    var result := "";
    for i := 0 to |terms|
      invariant result == Rendered(terms[..i])
    {
      assert terms[..i + 1][..i] == terms[..i];
      result := AppendTerm(result, i, terms[i]);
    }
    assert terms[..|terms|] == terms;
    if result == "" {
      RenderedEmpty(terms);
      return "0";
    }
    return result;
  }

  /** Every term writes something: a sign, a coefficient or the variable. */
  lemma TermTextNonEmpty(first: bool, t: Term)
    ensures TermText(first, t) != ""
  {
    var c := Rounded(t);
    var s, m, v := SignText(first, c), Numeral(first, c, t.power), BaseFormatting.PowerText(t.power);
    assert TermText(first, t) == s + m + v;
    if m == "" {
      BaseFormatting.PowerTextMeaning(t.power);
      assert v != "";
    }
  }

  /** The loop writes nothing exactly when there are no terms, so "0" stands for the empty list alone. */
  lemma {:induction false} RenderedEmpty(terms: seq<Term>)
    ensures Rendered(terms) == "" <==> terms == []
  {
    if terms != [] {
      TermTextNonEmpty(|terms| == 1, terms[|terms| - 1]);
    }
  }

  /** The texts of the given terms one after the other, each written as a later one. */
  function LaterWith(terms: seq<Term>, write: (bool, Term) -> string): string
  {
    if terms == [] then "" else write(false, terms[0]) + LaterWith(terms[1..], write)
  }

  /** The texts of the given terms one after the other, each written as a later term. */
  function LaterTexts(terms: seq<Term>): string
  {
    LaterWith(terms, TermText)
  }

  lemma {:induction false} LaterWithSnoc(terms: seq<Term>, t: Term, write: (bool, Term) -> string)
    ensures LaterWith(terms + [t], write) == LaterWith(terms, write) + write(false, t)
  {
    if terms == [] {
      assert [] + [t] == [t];
      assert LaterWith([t], write) == write(false, t) + LaterWith([], write);
    } else {
      assert (terms + [t])[1..] == terms[1..] + [t];
      LaterWithSnoc(terms[1..], t, write);
      BaseFormatting.ConcatAssoc3(write(false, terms[0]), LaterWith(terms[1..], write), write(false, t));
    }
  }

  /**
    The loop writes the first term as a first term and then every other term,
    in order, as a later term.
  */
  lemma {:induction false} RenderedWithSplit(terms: seq<Term>, write: (bool, Term) -> string)
    requires terms != []
    ensures RenderedWith(terms, write) == write(true, terms[0]) + LaterWith(terms[1..], write)
  {
    var last := terms[|terms| - 1];
    var init := terms[..|terms| - 1];
    if |terms| == 1 {
      assert init == [] && terms[1..] == [];
    } else {
      RenderedWithSplit(init, write);
      assert init[0] == terms[0];
      assert terms[1..] == init[1..] + [last];
      LaterWithSnoc(init[1..], last, write);
      BaseFormatting.ConcatAssoc3(write(true, terms[0]), LaterWith(init[1..], write), write(false, last));
    }
  }

  /**
    formatTerms gives "0" for the empty list, and otherwise the first term
    written as a first term followed by every other term, in order, written
    as a later term.
  */
  lemma FormattedTermsMeaning(terms: seq<Term>)
    ensures terms == [] ==> FormattedTerms(terms) == "0"
    ensures terms != [] ==> FormattedTerms(terms) == TermText(true, terms[0]) + LaterTexts(terms[1..])
  {
    if terms != [] {
      RenderedWithSplit(terms, TermText);
    }
  }

  /**
    A written term reads back as its rounded coefficient; the coefficient is
    left out exactly for a unit in front of a non-zero power; and the rounding
    is half-up to three places.
  */
  lemma TermTextMeaning(first: bool, t: Term)
    ensures ReadSigned(SignText(first, Rounded(t)), Numeral(first, Rounded(t), t.power)) == Some(Value(Rounded(t)))
    ensures Numeral(first, Rounded(t), t.power) == "" <==> RealAbs(Value(Rounded(t))) == 1.0 && Value(t.power) != 0.0
    ensures HalfUpNearest(Value(Rounded(t)), Value(t.coefficient), Ten(-Places))
  {
    var c := Rounded(t);
    SetScaleHalfUpNearest(t.coefficient, Places);
    NumeralMeaning(first, c, t.power);
  }

  lemma NumeralMeaning(first: bool, c: Decimal, power: Decimal)
    ensures ReadSigned(SignText(first, c), Numeral(first, c, power)) == Some(Value(c))
    ensures Numeral(first, c, power) == "" <==> RealAbs(Value(c)) == 1.0 && Value(power) != 0.0
  {
    ValueAbs(c);
    var sign := SignText(first, c);
    if Compare(Abs(c), One) != 0 || Compare(power, Zero) == 0 {
      MagnitudeMeaning(first, c);
      ReadWritten(sign, Magnitude(first, c));
      assert Numeral(first, c, power) == Magnitude(first, c);
    } else {
      assert Value(One) == 1.0;
      assert Value(Abs(c)) == 1.0;
      assert Numeral(first, c, power) == "";
    }
  }

  lemma ReadWritten(sign: string, numeral: string)
    requires numeral != "" && ParseDecimal(numeral).Some?
    ensures ReadSigned(sign, numeral) == Some(
      if sign == "-" || sign == " - " then -Value(ParseDecimal(numeral).value) else Value(ParseDecimal(numeral).value))
  {
  }

  /** The magnitude is never empty and reads back as the number, or as its size after a written sign. */
  lemma MagnitudeMeaning(first: bool, c: Decimal)
    ensures Magnitude(first, c) != ""
    ensures ParseDecimal(Magnitude(first, c)).Some?
    ensures Value(ParseDecimal(Magnitude(first, c)).value) == (if Negated(first, c) then RealAbs(Value(c)) else Value(c))
  {
    PlainReadsBack(Shown(first, c));
  }

  /** The plain text of a decimal is not empty and reads back as its value. */
  lemma PlainReadsBack(a: Decimal)
    ensures ToPlainString(a) != ""
    ensures ParseDecimal(ToPlainString(a)).Some? && Value(ParseDecimal(ToPlainString(a)).value) == Value(a)
  {
    PlainStringHead(a);
    ParsePlainString(a);
    PlainValue(a);
  }

  /**
    The coefficient is written without trailing zeros: with a point exactly
    when the rounded coefficient is not whole, and then not ending in '0'.
  */
  lemma NumeralStripped(first: bool, c: Decimal, power: Decimal)
    requires Numeral(first, c, power) != ""
    ensures '.' in Numeral(first, c, power) <==> !IsWhole(Value(c))
    ensures '.' in Numeral(first, c, power) ==> Numeral(first, c, power)[|Numeral(first, c, power)| - 1] != '0'
  {
    assert Numeral(first, c, power) == ToPlainString(Shown(first, c));
    StrippedText(Shown(first, c));
    ShownWhole(first, c);
  }

  lemma ShownWhole(first: bool, c: Decimal)
    ensures IsWhole(Value(Shown(first, c))) <==> IsWhole(Value(c))
  {
    WholeNegation(Value(c));
  }

  /** The plain text of a decimal without trailing zeros has a point exactly for a fraction, and then no final '0'. */
  lemma StrippedText(a: Decimal)
    requires Stripped(a)
    ensures '.' in ToPlainString(a) <==> !IsWhole(Value(a))
    ensures '.' in ToPlainString(a) ==> ToPlainString(a)[|ToPlainString(a)| - 1] != '0'
  {
    PlainStringHead(a);
    WholeIffStrippedScale(a);
    assert StripTrailingZeros(a) == a;
    if a.scale > 0 {
      StrippedPlainStringEnd(a);
    }
  }

  /** A number and its negation are whole together. */
  lemma WholeNegation(x: real)
    ensures IsWhole(x) <==> IsWhole(-x)
  {
    if IsWhole(x) {
      assert (-x).Floor == -x.Floor;
    }
    if IsWhole(-x) {
      assert x.Floor == -(-x).Floor;
    }
  }

  /** Coefficients that round to one value and powers of one value are written alike. */
  lemma TermTextCanonical(first: bool, s: Term, t: Term)
    requires Value(Rounded(s)) == Value(Rounded(t)) && Value(s.power) == Value(t.power)
    ensures TermText(first, s) == TermText(first, t)
  {
    var a, b := Rounded(s), Rounded(t);
    ValueAbs(a);
    ValueAbs(b);
    StripTrailingZerosCanonical(a, b);
    StripTrailingZerosCanonical(Abs(a), Abs(b));
    BaseFormatting.PowerTextCanonical(s.power, t.power);
  }

  /**
    Unlike the shared formatter, a later term whose coefficient rounds to zero
    is still written, as " - 0" before its variable part.
  */
  lemma ZeroLaterTerm(t: Term)
    requires Value(Rounded(t)) == 0.0
    ensures TermText(false, t) == " - 0" + BaseFormatting.PowerText(t.power)
  {
    var c := Rounded(t);
    ZeroNumeral(c, t.power);
    assert SignText(false, c) == " - ";
    assert " - " + "0" == " - 0";
  }

  lemma ZeroNumeral(c: Decimal, power: Decimal)
    requires Value(c) == 0.0
    ensures Numeral(false, c, power) == "0"
  {
    assert Decimals.Sign(c) == 0;
    assert Abs(c).unscaled == 0;
    assert StripTrailingZeros(Abs(c)) == Zero;
    assert Shown(false, c) == Zero;
    assert Magnitude(false, c) == ToPlainString(Zero);
    assert Value(One) == 1.0;
    assert Compare(Abs(c), One) != 0;
  }
}
