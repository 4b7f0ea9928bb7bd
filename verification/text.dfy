/**
  The text forms the formatters produce and read back: Integer.toString and
  StringBuilder.append(int), BigDecimal.toPlainString, new BigDecimal(String)
  and String.split("\\.").
*/
module DecimalText {
  import opened Wrappers
  import opened Decimals

  predicate IsDigit(c: char)
  {
    '0' <= c <= '9'
  }

  predicate AllDigits(s: string)
  {
    forall i :: 0 <= i < |s| ==> IsDigit(s[i])
  }

  function DigitChar(d: nat): (c: char)
    requires d < 10
    ensures IsDigit(c)
  {
    ('0' as int + d) as char
  }

  function DigitValue(c: char): (d: nat)
    requires IsDigit(c)
    ensures d < 10 && DigitChar(d) == c
  {
    c as int - '0' as int
  }

  /** The number a string of decimal digits denotes, most significant digit first. */
  function DigitsValue(s: string): nat
    requires AllDigits(s)
  {
    if s == [] then 0 else DigitsValue(s[..|s| - 1]) * 10 + DigitValue(s[|s| - 1])
  }

  /** Reading the digits of a + b: the digits of a are shifted left by |b| places. */
  lemma {:induction false} DigitsValueConcat(a: string, b: string)
    requires AllDigits(a) && AllDigits(b)
    ensures AllDigits(a + b)
    ensures DigitsValue(a + b) == DigitsValue(a) * Pow10(|b|) + DigitsValue(b)
  {
    if b == [] {
      assert a + b == a;
    } else {
      var b' := b[..|b| - 1];
      assert (a + b)[..|a + b| - 1] == a + b';
      assert (a + b)[|a + b| - 1] == b[|b| - 1];
      DigitsValueConcat(a, b');
      assert Pow10(|b|) == Pow10(|b'|) * 10;
      ShiftStep(DigitsValue(a), Pow10(|b'|), DigitsValue(b'), DigitValue(b[|b| - 1]));
    }
  }

  lemma ShiftStep(x: int, p: int, y: int, d: int)
    ensures (x * p + y) * 10 + d == x * (p * 10) + (y * 10 + d)
  {
  }

  /** k zero digits. */
  function Zeros(k: nat): (s: string)
    ensures |s| == k && AllDigits(s)
    ensures forall i :: 0 <= i < k ==> s[i] == '0'
  {
    seq(k, _ => '0')
  }

  lemma {:induction false} ZerosValue(k: nat)
    ensures DigitsValue(Zeros(k)) == 0
  {
    if k > 0 {
      assert Zeros(k)[..k - 1] == Zeros(k - 1);
      ZerosValue(k - 1);
    }
  }

  /** Integer.toString / BigInteger.toString of a non-negative number: its shortest digit string. */
  function NatToString(n: nat): (s: string)
    ensures |s| >= 1 && AllDigits(s)
    ensures DigitsValue(s) == n
    ensures s[0] == '0' ==> n == 0
  {
    if n < 10 then
      [DigitChar(n)]
    else
      var s := NatToString(n / 10) + [DigitChar(n % 10)];
      assert s[..|s| - 1] == NatToString(n / 10);
      s
  }

  /** Integer.toString: an optional '-' and the digits of the magnitude. */
  function IntToString(i: int): string
  {
    if i < 0 then "-" + NatToString(-i) else NatToString(i)
  }

  /** The last k decimal digits of m, padded with leading zeros to exactly k digits. */
  function PaddedDigits(m: nat, k: nat): (s: string)
    ensures |s| == k && AllDigits(s)
    ensures DigitsValue(s) == m % Pow10(k)
  {
    if k == 0 then
      []
    else
      var s := PaddedDigits(m / 10, k - 1) + [DigitChar(m % 10)];
      assert s[..|s| - 1] == PaddedDigits(m / 10, k - 1);
      LastDigitsStep(m, Pow10(k - 1));
      s
  }

  lemma LastDigitsStep(m: nat, p: nat)
    requires p >= 1
    ensures (m / 10) % p * 10 + m % 10 == m % (10 * p)
  {
    var a, b := m / 10, m % 10;
    var c, d := a / p, a % p;
    assert m == (10 * p) * c + (10 * d + b) by {
      assert m == 10 * a + b;
      assert a == p * c + d;
    }
    ModUnique(m, 10 * p, c, 10 * d + b);
  }

  /** Euclidean remainders are unique. */
  lemma ModUnique(m: int, p: int, c: int, r: int)
    requires p > 0 && 0 <= r < p && m == p * c + r
    ensures m % p == r && m / p == c
  {
    var c', r' := m / p, m % p;
    assert (c - c') * p == r' - r;
    MulAwayFromZero(c - c', p);
  }

  /** A digit string is all zeros exactly when it denotes 0. */
  lemma {:induction false} DigitsValueZero(s: string)
    requires AllDigits(s)
    ensures DigitsValue(s) == 0 <==> forall i :: 0 <= i < |s| ==> s[i] == '0'
  {
    if s != [] {
      var s' := s[..|s| - 1];
      DigitsValueZero(s');
      assert forall i :: 0 <= i < |s'| ==> s'[i] == s[i];
      assert (forall i :: 0 <= i < |s| ==> s[i] == '0') <==>
             (forall i :: 0 <= i < |s'| ==> s'[i] == '0') && s[|s| - 1] == '0';
    }
  }

  /**
    BigDecimal.toPlainString(): no exponent; a negative scale appends zeros
    (and a zero prints as "0"), a positive scale puts the point before the last
    `scale` digits, padding with zeros after "0." when there are too few.
  */
  function ToPlainString(d: Decimal): string
  {
    if d.scale == 0 then
      IntToString(d.unscaled)
    else if d.scale < 0 then
      if d.unscaled == 0 then "0" else IntToString(d.unscaled) + Zeros(-d.scale)
    else
      var n := AbsInt(d.unscaled);
      (if d.unscaled < 0 then "-" else "") + NatToString(DropDigits(n, d.scale)) + "." + PaddedDigits(n, d.scale)
  }

  /** The first position of c in s. */
  function IndexOf(s: string, c: char): (i: nat)
    requires c in s
    ensures i < |s| && s[i] == c && c !in s[..i]
  {
    if s[0] == c then 0 else IndexOf(s[1..], c) + 1
  }

  /** The first occurrence of c is found just after a prefix that does not contain it. */
  lemma {:induction false} IndexOfAfter(a: string, c: char, b: string)
    requires c !in a
    ensures IndexOf(a + [c] + b, c) == |a|
  {
    var s := a + [c] + b;
    if a != [] {
      assert s[1..] == a[1..] + [c] + b;
      IndexOfAfter(a[1..], c, b);
    }
  }

  /** Digits, at most one '.', and at least one digit, without a sign. */
  function ParseUnsigned(s: string): Option<Decimal>
  {
    if '.' in s then
      var i := IndexOf(s, '.');
      var whole, fraction := s[..i], s[i + 1..];
      if AllDigits(whole) && AllDigits(fraction) && |whole| + |fraction| > 0 then
        DigitsValueConcat(whole, fraction);
        Some(Decimal(DigitsValue(whole + fraction), |fraction|))
      else
        None
    else if AllDigits(s) && |s| > 0 then
      Some(Decimal(DigitsValue(s), 0))
    else
      None
  }

  /**
    new BigDecimal(String) for the plain forms: an optional '-', digits and an
    optional '.'; the scale is the number of digits after the point. `None`
    stands for the NumberFormatException of any other string.
  */
  function ParseDecimal(s: string): Option<Decimal>
  {
    if |s| > 0 && s[0] == '-' then
      match ParseUnsigned(s[1..])
      case None => None
      case Some(d) => Some(Neg(d))
    else
      ParseUnsigned(s)
  }

  /** The decimal a plain string denotes: a negative scale's zeros become digits. */
  function Plain(d: Decimal): Decimal
  {
    if d.scale < 0 then Decimal(d.unscaled * Pow10(-d.scale), 0) else d
  }

  lemma DigitsHaveNo(s: string, c: char)
    requires AllDigits(s) && !IsDigit(c)
    ensures c !in s
  {
  }

  lemma ParseNatToString(n: nat)
    ensures ParseUnsigned(NatToString(n)) == Some(Decimal(n, 0))
  {
    DigitsHaveNo(NatToString(n), '.');
  }

  lemma ParseIntToString(i: int)
    ensures ParseDecimal(IntToString(i)) == Some(Decimal(i, 0))
  {
    if i < 0 {
      assert IntToString(i)[1..] == NatToString(-i);
      ParseNatToString(-i);
    } else {
      ParseNatToString(i);
    }
  }

  /** "w.f" splits at its only point into the digits w and f. */
  lemma ParseWithPoint(w: string, f: string)
    requires AllDigits(w) && AllDigits(f) && |w| > 0
    ensures AllDigits(w + f)
    ensures ParseUnsigned(w + "." + f) == Some(Decimal(DigitsValue(w + f), |f|))
  {
    var s := w + "." + f;
    assert s == w + ['.'] + f;
    DigitsHaveNo(w, '.');
    IndexOfAfter(w, '.', f);
    assert '.' in s by {
      assert s[|w|] == '.';
    }
    var i := IndexOf(s, '.');
    assert s[..i] == w;
    assert s[i + 1..] == f;
    DigitsValueConcat(w, f);
  }

  /** Reading the plain text of a decimal back gives the same decimal (with no negative scale). */
  lemma ParsePlainString(d: Decimal)
    ensures ParseDecimal(ToPlainString(d)) == Some(Plain(d))
  {
    if d.scale < 0 {
      ParseShiftedPlain(d);
    } else if d.scale > 0 {
      ParsePointed(d);
    } else {
      ParseIntToString(d.unscaled);
    }
  }

  lemma ParseShiftedPlain(d: Decimal)
    requires d.scale < 0
    ensures ParseDecimal(ToPlainString(d)) == Some(Plain(d))
  {
    if d.unscaled != 0 {
      ParseShiftedInt(d.unscaled, -d.scale);
    } else {
      assert NatToString(0) == "0";
      ParseNatToString(0);
    }
  }

  /** The text of a decimal with a positive scale: its sign, then the digits around the point. */
  function PointedText(n: nat, s: nat): string
  {
    NatToString(DropDigits(n, s)) + "." + PaddedDigits(n, s)
  }

  lemma PlainStringPointed(d: Decimal)
    requires d.scale > 0
    ensures ToPlainString(d) == (if d.unscaled < 0 then "-" else "") + PointedText(AbsInt(d.unscaled), d.scale)
  {
    var w, f := NatToString(DropDigits(AbsInt(d.unscaled), d.scale)), PaddedDigits(AbsInt(d.unscaled), d.scale);
    assert "" + w == w;
    assert ("-" + w) + "." + f == "-" + (w + "." + f);
  }

  lemma ParsePointedText(n: nat, s: nat)
    requires s > 0
    ensures ParseUnsigned(PointedText(n, s)) == Some(Decimal(n, s))
  {
    var w, f := NatToString(DropDigits(n, s)), PaddedDigits(n, s);
    ParseWithPoint(w, f);
    DigitsValueConcat(w, f);
  }

  lemma ParsePointed(d: Decimal)
    requires d.scale > 0
    ensures ParseDecimal(ToPlainString(d)) == Some(d)
  {
    var t := PointedText(AbsInt(d.unscaled), d.scale);
    PlainStringPointed(d);
    ParsePointedText(AbsInt(d.unscaled), d.scale);
    if d.unscaled < 0 {
      ParseNegative(t);
    } else {
      NoSign(t);
      PointedTextHead(AbsInt(d.unscaled), d.scale);
      ParseUnsignedDigitFirst(t);
    }
  }

  lemma NoSign(t: string)
    ensures "" + t == t
  {
  }

  lemma PointedTextHead(n: nat, s: nat)
    ensures |PointedText(n, s)| > 0 && IsDigit(PointedText(n, s)[0])
  {
    var w := NatToString(DropDigits(n, s));
    assert PointedText(n, s)[0] == w[0];
  }

  lemma ParseShiftedInt(u: int, k: nat)
    requires u != 0
    ensures ParseDecimal(IntToString(u) + Zeros(k)) == Some(Decimal(u * Pow10(k), 0))
  {
    if u < 0 {
      ParseShiftedNegative(u, k);
    } else {
      ParseShiftedPositive(u, k);
    }
  }

  lemma ParseShiftedNegative(u: int, k: nat)
    requires u < 0
    ensures ParseDecimal(IntToString(u) + Zeros(k)) == Some(Decimal(u * Pow10(k), 0))
  {
    var n: nat := -u;
    var s := NatToString(n) + Zeros(k);
    ParseShiftedNat(n, k);
    NegativeIntToString(u, n);
    SignThen(NatToString(n), Zeros(k));
    ParseNegative(s);
    NegatedProduct(u, n, Pow10(k));
  }

  lemma ParseShiftedPositive(u: int, k: nat)
    requires u > 0
    ensures ParseDecimal(IntToString(u) + Zeros(k)) == Some(Decimal(u * Pow10(k), 0))
  {
    var s := NatToString(u) + Zeros(k);
    ParseShiftedNat(u, k);
    assert IntToString(u) == NatToString(u);
    assert s[0] == NatToString(u)[0];
    ParseUnsignedDigitFirst(s);
  }

  lemma SignThen(w: string, z: string)
    ensures "-" + w + z == "-" + (w + z)
  {
  }

  /** A leading '-' negates what the rest of the text denotes. */
  lemma ParseNegative(s: string)
    ensures ParseDecimal("-" + s) == match ParseUnsigned(s) case None => None case Some(d) => Some(Neg(d))
  {
    assert ("-" + s)[1..] == s;
  }

  /** Text that starts with a digit is read without a sign. */
  lemma ParseUnsignedDigitFirst(s: string)
    requires |s| > 0 && IsDigit(s[0])
    ensures ParseDecimal(s) == ParseUnsigned(s)
  {
  }

  lemma NegatedProduct(u: int, n: int, p: int)
    requires u == -n
    ensures u * p == -(n * p)
  {
  }

  lemma ParseShiftedNat(n: nat, k: nat)
    ensures ParseUnsigned(NatToString(n) + Zeros(k)) == Some(Decimal(n * Pow10(k), 0))
  {
    var s := NatToString(n) + Zeros(k);
    DigitsValueConcat(NatToString(n), Zeros(k));
    ZerosValue(k);
    DigitsHaveNo(s, '.');
    assert DigitsValue(s) == n * Pow10(k);
  }

  /** A negative decimal prints as '-' followed by the text of its magnitude. */
  lemma PlainStringOfNegative(d: Decimal)
    requires d.unscaled < 0
    ensures ToPlainString(d) == "-" + ToPlainString(Abs(d))
  {
    var n := -d.unscaled;
    assert Abs(d) == Decimal(n, d.scale);
    if d.scale == 0 {
      assert ToPlainString(d) == "-" + NatToString(n);
    } else if d.scale < 0 {
      assert ToPlainString(d) == "-" + NatToString(n) + Zeros(-d.scale);
      assert ToPlainString(Abs(d)) == NatToString(n) + Zeros(-d.scale);
    } else {
      var w, f := NatToString(DropDigits(n, d.scale)), PaddedDigits(n, d.scale);
      assert ToPlainString(d) == "-" + w + "." + f;
      assert ToPlainString(Abs(d)) == "" + w + "." + f;
    }
  }

  /** A decimal with no negative scale prints the same after a parse round trip. */
  lemma PlainStringOfPlain(d: Decimal)
    ensures ToPlainString(Plain(d)) == ToPlainString(d)
  {
    if d.scale < 0 && d.unscaled != 0 {
      ShiftedIntString(d.unscaled, -d.scale);
    }
  }

  lemma ShiftedIntString(u: int, k: nat)
    requires u != 0
    ensures IntToString(u * Pow10(k)) == IntToString(u) + Zeros(k)
  {
    var n := AbsInt(u);
    NatToStringShift(n, k);
    if u < 0 {
      NegMul(n, Pow10(k));
      MulAwayFromZero(n, Pow10(k));
      NegativeIntToString(u * Pow10(k), n * Pow10(k));
      NegativeIntToString(u, n);
      assert ("-" + NatToString(n)) + Zeros(k) == "-" + (NatToString(n) + Zeros(k));
    } else {
      MulAwayFromZero(u, Pow10(k));
      assert IntToString(u * Pow10(k)) == NatToString(n * Pow10(k));
    }
  }

  lemma NegativeIntToString(v: int, m: int)
    requires v == -m && m >= 1
    ensures IntToString(v) == "-" + NatToString(m)
  {
  }

  lemma NatToStringTimesTen(m: nat)
    requires m >= 1
    ensures NatToString(m * 10) == NatToString(m) + "0"
  {
    var t := m * 10;
    assert t / 10 == m && t % 10 == 0;
    assert DigitChar(0) == '0';
  }

  /** Multiplying a positive number by 10^k appends k zeros to its digits. */
  lemma {:induction false} NatToStringShift(n: nat, k: nat)
    requires n > 0
    ensures NatToString(n * Pow10(k)) == NatToString(n) + Zeros(k)
  {
    if k == 0 {
      assert n * Pow10(k) == n;
      assert NatToString(n) + Zeros(0) == NatToString(n);
    } else {
      NatToStringShift(n, k - 1);
      var m := ShiftByTen(n, k);
      NatToStringTimesTen(m);
      ZerosStep(NatToString(n), k);
    }
  }

  /** n · 10^k is ten times the positive number n · 10^(k−1). */
  lemma ShiftByTen(n: nat, k: nat) returns (m: nat)
    requires n > 0 && k > 0
    ensures m == n * Pow10(k - 1) && m >= 1 && n * Pow10(k) == m * 10
  {
    m := n * Pow10(k - 1);
    MulAssoc(n, Pow10(k - 1), 10);
    assert Pow10(k) == Pow10(k - 1) * 10;
  }

  lemma ZerosStep(w: string, k: nat)
    requires k > 0
    ensures w + Zeros(k - 1) + "0" == w + Zeros(k)
  {
    assert Zeros(k) == Zeros(k - 1) + "0";
  }

  /** The pieces of s between its '.' characters, left to right. */
  function DotPieces(s: string): (parts: seq<string>)
    ensures |parts| >= 1
    decreases |s|
  {
    if '.' in s then
      var i := IndexOf(s, '.');
      [s[..i]] + DotPieces(s[i + 1..])
    else
      [s]
  }

  function DropTrailingEmpty(parts: seq<string>): (r: seq<string>)
    ensures |r| <= |parts| && r == parts[..|r|]
  {
    if |parts| > 0 && parts[|parts| - 1] == "" then DropTrailingEmpty(parts[..|parts| - 1]) else parts
  }

  /**
    String.split("\\."): the pieces between the dots, with trailing empty
    pieces removed; a string without a dot is its own single piece.
  */
  function SplitOnDot(s: string): seq<string>
  {
    if '.' in s then DropTrailingEmpty(DotPieces(s)) else [s]
  }

  /** Splitting "a.b" with no other dot and a non-empty b gives the two halves. */
  lemma SplitOnSingleDot(a: string, b: string)
    requires '.' !in a && '.' !in b && b != ""
    ensures SplitOnDot(a + "." + b) == [a, b]
  {
    var s := a + "." + b;
    IndexOfAfter(a, '.', b);
    assert s[..|a|] == a;
    assert s[|a| + 1..] == b;
    assert DotPieces(s) == [a, b];
  }

  /** A plain-text round trip keeps the value. */
  lemma PlainValue(d: Decimal)
    ensures Value(Plain(d)) == Value(d)
  {
    if d.scale < 0 {
      WholeOfNonPositiveScale(d);
      ValueOfScaleZero(d.unscaled * Pow10(-d.scale));
    }
  }

  /**
    The plain text of a decimal is never empty, begins with '-' exactly for a
    negative decimal and with a digit otherwise, and holds a point exactly when
    the scale is positive.
  */
  lemma PlainStringHead(d: Decimal)
    ensures |ToPlainString(d)| > 0
    ensures ToPlainString(d)[0] == '-' <==> d.unscaled < 0
    ensures d.unscaled >= 0 ==> IsDigit(ToPlainString(d)[0])
    ensures '.' in ToPlainString(d) <==> d.scale > 0
  {
    var n := AbsInt(d.unscaled);
    var w := NatToString(n);
    DigitsHaveNo(w, '.');
    if d.scale == 0 {
      assert ToPlainString(d) == (if d.unscaled < 0 then "-" else "") + w;
    } else if d.scale < 0 {
      DigitsHaveNo(Zeros(-d.scale), '.');
      if d.unscaled != 0 {
        assert ToPlainString(d) == (if d.unscaled < 0 then "-" else "") + w + Zeros(-d.scale);
      }
    } else {
      var q, f := NatToString(DropDigits(n, d.scale)), PaddedDigits(n, d.scale);
      var sign := if d.unscaled < 0 then "-" else "";
      assert ToPlainString(d) == sign + q + "." + f;
      assert ToPlainString(d)[|sign| + |q|] == '.';
      assert ToPlainString(d)[0] == (sign + q)[0];
    }
  }

  /**
    A decimal with no trailing zeros and a fraction prints with a last digit
    that is not zero: its plain text has no zeros to strip.
  */
  lemma StrippedPlainStringEnd(d: Decimal)
    requires Stripped(d) && d.scale > 0
    ensures |ToPlainString(d)| > 0 && ToPlainString(d)[|ToPlainString(d)| - 1] != '0'
  {
    var n := AbsInt(d.unscaled);
    var f := PaddedDigits(n, d.scale);
    PlainStringPointed(d);
    LastPaddedDigit(n, d.scale);
    NonZeroLastDigit(d.unscaled);
    var t := (if d.unscaled < 0 then "-" else "") + PointedText(n, d.scale);
    LastOfConcat((if d.unscaled < 0 then "-" else "") + NatToString(DropDigits(n, d.scale)) + ".", f);
  }

  lemma LastPaddedDigit(m: nat, k: nat)
    requires k > 0
    ensures PaddedDigits(m, k)[k - 1] == DigitChar(m % 10)
  {
  }

  lemma NonZeroLastDigit(u: int)
    requires u % 10 != 0
    ensures AbsInt(u) % 10 != 0 && DigitChar(AbsInt(u) % 10) != '0'
  {
    if u < 0 {
      assert u == -(AbsInt(u) as int);
    }
  }

  lemma LastOfConcat(a: string, b: string)
    requires |b| > 0
    ensures (a + b)[|a + b| - 1] == b[|b| - 1]
  {
  }
}
