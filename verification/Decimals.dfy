/**
 Rational amounts and their rounded decimal text (internal/api/decimals.go).
 */
module Decimals {
  import opened Wrappers
  import opened Numerals
  import opened Arithmetic
  import opened DecimalText

  /** A big.Rat: any numerator over a positive denominator. Nothing depends on lowest terms. */
  datatype Ratio = Ratio(num: int, den: nat)
  type Rat = r: Ratio | r.den > 0 witness Ratio(0, 1)

  predicate SameRat(a: Rat, b: Rat) {
    a.num * b.den == b.num * a.den
  }

  predicate AtMost(a: Rat, b: Rat) {
    a.num * b.den <= b.num * a.den
  }

  /** q / 10^scale as a rational. */
  function Scaled(q: int, scale: nat): Rat {
    Ratio(q, Pow10(scale))
  }

  // ----- Reading

  /**
   What parseDecimal reads from plain decimal text: an optional sign, digits, at most one point.
   Exponents, fractions, radix prefixes and underscores, which big.Rat also reads, are not covered.
   */
  function ReadDecimal(raw: string): Option<Rat> {
    var trimmed := TrimSpace(raw);
    if trimmed == "" then None
    else
      var signed := trimmed[0] == '-' || trimmed[0] == '+';
      var body := if signed then trimmed[1..] else trimmed;
      if body == "" || body == "." then None
      else
        match ReadPlain(body)
        case None => None
        case Some(f) => Some(Scaled(if trimmed[0] == '-' then -(f.num as int) else f.num as int, f.places))
  }

  /**
   Plain decimals, complete: between any white space an optional sign, digits, and optionally a point with more
   digits, where either run may be empty but not both; without any digit nothing is read.
   */
  lemma PlainDecimalsRead(left: string, sign: string, whole: string, frac: string, right: string)
    requires AllSpace(left) && AllSpace(right) && sign in {"", "+", "-"} && AllDigits(whole) && AllDigits(frac)
    ensures AllDigits(whole + frac)
    ensures ReadDecimal(left + (sign + whole + "." + frac) + right)
         == if whole + frac == "" then None
            else Some(Scaled(if sign == "-" then -(Value(whole + frac) as int) else Value(whole + frac), |frac|))
    ensures sign + whole != "" ==>
      ReadDecimal(left + (sign + whole) + right)
      == if whole == "" then None else Some(Scaled(if sign == "-" then -(Value(whole) as int) else Value(whole), 0))
  {
    hide ReadDecimal, Value, ReadPlain, Pow10, AllSpace;
    var dotted := whole + "." + frac;
    assert sign + dotted == sign + whole + "." + frac;
    assert |dotted| == |whole| + 1 + |frac|;
    ReadDigits(whole, frac);
    DottedEnds(whole, frac);
    ReadBody(left, sign, dotted, right);
    if sign + whole != "" {
      ReadBody(left, sign, whole, right);
    }
  }

  /** Past white space and sign, what is read is the plain decimal that follows. */
  lemma ReadBody(left: string, sign: string, body: string, right: string)
    requires AllSpace(left) && AllSpace(right) && sign in {"", "+", "-"} && sign + body != ""
    requires body != "" ==> (IsDigit(body[0]) || body[0] == '.') && (IsDigit(body[|body| - 1]) || body[|body| - 1] == '.')
    ensures ReadDecimal(left + (sign + body) + right)
         == if body == "" || body == "." || ReadPlain(body).None? then None
            else Some(Scaled(if sign == "-" then -(ReadPlain(body).value.num as int) else ReadPlain(body).value.num,
                             ReadPlain(body).value.places))
  {
    hide TrimSpace, ReadPlain, Pow10, AllSpace;
    TrimsSigned(left, sign, body, right);
  }

  // ----- Printing

  /** Half up for values from zero on; toward zero below. */
  function Rounded(v: Rat, scale: nat): int {
    var n := Shift(v.num, scale);
    if v.num >= 0 then (2 * n + v.den) / (2 * v.den) else -((-n) / v.den)
  }

  function SignedText(q: int, scale: nat): string {
    if q < 0 then "-" + PrintScaled(-q, scale) else PrintScaled(q, scale)
  }

  function DecimalOf(v: Rat, scale: nat): string {
    SignedText(Rounded(v, scale), scale)
  }

  /** big.Int.Quo: division that truncates toward zero. */
  function Quo(n: int, d: nat): (q: int)
    requires d > 0
    ensures n >= 0 ==> q >= 0
  {
    if n >= 0 then n / d else -((-n) / d)
  }

  /** big.Int.Rem: what Quo leaves, with the sign of n. */
  function Rem(n: int, d: nat): (r: int)
    requires d > 0
    ensures n >= 0 ==> r >= 0
  {
    if n >= 0 then n % d else -((-n) % d)
  }

  method FormatDecimal(v: Rat, scale: nat) returns (s: string)
    ensures s == DecimalOf(v, scale)
  {
    hide Text, TrimZeros, Pow10, PrintScaled, Rounded;
    var scaledNumerator := v.num * Pow10(scale);
    var quotient, remainder := Quo(scaledNumerator, v.den), Rem(scaledNumerator, v.den);
    var doubleRemainder := 2 * remainder;
    if doubleRemainder >= v.den {
      quotient := quotient + 1;
    }
    assert quotient == Rounded(v, scale) by {
      RoundedBySteps(v, scale);
    }
    var sign := "";
    if quotient < 0 {
      sign := "-";
      quotient := -quotient;
    }
    var whole, fraction := Quo(quotient, Pow10(scale)), Rem(quotient, Pow10(scale));
    var fractionDigits := Text(fraction);
    if |fractionDigits| < scale {
      fractionDigits := Zeros(scale - |fractionDigits|) + fractionDigits;
    }
    fractionDigits := TrimZeros(fractionDigits);
    PrintedPieces(quotient, scale);
    if fractionDigits == "" {
      return sign + Text(whole);
    }
    s := sign + Text(whole) + "." + fractionDigits;
    assert s == sign + JoinParts(whole, fractionDigits);
  }

  lemma PrintedPieces(q: nat, scale: nat)
    ensures PrintScaled(q, scale)
         == JoinParts(Quo(q, Pow10(scale)), TrimZeros(PadLeft(Text(Rem(q, Pow10(scale))), scale)))
  {
    hide Text, HighDigits, LowDigits, Pow10;
    HighAndLowDivide(q, scale);
  }

  /** The quotient that the printer works out step by step. */
  lemma RoundedBySteps(v: Rat, scale: nat)
    ensures var n := v.num * Pow10(scale);
      Rounded(v, scale) == if 2 * Rem(n, v.den) >= v.den then Quo(n, v.den) + 1 else Quo(n, v.den)
  {
    ShiftIsProduct(v.num, scale);
    ShiftSign(v.num, scale);
    if v.num >= 0 {
      HalfUp(Shift(v.num, scale), v.den);
    }
  }

  lemma ShiftSign(n: int, k: nat)
    ensures n >= 0 <==> Shift(n, k) >= 0
    ensures -Shift(n, k) == Shift(-n, k)
  {
    ShiftOrder(n, 0, k);
    ShiftZero(k);
    ShiftScale(-1, n, k);
  }

  // ----- What the text means

  /** The printed number is within half a unit of the last place, and a tie goes up. */
  lemma RoundedIsNearest(v: Rat, scale: nat)
    requires v.num >= 0
    ensures var q, n := Rounded(v, scale), Shift(v.num, scale);
      q >= 0 && -(v.den as int) < 2 * (q * v.den - n) <= v.den
  {
    ShiftSign(v.num, scale);
    NearestInteger(Shift(v.num, scale), v.den);
  }

  lemma NearestInteger(n: nat, d: nat)
    requires d > 0
    ensures var q := (2 * n + d) / (2 * d);
      q >= 0 && -(d as int) < 2 * (q * d - n) <= d
  {
    var q := (2 * n + d) / (2 * d);
    FloorBounds(2 * n + d, 2 * d);
    assert q * (2 * d) == 2 * (q * d);
    assert (q + 1) * (2 * d) == 2 * (q * d) + 2 * d;
    FloorAtLeast(2 * n + d, 2 * d, 0);
  }

  /** Below zero the printer drops digits: the printed number lies less than one unit toward zero. */
  lemma NegativeIsTruncated(v: Rat, scale: nat)
    requires v.num < 0
    ensures var q, n := Rounded(v, scale), Shift(v.num, scale);
      q <= 0 && 0 <= q * v.den - n < v.den
  {
    var n := Shift(v.num, scale);
    var w := (-n) / v.den;
    ShiftSign(v.num, scale);
    FloorBounds(-n, v.den);
    FloorAtLeast(-n, v.den, 0);
    assert -w * v.den == -(w * v.den);
  }

  /**
   The printed number is the nearest one, ties upward, exactly for values from zero on and for negative
   values at most half a unit of the last place below the number that their kept digits form.
   */
  lemma NearestExactly(v: Rat, scale: nat)
    ensures var q, n := Rounded(v, scale), Shift(v.num, scale);
      -(v.den as int) < 2 * (q * v.den - n) <= v.den <==> v.num >= 0 || 2 * ((-n) % v.den) <= v.den
  {
    var n := Shift(v.num, scale);
    if v.num >= 0 {
      RoundedIsNearest(v, scale);
    } else {
      hide Shift;
      TruncationError(n, v.den);
    }
  }

  lemma TruncationError(n: int, d: nat)
    requires d > 0
    ensures -((-n) / d) * d - n == (-n) % d
  {
    var w := (-n) / d;
    assert -n == w * d + (-n) % d;
    assert -w * d == -(w * d);
  }

  /** -0.6 to no places prints as 0, although -1 is nearer. */
  lemma NegativeIsNotNearest()
    ensures var v := Ratio(-6, 10);
      && DecimalOf(v, 0) == "0"
      && 2 * (Rounded(v, 0) * v.den - Shift(v.num, 0)) > v.den
      && -(v.den as int) < 2 * (-1 * v.den - Shift(v.num, 0)) <= v.den
  {
    var v: Rat := Ratio(-6, 10);
    assert Rounded(v, 0) == -((6 as int) / 10) == 0;
    assert Text(0) == "0" && LowDigits(0, 0) == 0;
    ZeroFraction(0);
  }

  /** The text denotes the rounded number and has the one canonical spelling. */
  lemma DecimalOfDenotes(v: Rat, scale: nat)
    requires v.num >= 0
    ensures Denotes(DecimalOf(v, scale), Rounded(v, scale), scale)
    ensures CanonicalDecimal(DecimalOf(v, scale))
  {
    RoundedIsNearest(v, scale);
    ReadPrinted(Rounded(v, scale), scale);
  }

  /** Multiples of 10^-scale, of either sign, are printed exactly. */
  lemma RoundedIsExact(v: Rat, scale: nat, q: int)
    requires Shift(v.num, scale) == q * v.den
    ensures Rounded(v, scale) == q
  {
    ShiftSign(v.num, scale);
    if v.num >= 0 {
      assert 2 * Shift(v.num, scale) + v.den == q * (2 * v.den) + v.den;
      DivModUnique(2 * Shift(v.num, scale) + v.den, 2 * v.den, q, v.den);
    } else {
      assert -Shift(v.num, scale) == -q * v.den;
      ExactDiv(-Shift(v.num, scale), v.den, -q);
    }
  }

  /** A larger value never prints as a smaller number. */
  lemma RoundedIsMonotone(a: Rat, b: Rat, scale: nat)
    requires AtMost(a, b)
    ensures Rounded(a, scale) <= Rounded(b, scale)
  {
    var m, n := Shift(a.num, scale), Shift(b.num, scale);
    ShiftRatios(a, b, scale);
    ShiftSign(a.num, scale);
    ShiftSign(b.num, scale);
    if a.num >= 0 {
      SignOfLarger(a, b);
      HalfUpMonotone(m, a.den, n, b.den);
    } else if b.num >= 0 {
      NegativeIsTruncated(a, scale);
      RoundedIsNearest(b, scale);
    } else {
      NegatedOrder(m, a.den, n, b.den);
      FloorMonotone(-n, b.den, -m, a.den);
    }
  }

  lemma NegatedOrder(m: int, d: int, n: int, e: int)
    requires m * e <= n * d
    ensures -n * d <= -m * e
  {
  }

  lemma HalfUpMonotone(m: nat, d: nat, n: nat, e: nat)
    requires d > 0 && e > 0 && m * e <= n * d
    ensures (2 * m + d) / (2 * d) <= (2 * n + e) / (2 * e)
  {
    assert (2 * m + d) * (2 * e) == 4 * (m * e) + 2 * (d * e);
    assert (2 * n + e) * (2 * d) == 4 * (n * d) + 2 * (d * e);
    FloorMonotone(2 * m + d, 2 * d, 2 * n + e, 2 * e);
  }

  lemma SignOfLarger(a: Rat, b: Rat)
    requires a.num >= 0 && AtMost(a, b)
    ensures b.num >= 0
  {
    if b.num < 0 {
      MulMonotone(b.num, -1, a.den);
      MulMonotone(0, a.num, b.den);
    }
  }

  lemma ShiftRatios(a: Rat, b: Rat, k: nat)
    requires AtMost(a, b)
    ensures Shift(a.num, k) * b.den <= Shift(b.num, k) * a.den
  {
    ShiftScale(b.den, a.num, k);
    ShiftScale(a.den, b.num, k);
    ShiftOrder(a.den * b.num, b.den * a.num, k);
  }

  /** Only the number matters, not the fraction it is given as. */
  lemma SameRatSameText(a: Rat, b: Rat, scale: nat)
    requires SameRat(a, b)
    ensures DecimalOf(a, scale) == DecimalOf(b, scale)
  {
    RoundedIsMonotone(a, b, scale);
    RoundedIsMonotone(b, a, scale);
  }

  // ----- Printing what was read

  /** Printed text, of either sign, reads back as the number that was printed. */
  lemma ReadSigned(q: int, scale: nat)
    ensures ReadDecimal(SignedText(q, scale)).Some?
    ensures SameRat(ReadDecimal(SignedText(q, scale)).value, Scaled(q, scale))
  {
    hide PrintScaled, ReadPlain, ReadDecimal, CanonicalDecimal, Shift, Pow10;
    var m: nat := if q < 0 then -q else q;
    var s := PrintScaled(m, scale);
    ReadPrinted(m, scale);
    ReadWithSign(s, q < 0);
    SameAsScaled(ReadPlain(s).value, m, scale);
  }

  lemma ReadWithSign(s: string, negative: bool)
    requires ReadPlain(s).Some? && CanonicalDecimal(s)
    ensures var f := ReadPlain(s).value;
      && ReadDecimal(if negative then "-" + s else s)
         == Some(Scaled(if negative then -(f.num as int) else f.num as int, f.places))
  {
    CanonicalEnds(s);
    DigitOnEnds(s);
    if negative {
      assert ("-" + s)[1..] == s;
      NothingToTrim("-" + s);
    }
  }

  lemma DigitOnEnds(s: string)
    requires s != "" && IsDigit(s[0])
    ensures s != "." && s[0] != '-' && s[0] != '+'
  {
  }

  lemma SameAsScaled(f: Fraction, m: nat, scale: nat)
    requires f.places <= scale && Shift(f.num, scale - f.places) == m
    ensures f.num * Pow10(scale) == m * Pow10(f.places)
    ensures -(f.num as int) * Pow10(scale) == -(m as int) * Pow10(f.places)
  {
    hide Shift, Pow10;
    ShiftIsProduct(f.num, scale);
    ShiftShift(f.num, scale - f.places, f.places);
    ShiftIsProduct(m, f.places);
  }

  lemma ReadOne()
    ensures ReadDecimal("1") == Some(Ratio(1, 1))
  {
    hide ReadPlain, CanonicalDecimal;
    ReadUnit();
    ReadWithSign("1", false);
    assert Pow10(0) == 1;
  }

  /** A number printed at one scale prints the same at any finer scale. */
  lemma FinerScaleSameText(q: int, scale: nat, finer: nat)
    requires scale <= finer
    ensures DecimalOf(Scaled(q, scale), finer) == SignedText(q, scale)
  {
    hide PrintScaled, SignedText;
    var k := finer - scale;
    assert Rounded(Scaled(q, scale), finer) == Shift(q, k) by {
      ShiftShift(q, k, scale);
      ShiftIsProduct(Shift(q, k), scale);
      RoundedIsExact(Scaled(q, scale), finer, Shift(q, k));
    }
    SignedIgnoresScale(q, scale, k);
  }

  lemma SignedIgnoresScale(q: int, scale: nat, k: nat)
    ensures SignedText(Shift(q, k), scale + k) == SignedText(q, scale)
  {
    hide PrintScaled, Shift;
    ShiftSign(q, k);
    if q < 0 {
      PrintIgnoresScale(-q, scale, k);
    } else {
      PrintIgnoresScale(q, scale, k);
    }
  }

  /** Reading a printed value and printing it again, at the same or any finer scale, changes nothing. */
  lemma FormatIsStable(v: Rat, scale: nat, finer: nat)
    requires scale <= finer
    ensures ReadDecimal(DecimalOf(v, scale)).Some?
    ensures DecimalOf(ReadDecimal(DecimalOf(v, scale)).value, finer) == DecimalOf(v, scale)
  {
    var q := Rounded(v, scale);
    ReadSigned(q, scale);
    SameRatSameText(ReadDecimal(SignedText(q, scale)).value, Scaled(q, scale), finer);
    FinerScaleSameText(q, scale, finer);
  }
}
