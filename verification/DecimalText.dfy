/**
 Plain decimal text: how both price and amount formatters lay out a scaled integer,
 and how both readers take such text apart again.
 */
module DecimalText {
  import opened Wrappers
  import opened Numerals

  /** num / 10^places, as read from digits with an optional point. */
  datatype Fraction = Fraction(num: nat, places: nat)

  /** Two fractions denote the same number. */
  predicate SameNumber(a: Fraction, b: Fraction) {
    Shift(a.num, b.places) == Shift(b.num, a.places)
  }

  predicate Less(a: Fraction, b: Fraction) {
    Shift(a.num, b.places) < Shift(b.num, a.places)
  }

  /** Digits with at most one point; everything missing reads as zero. */
  function ReadPlain(s: string): Option<Fraction> {
    var i := IndexOf(s, '.');
    var frac := if i < |s| then s[i + 1..] else "";
    if AllDigits(s[..i] + frac) then Some(Fraction(Value(s[..i] + frac), |frac|)) else None
  }

  /** s reads as the number q / 10^scale, written with at most scale places. */
  predicate Denotes(s: string, q: nat, scale: nat) {
    var r := ReadPlain(s);
    r.Some? && r.value.places <= scale && Shift(r.value.num, scale - r.value.places) == q
  }

  /** The digits after the point of f / 10^scale, for f below 10^scale. */
  function FractionText(f: nat, scale: nat): string {
    TrimZeros(PadLeft(Text(f), scale))
  }

  /** The point appears only when fraction digits are left. */
  function JoinParts(w: nat, fraction: string): string {
    if fraction == "" then Text(w) else Text(w) + "." + fraction
  }

  /** The text of q / 10^scale: whole part, then a fraction without trailing zeros if any is left. */
  function PrintScaled(q: nat, scale: nat): string {
    JoinParts(HighDigits(q, scale), FractionText(LowDigits(q, scale), scale))
  }

  /** The only text a number may have: no superfluous zero at either end, and no bare point. */
  predicate CanonicalDecimal(s: string) {
    var i := IndexOf(s, '.');
    && Canonical(s[..i])
    && (i < |s| ==> i + 1 < |s| && AllDigits(s[i + 1..]) && s[|s| - 1] != '0')
  }

  /** Fraction digits as they should be: trimmed, short enough, and worth exactly f. */
  predicate FractionOf(t: string, f: nat, scale: nat) {
    && AllDigits(t) && |t| <= scale
    && Shift(Value(t), scale - |t|) == f
    && (t != "" ==> t[|t| - 1] != '0')
  }

  lemma FractionDigits(f: nat, scale: nat)
    requires f < Pow10(scale)
    ensures FractionOf(FractionText(f, scale), f, scale)
  {
    if scale == 0 {
      assert Text(f) == "0";
      assert TrimZeros("0") == TrimZeros("0"[..0]) == "";
    } else {
      var s := FixedDigits(f, scale);
      assert FractionText(f, scale) == TrimZeros(s) by {
        PadIsFixedDigits(f, scale);
      }
      assert Value(s) == f by {
        ValueOfFixedDigits(f, scale);
      }
      TrimmedDigits(s);
    }
  }

  lemma TrimmedDigits(s: string)
    requires AllDigits(s)
    ensures FractionOf(TrimZeros(s), Value(s), |s|)
  {
    hide TrimZeros, Value, Shift;
    var t := TrimZeros(s);
    TrimZerosSplits(s);
    assert forall i | 0 <= i < |t| :: t[i] == s[i];
    PaddedValue(t, |s| - |t|);
  }

  lemma PaddedValue(t: string, k: nat)
    requires AllDigits(t)
    ensures AllDigits(t + Zeros(k)) && Value(t + Zeros(k)) == Shift(Value(t), k)
  {
    hide Value, Shift;
    ValueAppend(t, Zeros(k));
    ValueOfZeros(k);
  }

  lemma NoDotInDigits(s: string)
    requires AllDigits(s)
    ensures '.' !in s && IndexOf(s, '.') == |s|
  {
  }

  lemma ReadWhole(whole: string)
    requires Canonical(whole)
    ensures ReadPlain(whole) == Some(Fraction(Value(whole), 0)) && CanonicalDecimal(whole)
  {
    NoDotInDigits(whole);
    assert whole[..|whole|] + "" == whole;
  }

  lemma ReadDotted(whole: string, t: string)
    requires Canonical(whole) && AllDigits(t) && t != "" && t[|t| - 1] != '0'
    ensures AllDigits(whole + t)
    ensures ReadPlain(whole + "." + t) == Some(Fraction(Value(whole + t), |t|))
    ensures CanonicalDecimal(whole + "." + t)
  {
    var s := whole + "." + t;
    NoDotInDigits(whole);
    IndexOfJoint(whole, '.', t);
    assert IndexOf(s, '.') == |whole| < |s|;
    assert s[..|whole|] == whole;
    assert s[|whole| + 1..] == t;
    assert AllDigits(whole + t);
    assert s[|s| - 1] == t[|t| - 1];
  }

  /** Printing then reading gives back the number, in the one canonical spelling. */
  lemma ReadPrinted(q: nat, scale: nat)
    ensures Denotes(PrintScaled(q, scale), q, scale)
    ensures CanonicalDecimal(PrintScaled(q, scale))
  {
    var f := LowDigits(q, scale);
    HighAndLow(q, scale);
    FractionDigits(f, scale);
    ReadParts(HighDigits(q, scale), FractionText(f, scale), f, scale);
  }

  lemma ReadParts(w: nat, t: string, f: nat, scale: nat)
    requires FractionOf(t, f, scale)
    ensures Denotes(JoinParts(w, t), Shift(w, scale) + f, scale)
    ensures CanonicalDecimal(JoinParts(w, t))
  {
    ReadJoined(w, t);
    DenotesJoined(JoinParts(w, t), w, t, f, scale);
  }

  lemma DenotesJoined(s: string, w: nat, t: string, f: nat, scale: nat)
    requires FractionOf(t, f, scale)
    requires ReadPlain(s) == Some(Fraction(Shift(w, |t|) + Value(t), |t|))
    ensures Denotes(s, Shift(w, scale) + f, scale)
  {
    Rejoin(w, Value(t), |t|, scale, f);
  }

  lemma Rejoin(w: nat, v: nat, places: nat, scale: nat, f: nat)
    requires places <= scale && Shift(v, scale - places) == f
    ensures Shift(Shift(w, places) + v, scale - places) == Shift(w, scale) + f
  {
    ShiftShift(w, places, scale - places);
    ShiftLinear(Shift(w, places), v, scale - places);
  }

  lemma NoFraction(w: nat)
    ensures Shift(w, 0) + Value("") == w
  {
  }

  lemma ReadJoined(w: nat, t: string)
    requires AllDigits(t) && (t != "" ==> t[|t| - 1] != '0')
    ensures ReadPlain(JoinParts(w, t)) == Some(Fraction(Shift(w, |t|) + Value(t), |t|))
    ensures CanonicalDecimal(JoinParts(w, t))
  {
    hide Text, ReadPlain, CanonicalDecimal, Shift;
    var whole := Text(w);
    TextIsCanonical(w);
    ValueOfText(w);
    if t == "" {
      ReadWhole(whole);
      NoFraction(w);
    } else {
      ReadDotted(whole, t);
      ValueAppend(whole, t);
    }
  }

  /** Canonical text starts and ends with a digit, so trimming leaves it alone. */
  lemma CanonicalEnds(s: string)
    requires CanonicalDecimal(s)
    ensures s != "" && IsDigit(s[0]) && IsDigit(s[|s| - 1]) && TrimSpace(s) == s
  {
    var i := IndexOf(s, '.');
    assert s[..i][0] == s[0];
    if i < |s| {
      assert s[i + 1..][|s| - i - 2] == s[|s| - 1];
    } else {
      assert s[..i][|s| - 1] == s[|s| - 1];
    }
    NothingToTrim(s);
  }

  lemma ZeroFraction(scale: nat)
    ensures FractionText(0, scale) == ""
  {
    var t := FractionText(0, scale);
    FractionDigits(0, scale);
    ShiftZero(scale - |t|);
    ShiftCancel(Value(t), 0, scale - |t|);
    ZeroValueTrims(t);
  }

  /** The fraction digits do not depend on the scale the remainder was held at. */
  lemma FractionIgnoresScale(f: nat, scale: nat, k: nat)
    requires f < Pow10(scale)
    ensures FractionText(Shift(f, k), scale + k) == FractionText(f, scale)
  {
    if scale == 0 {
      ShiftZero(k);
      ZeroFraction(0);
      ZeroFraction(k);
    } else {
      ShiftOrder(f, Pow10(scale), k);
      Pow10Add(scale, k);
      PadIsFixedDigits(Shift(f, k), scale + k);
      PadIsFixedDigits(f, scale);
      FixedDigitsShifted(f, scale, k);
      TrimZerosOfPadded(FixedDigits(f, scale), k);
    }
  }

  /** The text depends on the number only, not on the scale it was held at. */
  lemma PrintIgnoresScale(q: nat, scale: nat, k: nat)
    ensures PrintScaled(Shift(q, k), scale + k) == PrintScaled(q, scale)
  {
    HighAndLowShifted(q, scale, k);
    HighAndLow(q, scale);
    FractionIgnoresScale(LowDigits(q, scale), scale, k);
  }

  /** Digits worth zero that do not end in zero are no digits at all. */
  lemma ZeroValueTrims(t: string)
    requires AllDigits(t) && Value(t) == 0 && (t != "" ==> t[|t| - 1] != '0')
    ensures t == ""
  {
  }

  /** Equal numbers, printed from any two scales, give the same text. */
  lemma PrintSameNumber(q: nat, scale: nat, q': nat, scale': nat)
    requires Shift(q, scale') == Shift(q', scale)
    ensures PrintScaled(q, scale) == PrintScaled(q', scale')
  {
    if scale <= scale' {
      PrintFiner(q, scale, q', scale');
    } else {
      PrintFiner(q', scale', q, scale);
    }
  }

  lemma PrintFiner(q: nat, scale: nat, q': nat, scale': nat)
    requires scale <= scale' && Shift(q, scale') == Shift(q', scale)
    ensures PrintScaled(q, scale) == PrintScaled(q', scale')
  {
    hide Shift, PrintScaled;
    var k := scale' - scale;
    ShiftShift(q, k, scale);
    ShiftCancel(Shift(q, k), q', scale);
    PrintIgnoresScale(q, scale, k);
  }

  /** Texts of numbers at one scale compare as the numbers do. */
  lemma DenotesOrder(s: string, q: nat, s': string, q': nat, scale: nat)
    requires Denotes(s, q, scale) && Denotes(s', q', scale)
    ensures Less(ReadPlain(s).value, ReadPlain(s').value) <==> q < q'
    ensures SameNumber(ReadPlain(s).value, ReadPlain(s').value) <==> q == q'
  {
    OrderAtScale(ReadPlain(s).value, q, ReadPlain(s').value, q', scale);
    OrderAtScale(ReadPlain(s').value, q', ReadPlain(s).value, q, scale);
  }

  lemma OrderAtScale(a: Fraction, q: nat, b: Fraction, q': nat, scale: nat)
    requires a.places <= scale && Shift(a.num, scale - a.places) == q
    requires b.places <= scale && Shift(b.num, scale - b.places) == q'
    ensures Less(a, b) <==> q < q'
  {
    var k := scale - a.places + (scale - b.places);
    ShiftShift(a.num, b.places, k);
    ShiftShift(b.num, a.places, k);
    ShiftShift(a.num, scale - a.places, scale);
    ShiftShift(b.num, scale - b.places, scale);
    assert Shift(Shift(a.num, b.places), k) == Shift(q, scale);
    assert Shift(Shift(b.num, a.places), k) == Shift(q', scale);
    ShiftOrder(Shift(a.num, b.places), Shift(b.num, a.places), k);
    ShiftOrder(q, q', scale);
  }

  /** Digits with a point, and digits alone, read as the number they spell. */
  lemma ReadDigits(whole: string, frac: string)
    requires AllDigits(whole) && AllDigits(frac)
    ensures AllDigits(whole + frac)
    ensures ReadPlain(whole + "." + frac) == Some(Fraction(Value(whole + frac), |frac|))
    ensures ReadPlain(whole) == Some(Fraction(Value(whole), 0))
  {
    hide Value;
    var s := whole + "." + frac;
    NoDotInDigits(whole);
    IndexOfJoint(whole, '.', frac);
    assert s[..|whole|] == whole && s[|whole| + 1..] == frac;
    assert whole[..|whole|] + "" == whole;
  }

  lemma DottedEnds(whole: string, frac: string)
    requires AllDigits(whole) && AllDigits(frac)
    ensures var s := whole + "." + frac;
      && (IsDigit(s[0]) || s[0] == '.') && (IsDigit(s[|s| - 1]) || s[|s| - 1] == '.')
      && (s == "." <==> whole + frac == "")
    ensures whole != "." && (whole != "" ==> IsDigit(whole[0]) && IsDigit(whole[|whole| - 1]))
  {
    var s := whole + "." + frac;
    if s == "." {
      assert |whole| + 1 + |frac| == 1;
    }
    if whole + frac == "" {
      assert s == ".";
    }
  }

  // ----- Spellings of one unit and of one in the last place

  lemma IntegerText(n: nat)
    ensures PrintScaled(n, 0) == Text(n)
  {
    ZeroFraction(0);
  }

  lemma ReadUnit()
    ensures ReadPlain("1") == Some(Fraction(1, 0)) && CanonicalDecimal("1") && Text(1) == "1"
  {
    assert "1"[..0] == "" && Value("1") == 1;
    ReadWhole("1");
  }

  function LastPlace(k: nat): string
    requires k > 0
  {
    "0." + Zeros(k - 1) + "1"
  }

  lemma ReadLastPlace(k: nat)
    requires k > 0
    ensures ReadPlain(LastPlace(k)) == Some(Fraction(1, k)) && CanonicalDecimal(LastPlace(k))
  {
    hide Value, ReadPlain, CanonicalDecimal;
    var t := Zeros(k - 1) + "1";
    assert LastPlace(k) == "0" + "." + t;
    assert "0" + t == Zeros(k) + "1";
    ValueAppend(Zeros(k), "1");
    ValueOfZeros(k);
    ShiftZero(1);
    ValueOfOne();
    ReadDotted("0", t);
  }

  lemma ValueOfOne()
    ensures Value("1") == 1
  {
    assert "1"[..0] == "";
  }
}
