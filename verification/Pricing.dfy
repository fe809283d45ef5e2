/**
 Tick arithmetic (internal/pricing/pricing.go): prices enter as decimal text, are held as a
 whole number of ticks, and leave as decimal text again.
 */
module Pricing {
  import opened Wrappers
  import opened Numerals
  import opened Arithmetic
  import opened DecimalText

  datatype PriceError =
    | ValueRequired
    | InvalidDecimal
    | OffTick(tickSize: string)
    | NotPositive
    | InvalidTicks
    | NegativeTicks

  /** The tick size as given, the quote precision, and the tick size as a fraction. */
  datatype Converter = Converter(tickSize: string, quotePrecision: int, tick: Fraction)

  // ----- Reading decimal text

  /** What decimalToFraction reads: white space and one leading plus are ignored. */
  function ReadFraction(raw: string): Result<Fraction, PriceError> {
    var trimmed := TrimSpace(raw);
    if trimmed == "" then Err(ValueRequired)
    else
      match ReadPlain(if trimmed[0] == '+' then trimmed[1..] else trimmed)
      case Some(f) => Ok(f)
      case None => Err(InvalidDecimal)
  }

  method DecimalToFraction(raw: string) returns (r: Result<Fraction, PriceError>)
    ensures r == ReadFraction(raw)
  {
    var trimmed := TrimSpace(raw);
    if trimmed == "" {
      return Err(ValueRequired);
    }
    if trimmed[0] == '+' {
      trimmed := trimmed[1..];
    }
    var parts := Split(trimmed, '.');
    SplitParts(trimmed);
    if |parts| > 2 {
      return Err(InvalidDecimal);
    }
    var intPart := parts[0];
    if intPart == "" {
      intPart := "0";
    }
    var fracPart := if |parts| == 2 then parts[1] else "";
    var digits := intPart + fracPart;
    for i := 0 to |digits|
      invariant forall j | 0 <= j < i :: IsDigit(digits[j])
    {
      if digits[i] < '0' || digits[i] > '9' {
        return Err(InvalidDecimal);
      }
    }
    r := Ok(Fraction(Value(digits), |fracPart|));
  }

  /** The fraction formed by the text before and after the point, an empty whole part counting as zero. */
  function FromParts(whole: string, frac: string): Option<Fraction> {
    var digits := (if whole == "" then "0" else whole) + frac;
    if AllDigits(digits) then Some(Fraction(Value(digits), |frac|)) else None
  }

  lemma LeadingZero(s: string)
    ensures AllDigits("0" + s) <==> AllDigits(s)
    ensures AllDigits(s) ==> Value("0" + s) == Value(s)
  {
    if AllDigits(s) {
      ValueAppend("0", s);
      ShiftZero(|s|);
      assert Value("0") == 0;
    } else {
      var i :| 0 <= i < |s| && !IsDigit(s[i]);
      assert ("0" + s)[i + 1] == s[i];
    }
  }

  /** Splitting at the points agrees with cutting at the first one. */
  lemma SplitParts(s: string)
    ensures var parts := Split(s, '.');
      ReadPlain(s) == if |parts| > 2 then None else FromParts(parts[0], if |parts| == 2 then parts[1] else "")
  {
    hide Split, Value, FromParts;
    var i := IndexOf(s, '.');
    var whole, frac := s[..i], if i < |s| then s[i + 1..] else "";
    SplitShape(s);
    CutIsParts(whole, frac);
    if |Split(s, '.')| > 2 {
      var k := IndexOf(frac, '.');
      assert (whole + frac)[i + k] == '.';
    }
  }

  lemma CutIsParts(whole: string, frac: string)
    ensures FromParts(whole, frac)
         == if AllDigits(whole + frac) then Some(Fraction(Value(whole + frac), |frac|)) else None
  {
    hide Value;
    LeadingZero(frac);
    if whole == "" {
      assert whole + frac == frac;
    }
  }

  lemma SplitShape(s: string)
    ensures var parts, i := Split(s, '.'), IndexOf(s, '.');
      if i == |s| then parts == [s[..i]]
      else if IndexOf(s[i + 1..], '.') == |s| - i - 1 then parts == [s[..i], s[i + 1..]]
      else |parts| > 2
  {
    hide IndexOf;
    var i := IndexOf(s, '.');
    if i == |s| {
      assert s[..i] == s;
    } else {
      var rest := s[i + 1..];
      var k := IndexOf(rest, '.');
      if k < |rest| {
        assert Split(rest, '.') == [rest[..k]] + Split(rest[k + 1..], '.');
      } else {
        assert Split(rest, '.') == [rest];
      }
    }
  }

  /**
   Which text is a decimal, and which number it is: between any white space an optional plus, digits, and
   optionally a point with more digits, where either run of digits may be empty.
   */
  lemma DecimalsRead(left: string, sign: string, whole: string, frac: string, right: string)
    requires AllSpace(left) && AllSpace(right) && sign in {"", "+"} && AllDigits(whole) && AllDigits(frac)
    ensures AllDigits(whole + frac)
    ensures ReadFraction(left + (sign + whole + "." + frac) + right) == Ok(Fraction(Value(whole + frac), |frac|))
    ensures sign + whole != "" ==> ReadFraction(left + (sign + whole) + right) == Ok(Fraction(Value(whole), 0))
  {
    hide ReadFraction, Value, ReadPlain, AllSpace;
    var dotted := whole + "." + frac;
    assert sign + dotted == sign + whole + "." + frac;
    ReadDigits(whole, frac);
    DottedEnds(whole, frac);
    ReadBody(left, sign, dotted, right);
    if sign + whole != "" {
      ReadBody(left, sign, whole, right);
    }
  }

  /** Past white space and a plus, what is read is the plain decimal that follows. */
  lemma ReadBody(left: string, sign: string, body: string, right: string)
    requires AllSpace(left) && AllSpace(right) && sign in {"", "+"} && sign + body != ""
    requires body != "" ==> (IsDigit(body[0]) || body[0] == '.') && (IsDigit(body[|body| - 1]) || body[|body| - 1] == '.')
    requires ReadPlain(body).Some?
    ensures ReadFraction(left + (sign + body) + right) == Ok(ReadPlain(body).value)
  {
    hide TrimSpace, ReadPlain, AllSpace;
    TrimsSigned(left, sign, body, right);
  }

  /** Nothing else is one: past one leading plus, every other character is a digit or a single point. So no minus is read. */
  lemma OnlyDecimalsRead(raw: string)
    requires ReadFraction(raw).Ok?
    ensures var trimmed := TrimSpace(raw);
      && trimmed != ""
      && forall i | 0 <= i < |trimmed| ::
          || IsDigit(trimmed[i])
          || (trimmed[i] == '.' && forall j | 0 <= j < i :: trimmed[j] != '.')
          || (trimmed[i] == '+' && i == 0)
  {
    hide TrimSpace, ReadPlain;
    var trimmed := TrimSpace(raw);
    var body := if trimmed[0] == '+' then trimmed[1..] else trimmed;
    PlainShape(body);
    assert forall i | 0 <= i < |trimmed| :: trimmed[i] == if trimmed[0] != '+' then body[i] else if i == 0 then '+' else body[i - 1];
  }

  lemma PlainShape(body: string)
    requires ReadPlain(body).Some?
    ensures forall i | 0 <= i < |body| :: IsDigit(body[i]) || (body[i] == '.' && forall j | 0 <= j < i :: body[j] != '.')
  {
    hide Value;
    var d := IndexOf(body, '.');
    var digits := body[..d] + if d < |body| then body[d + 1..] else "";
    forall i | 0 <= i < |body| && i != d
      ensures IsDigit(body[i])
    {
      assert IsDigit(digits[if i < d then i else i - 1]);
    }
  }

  // ----- Converting

  function NewConverter(tickSize: string, quotePrecision: int): Result<Converter, PriceError> {
    match ReadFraction(tickSize)
    case Ok(tick) => Ok(Converter(tickSize, quotePrecision, tick))
    case Err(e) => Err(e)
  }

  /** The display text of a tick count: the number ticks * tick. */
  function TicksText(c: Converter, ticks: nat): string {
    assert ticks * c.tick.num >= 0;
    PrintScaled(ticks * c.tick.num, c.tick.places)
  }

  /** What FormatTicks answers for tick text. */
  function FormattedTicks(c: Converter, ticks: string): Result<string, PriceError> {
    match ReadInt(TrimSpace(ticks))
    case None => Err(InvalidTicks)
    case Some(value) => if value < 0 then Err(NegativeTicks) else Ok(TicksText(c, value))
  }

  method FormatTicks(c: Converter, ticks: string) returns (r: Result<string, PriceError>)
    ensures r == FormattedTicks(c, ticks)
  {
    var value := ReadInt(TrimSpace(ticks));
    if value.None? {
      return Err(InvalidTicks);
    }
    if value.value < 0 {
      return Err(NegativeTicks);
    }
    var denominator := Pow10(c.tick.places);
    var numerator: nat := value.value * c.tick.num;
    HighAndLowDivide(numerator, c.tick.places);
    var integer := numerator / denominator;
    var remainder := numerator % denominator;
    if remainder == 0 {
      ZeroFraction(c.tick.places);
      return Ok(Text(integer));
    }
    var scale: nat := if c.tick.places > c.quotePrecision then c.tick.places else c.quotePrecision;
    var fractionNumerator := remainder * Pow10(scale);
    Rescale(remainder, c.tick.places, scale);
    fractionNumerator := fractionNumerator / denominator;
    FractionIgnoresScale(remainder, c.tick.places, scale - c.tick.places);
    var fraction := Text(fractionNumerator);
    if |fraction| < scale {
      fraction := Zeros(scale - |fraction|) + fraction;
    }
    fraction := TrimZeros(fraction);
    if fraction == "" {
      return Ok(Text(integer));
    }
    return Ok(Text(integer) + "." + fraction);
  }

  /** Bringing a remainder to a finer scale divides out exactly. */
  lemma Rescale(remainder: nat, places: nat, scale: nat)
    requires places <= scale
    ensures (remainder * Pow10(scale)) / Pow10(places) == Shift(remainder, scale - places)
  {
    var k := scale - places;
    ShiftIsProduct(remainder, scale);
    ShiftShift(remainder, k, places);
    ShiftIsProduct(Shift(remainder, k), places);
    ExactDiv(remainder * Pow10(scale), Pow10(places), Shift(remainder, k));
  }

  /**
   Ticks and display text of a price. The quotient is
   (numerator * tickDenominator) / (denominator * tickNumerator), both denominators being powers of ten.
   */
  function Parse(c: Converter, price: string): Result<(string, string), PriceError>
    requires c.tick.num > 0
  {
    match ReadFraction(price)
    case Err(e) => Err(e)
    case Ok(f) =>
      var scaledNumerator: nat := Shift(f.num, c.tick.places);
      var scaledDenominator: nat := Shift(c.tick.num, f.places);
      if scaledNumerator % scaledDenominator != 0 then Err(OffTick(c.tickSize))
      else if scaledNumerator / scaledDenominator <= 0 then Err(NotPositive)
      else
        var quotient := scaledNumerator / scaledDenominator;
        match FormattedTicks(c, IntText(quotient))
        case Err(e) => Err(e)
        case Ok(display) => Ok((IntText(quotient), display))
  }

  // ----- Printing and parsing undo each other

  /** The number f is exactly t ticks. */
  predicate IsTicks(c: Converter, f: Fraction, t: nat) {
    Shift(f.num, c.tick.places) == t * Shift(c.tick.num, f.places)
  }

  /** Display text is exact: it denotes ticks * tick, in the one canonical spelling. */
  lemma TicksTextIsExact(c: Converter, t: nat)
    ensures ReadFraction(TicksText(c, t)).Ok?
    ensures IsTicks(c, ReadFraction(TicksText(c, t)).value, t)
    ensures CanonicalDecimal(TicksText(c, t))
  {
    ReadDisplay(c, t);
    DenotesTicks(c, TicksText(c, t), t);
  }

  lemma DenotesTicks(c: Converter, s: string, t: nat)
    requires Denotes(s, t * c.tick.num, c.tick.places)
    ensures IsTicks(c, ReadPlain(s).value, t)
  {
    var f := ReadPlain(s).value;
    TicksAtScale(c, f, t);
  }

  lemma TicksAtScale(c: Converter, f: Fraction, t: nat)
    requires f.places <= c.tick.places && Shift(f.num, c.tick.places - f.places) == t * c.tick.num
    ensures IsTicks(c, f, t)
  {
    ShiftShift(f.num, c.tick.places - f.places, f.places);
    ShiftScale(t, c.tick.num, f.places);
  }

  lemma ReadDisplay(c: Converter, t: nat)
    ensures var s := TicksText(c, t);
      && Denotes(s, t * c.tick.num, c.tick.places) && CanonicalDecimal(s)
      && ReadFraction(s) == Ok(ReadPlain(s).value)
  {
    hide PrintScaled, ReadPlain, CanonicalDecimal, Denotes;
    ReadPrinted(t * c.tick.num, c.tick.places);
    DenotesReads(TicksText(c, t), t * c.tick.num, c.tick.places);
    ReadCanonical(TicksText(c, t), ReadPlain(TicksText(c, t)).value);
  }

  lemma DenotesReads(s: string, q: nat, scale: nat)
    requires Denotes(s, q, scale)
    ensures ReadPlain(s).Some?
  {
  }

  /** Canonical text has nothing to trim and no sign to drop. */
  lemma ReadCanonical(s: string, f: Fraction)
    requires CanonicalDecimal(s) && ReadPlain(s) == Some(f)
    ensures ReadFraction(s) == Ok(f)
  {
    hide ReadPlain, CanonicalDecimal;
    CanonicalEnds(s);
  }

  /** A price parses to t ticks exactly when it is a positive multiple, t, of the tick size. */
  lemma ParseMeaning(c: Converter, price: string, t: nat)
    requires c.tick.num > 0
    ensures Parse(c, price) == Ok((Text(t), TicksText(c, t)))
       <==> ReadFraction(price).Ok? && t > 0 && IsTicks(c, ReadFraction(price).value, t)
  {
    match ReadFraction(price)
    case Err(e) =>
    case Ok(f) =>
      var n, d := Shift(f.num, c.tick.places), Shift(c.tick.num, f.places);
      ParseQuotient(c, price, f);
      if IsTicks(c, f, t) {
        ExactDiv(n, d, t);
      }
      if Parse(c, price) == Ok((Text(t), TicksText(c, t))) {
        TextIsInjective(n / d, t);
      }
  }

  lemma ParseQuotient(c: Converter, price: string, f: Fraction)
    requires c.tick.num > 0 && ReadFraction(price) == Ok(f)
    ensures var n, d := Shift(f.num, c.tick.places), Shift(c.tick.num, f.places);
      && d > 0
      && (Parse(c, price).Ok? <==> n % d == 0 && n / d > 0)
      && (Parse(c, price).Ok? ==>
            n == (n / d) * d && Parse(c, price) == Ok((Text(n / d), TicksText(c, n / d))))
  {
    var n, d := Shift(f.num, c.tick.places), Shift(c.tick.num, f.places);
    WholeQuotient(n, d);
    ReadIntOfText(n / d);
  }

  lemma WholeQuotient(n: nat, d: nat)
    requires d > 0
    ensures n / d >= 0 && (n % d == 0 ==> n == (n / d) * d)
  {
  }

  /** Parse undoes FormatTicks, on ticks and on text. */
  lemma ParseUndoesFormat(c: Converter, t: nat)
    requires c.tick.num > 0 && t > 0
    ensures FormattedTicks(c, Text(t)) == Ok(TicksText(c, t))
    ensures Parse(c, TicksText(c, t)) == Ok((Text(t), TicksText(c, t)))
  {
    ReadIntOfText(t);
    TicksTextIsExact(c, t);
    ParseMeaning(c, TicksText(c, t), t);
  }

  /** Parsing again the text that Parse displayed changes nothing. */
  lemma ParseIsIdempotent(c: Converter, price: string)
    requires c.tick.num > 0 && Parse(c, price).Ok?
    ensures Parse(c, Parse(c, price).value.1) == Parse(c, price)
  {
    var f := ReadFraction(price).value;
    ParseQuotient(c, price, f);
    ParseUndoesFormat(c, Shift(f.num, c.tick.places) / Shift(c.tick.num, f.places));
  }

  /** Two spellings of one number are treated alike, down to the displayed text and the error. */
  lemma EqualPricesParseAlike(c: Converter, price: string, price': string)
    requires c.tick.num > 0
    requires ReadFraction(price).Ok? && ReadFraction(price').Ok?
    requires SameNumber(ReadFraction(price).value, ReadFraction(price').value)
    ensures Parse(c, price) == Parse(c, price')
  {
    var f, g := ReadFraction(price).value, ReadFraction(price').value;
    var n, d := Shift(f.num, c.tick.places), Shift(c.tick.num, f.places);
    var n', d' := Shift(g.num, c.tick.places), Shift(c.tick.num, g.places);
    CrossRatio(f, g, c.tick);
    EqualRatios(n, d, n', d');
  }

  lemma CrossRatio(f: Fraction, g: Fraction, tick: Fraction)
    requires SameNumber(f, g)
    ensures Shift(f.num, tick.places) * Shift(tick.num, g.places) == Shift(g.num, tick.places) * Shift(tick.num, f.places)
  {
    CrossTerm(f, g.places, tick);
    CrossTerm(g, f.places, tick);
  }

  lemma CrossTerm(f: Fraction, k: nat, tick: Fraction)
    ensures Shift(f.num, tick.places) * Shift(tick.num, k) == Shift(tick.num * Shift(f.num, k), tick.places)
  {
    var b := tick.num;
    calc {
      Shift(f.num, tick.places) * Shift(b, k);
      { ShiftScale(Shift(f.num, tick.places), b, k); }
      Shift(Shift(f.num, tick.places) * b, k);
      { ShiftScale(b, f.num, tick.places); }
      Shift(Shift(b * f.num, tick.places), k);
      { ShiftShift(b * f.num, tick.places, k); ShiftShift(b * f.num, k, tick.places); }
      Shift(Shift(b * f.num, k), tick.places);
      { ShiftScale(b, f.num, k); }
      Shift(b * Shift(f.num, k), tick.places);
    }
  }

  /** Tick order is price order, for every positive tick size. */
  lemma TickOrderIsPriceOrder(c: Converter, t: nat, t': nat)
    requires c.tick.num > 0
    ensures ReadFraction(TicksText(c, t)).Ok? && ReadFraction(TicksText(c, t')).Ok?
    ensures t < t' <==> Less(ReadFraction(TicksText(c, t)).value, ReadFraction(TicksText(c, t')).value)
    ensures t == t' <==> TicksText(c, t) == TicksText(c, t')
  {
    ReadDisplay(c, t);
    ReadDisplay(c, t');
    DenotesOrder(TicksText(c, t), t * c.tick.num, TicksText(c, t'), t' * c.tick.num, c.tick.places);
    MulCancel(t, t', c.tick.num);
    MulCancel(t', t, c.tick.num);
  }
}
