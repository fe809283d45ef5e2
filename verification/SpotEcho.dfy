/**
 The spot round trip: a user's price and size become a reciprocal price rounded to 18 places and a whole
 cNGN amount, and the echo derived from the stored order must give the user's terms back.
 */
module SpotEcho {
  import opened Wrappers
  import opened Numerals
  import opened Arithmetic
  import opened DecimalText
  import opened Decimals
  import opened Pricing
  import opened TradeData
  import opened Orders
  import opened SpotContract
  import opened Admission

  const SPOT := Instrument("0.000000000000000001", 18, "0.000001", false, true)

  const E6 := 1_000_000
  const E12 := 1_000_000_000_000
  const E18 := 1_000_000_000_000_000_000
  const E24 := 1_000_000_000_000_000_000_000_000

  lemma PowersOfTen()
    ensures Pow10(6) == E6 && Pow10(12) == E12 && Pow10(18) == E18 && Pow10(24) == E24
  {
    assert Pow10(1) == 10 && Pow10(2) == 100 && Pow10(3) == 1000;
    Pow10Add(3, 3);
    Pow10Add(6, 6);
    Pow10Add(6, 12);
    Pow10Add(12, 12);
  }

  /** v is q millionths. */
  predicate IsMicros(v: Rat, q: nat) {
    v.num * E6 == q * v.den
  }

  lemma MicrosAreScaled(v: Rat, q: nat)
    requires IsMicros(v, q)
    ensures SameRat(v, Scaled(q, 6)) && Rounded(v, 6) == q
    ensures DecimalOf(v, 18) == PrintScaled(q, 6) && DecimalOf(v, 6) == PrintScaled(q, 6)
  {
    hide Rounded, PrintScaled, DecimalOf, Shift;
    PowersOfTen();
    ShiftIsProduct(v.num, 6);
    RoundedIsExact(v, 6, q);
    SameRatSameText(v, Scaled(q, 6), 18);
    SameRatSameText(v, Scaled(q, 6), 6);
    FinerScaleSameText(q, 6, 18);
    FinerScaleSameText(q, 6, 6);
    NonNegativeText(q, 6);
  }

  lemma NonNegativeText(q: nat, scale: nat)
    ensures SignedText(q, scale) == PrintScaled(q, scale)
  {
  }

  // ----- The engine price

  /** The reciprocal of q millionths, to the nearest 10^-18, in units of 10^-18. */
  function EnginePrice(q: nat): nat
    requires q > 0
  {
    var e := (2 * E24 + q) / (2 * q);
    FloorAtLeast(2 * E24 + q, 2 * q, 0);
    e
  }

  lemma EnginePriceBounds(q: nat)
    requires q > 0
    ensures -(q as int) < 2 * (EnginePrice(q) * q - E24) <= q
  {
    NearestInteger(E24, q);
  }

  lemma EnginePriceText(v: Rat, q: nat)
    requires v.num > 0 && q > 0 && IsMicros(v, q)
    ensures DecimalOf(Inverse(v), 18) == PrintScaled(EnginePrice(q), 18)
  {
    hide DecimalOf, PrintScaled, Shift, SignedText;
    var w: Rat := Ratio(E6, q);
    assert SameRat(Inverse(v), w);
    SameRatSameText(Inverse(v), w, 18);
    PowersOfTen();
    ShiftIsProduct(E6, 18);
    assert Rounded(w, 18) == EnginePrice(q);
    DecimalOfRounded(w, 18);
    NonNegativeText(EnginePrice(q), 18);
  }

  lemma DecimalOfRounded(v: Rat, scale: nat)
    ensures DecimalOf(v, scale) == SignedText(Rounded(v, scale), scale)
  {
  }

  /** The price that the echo recovers from an engine price. */
  function RecoveredPrice(e: nat): nat
    requires e > 0
  {
    var q := (2 * E24 + e) / (2 * e);
    FloorAtLeast(2 * E24 + e, 2 * e, 0);
    q
  }

  /** The user's price survives exactly when the engine price is this close to its reciprocal. */
  predicate PriceSurvives(q: nat)
    requires q > 0
  {
    var e := EnginePrice(q);
    -(e as int) < 2 * (e * q - E24) <= e
  }

  lemma RecoveredExactly(q: nat)
    requires q > 0 && EnginePrice(q) > 0
    ensures RecoveredPrice(EnginePrice(q)) == q <==> PriceSurvives(q)
  {
    hide EnginePrice;
    FloorIs(2 * E24 + EnginePrice(q), 2 * EnginePrice(q), q);
  }

  lemma FloorIs(n: int, d: int, q: int)
    requires d > 0
    ensures n / d == q <==> q * d <= n < (q + 1) * d
  {
    if q * d <= n < (q + 1) * d {
      assert (q + 1) * d == q * d + d;
      DivModUnique(n, d, q, n - q * d);
    } else {
      FloorBounds(n, d);
    }
  }

  // ----- The bound

  /** The largest price, in millionths, below which every price survives. */
  const MAX_PRICE := 1_000_000_707_106

  lemma PriceSurvivesUpToMax(q: nat)
    requires 0 < q <= MAX_PRICE
    ensures EnginePrice(q) > 0 && PriceSurvives(q)
  {
    hide EnginePrice;
    var e := EnginePrice(q);
    EnginePriceBounds(q);
    if q <= E12 {
      SmallPrice(q, e);
    } else {
      PriceAboveMillion(q - E12, e);
    }
  }

  lemma SmallPrice(q: nat, e: nat)
    requires 0 < q <= E12 && -(q as int) < 2 * (e * q - E24) <= q
    ensures q <= e
  {
    if e < q {
      MulMonotone(e, q - 1, q);
      MulMonotone(q, E12, q);
    }
  }

  lemma PriceAboveMillion(k: nat, e: nat)
    requires 0 < k <= 707_106
    requires var q := E12 + k; -(q as int) < 2 * (e * q - E24) <= q
    ensures e == E12 - k && -(e as int) < 2 * (e * (E12 + k) - E24) <= e
  {
    var q, d := E12 + k, e - (E12 - k);
    MulMonotone(k, 707_106, k);
    assert k * k <= 707_106 * 707_106;
    assert e * q == E24 - k * k + d * q by {
      assert e == (E12 - k) + d;
      assert (E12 - k) * (E12 + k) == E24 - k * k;
    }
    if d >= 1 {
      MulMonotone(1, d, q);
    } else if d <= -1 {
      MulMonotone(d, -1, q);
    }
  }

  /** Its reciprocal to 18 places, for the next price up. */
  const LOST_ENGINE_PRICE := 999_999_292_893

  /** The next price up already fails: 1000000.707107 is echoed as a different number. */
  lemma BoundIsSharp()
    ensures EnginePrice(MAX_PRICE + 1) == LOST_ENGINE_PRICE
    ensures !PriceSurvives(MAX_PRICE + 1) && RecoveredPrice(EnginePrice(MAX_PRICE + 1)) != MAX_PRICE + 1
  {
    RecoveredExactly(MAX_PRICE + 1);
  }

  // ----- The size

  /** The user's size survives exactly when the price's rounding error, times the size, stays within half a millionth. */
  predicate SizeSurvives(q: nat, s: nat)
    requires q > 0
  {
    -E24 < 2 * s * (E24 - EnginePrice(q) * q) <= E24
  }

  lemma SmallNotionalSurvives(q: nat, s: nat)
    requires q > 0 && s * q < E24
    ensures SizeSurvives(q, s)
  {
    hide EnginePrice;
    EnginePriceBounds(q);
    var x := E24 - EnginePrice(q) * q;
    MulMonotone(-(q as int), 2 * x, s);
    MulMonotone(2 * x, q, s);
    assert 2 * x * s == 2 * s * x && q * s == s * q && -(q as int) * s == -(s * q);
  }

  /** The size in the echo: amount times engine price, to the nearest millionth. */
  lemma RecoveredSize(q: nat, s: nat, amount: nat, e: nat)
    requires q > 0 && e == EnginePrice(q) && amount * E12 == s * q
    ensures var v: Rat := Ratio(amount * e, E18);
      Rounded(v, 6) == s <==> SizeSurvives(q, s)
  {
    hide EnginePrice, Shift;
    var v: Rat := Ratio(amount * e, E18);
    var n := Shift(v.num, 6);
    PowersOfTen();
    ShiftIsProduct(v.num, 6);
    assert n == amount * e * E6;
    SizeArithmetic(q, s, amount, e);
    FloorIs(2 * n + E18, 2 * E18, s);
  }

  lemma SizeArithmetic(q: nat, s: nat, amount: nat, e: nat)
    requires amount * E12 == s * q
    ensures var n := amount * e * E6;
      (s * (2 * E18) <= 2 * n + E18 < (s + 1) * (2 * E18)) <==> (-E24 < 2 * s * (E24 - e * q) <= E24)
  {
    var y := amount * e;
    assert y * E12 == s * (e * q) by {
      assert y * E12 == (amount * E12) * e;
      assert (s * q) * e == s * (e * q);
    }
    assert 2 * s * (E24 - e * q) == 2 * s * E24 - 2 * (s * (e * q));
  }

  // ----- Both records, from the numbers behind them

  /** A spot record with whole cNGN amount: deltas repeat the size and the amount with their signs. */
  function Shape(side: Side, price: string, size: string, enginePrice: string, amount: string): Echo {
    Echo(side, price, size, Opposite(side), enginePrice, amount,
         (if side == Buy then "+" else "-") + size, (if side == Buy then "-" else "+") + amount)
  }

  lemma SignedTexts(v: Rat, scale: nat)
    requires v.num > 0
    ensures SignedDecimal(v, scale) == "+" + DecimalOf(v, scale)
    ensures SignedDecimal(Negate(v), scale) == "-" + DecimalOf(v, scale)
  {
    hide DecimalOf;
  }

  lemma DeltaTexts(side: Side, size: Rat, amount: Rat)
    requires size.num > 0 && amount.num > 0
    ensures SignedDecimal(UsdcDelta(side, size), 6) == (if side == Buy then "+" else "-") + DecimalOf(size, 6)
    ensures SignedDecimal(CngnDelta(side, amount), 6) == (if side == Buy then "-" else "+") + DecimalOf(amount, 6)
  {
    hide DecimalOf, SignedDecimal;
    SignedTexts(size, 6);
    SignedTexts(amount, 6);
  }

  /** A whole amount prints as an integer at every scale. */
  lemma WholeText(v: Rat, amount: nat, scale: nat)
    requires v.num == amount * v.den
    ensures DecimalOf(v, scale) == Text(amount)
  {
    hide DecimalOf, Text;
    SameRatSameText(v, Scaled(amount, 0), scale);
    FinerScaleSameText(amount, 0, scale);
    NonNegativeText(amount, 0);
    IntegerText(amount);
  }

  lemma ProductOfMicros(a: Rat, b: Rat, m: nat, n: nat, whole: nat)
    requires IsMicros(a, m) && IsMicros(b, n) && whole * E12 == m * n
    ensures Product(a, b).num == whole * Product(a, b).den
  {
    var p := Product(a, b);
    assert p.num * E12 == (m * n) * p.den by {
      assert (a.num * E6) * (b.num * E6) == (a.num * b.num) * E12;
      assert (m * a.den) * (n * b.den) == (m * n) * (a.den * b.den);
    }
    assert (whole * E12) * p.den == (whole * p.den) * E12;
    MulCancel(p.num, whole * p.den, E12);
  }

  lemma ProductIsPositive(a: Rat, b: Rat)
    requires a.num > 0 && b.num > 0
    ensures Product(a, b).num > 0
  {
    MulMonotone(1, a.num, b.num);
  }

  /** The intent names q millionths of price and s millionths of size. */
  ghost predicate Intends(intent: Intent, q: nat, s: nat) {
    && intent.side.Some? && intent.price.value.Some? && intent.size.value.Some?
    && intent.price.value.value.num > 0 && intent.size.value.value.num > 0
    && IsMicros(intent.price.value.value, q) && IsMicros(intent.size.value.value, s)
    && q > 0 && s > 0
  }

  lemma TranslatedShape(intent: Intent, q: nat, s: nat, amount: nat)
    requires Intends(intent, q, s) && amount * E12 == s * q
    ensures Translated(intent)
         == Ok(Shape(intent.side.value, PrintScaled(q, 6), PrintScaled(s, 6), PrintScaled(EnginePrice(q), 18), Text(amount)))
  {
    hide DecimalOf, PrintScaled, SignedDecimal, Text, EnginePrice, Product, Inverse;
    var price, size := intent.price.value.value, intent.size.value.value;
    MicrosAreScaled(price, q);
    MicrosAreScaled(size, s);
    EnginePriceText(price, q);
    var v := Product(size, price);
    ProductOfMicros(size, price, s, q, amount);
    ProductIsPositive(size, price);
    WholeText(v, amount, 18);
    WholeText(v, amount, 6);
    DeltaTexts(intent.side.value, size, v);
  }

  lemma ReadScaled(q: nat, scale: nat)
    ensures ReadDecimal(PrintScaled(q, scale)).Some?
    ensures SameRat(ReadDecimal(PrintScaled(q, scale)).value, Scaled(q, scale))
  {
    hide ReadDecimal, PrintScaled;
    ReadSigned(q, scale);
    NonNegativeText(q, scale);
  }

  lemma SignOfSame(a: Rat, b: Rat)
    requires SameRat(a, b) && b.num > 0
    ensures a.num > 0
  {
    MulMonotone(1, b.num, a.den);
    if a.num <= 0 {
      MulMonotone(a.num, 0, b.den);
    }
  }

  lemma InverseOfScaled(p: Rat, e: nat)
    requires e > 0 && p.num > 0 && SameRat(p, Scaled(e, 18))
    ensures DecimalOf(Inverse(p), 6) == PrintScaled(RecoveredPrice(e), 6)
  {
    hide DecimalOf, PrintScaled, Shift, SignedText;
    PowersOfTen();
    var w: Rat := Ratio(E18, e);
    SameRatSameText(Inverse(p), w, 6);
    ShiftIsProduct(E18, 6);
    assert Rounded(w, 6) == RecoveredPrice(e);
    DecimalOfRounded(w, 6);
    NonNegativeText(RecoveredPrice(e), 6);
  }

  /** The size the echo works out, in millionths. */
  function EchoedSize(amount: nat, e: nat): int {
    var v: Rat := Ratio(amount * e, E18);
    Rounded(v, 6)
  }

  lemma SizeText(a: Rat, p: Rat, amount: nat, e: nat)
    requires a.num == amount * a.den && SameRat(p, Scaled(e, 18))
    ensures EchoedSize(amount, e) >= 0 && DecimalOf(Product(a, p), 6) == PrintScaled(EchoedSize(amount, e), 6)
  {
    hide DecimalOf, PrintScaled, Rounded, SignedText;
    PowersOfTen();
    var v: Rat := Ratio(amount * e, E18);
    MulMonotone(0, amount, e);
    assert SameRat(Product(a, p), v) by {
      assert (a.num * p.num) * E18 == (amount * a.den) * (p.num * E18);
      assert (amount * a.den) * (e * p.den) == (amount * e) * (a.den * p.den);
    }
    SameRatSameText(Product(a, p), v, 6);
    RoundedIsNearest(v, 6);
    DecimalOfRounded(v, 6);
    NonNegativeText(Rounded(v, 6), 6);
  }

  lemma DerivedShape(side: Side, e: nat, amount: nat)
    requires e > 0 && amount > 0
    ensures EchoedSize(amount, e) >= 0
    ensures Derived(Opposite(side), PrintScaled(e, 18), Text(amount))
         == Ok(Shape(side, PrintScaled(RecoveredPrice(e), 6), PrintScaled(EchoedSize(amount, e), 6), PrintScaled(e, 18), Text(amount)))
  {
    hide DecimalOf, PrintScaled, SignedDecimal, Text, Product, Inverse, ReadDecimal, RecoveredPrice, EchoedSize, Pow10;
    ReadScaled(e, 18);
    ReadScaled(amount, 0);
    IntegerText(amount);
    var p, a := ReadDecimal(PrintScaled(e, 18)).value, ReadDecimal(Text(amount)).value;
    SignOfSame(p, Scaled(e, 18));
    SignOfSame(a, Scaled(amount, 0));
    WholeOfScaled(a, amount);
    InverseOfScaled(p, e);
    SizeText(a, p, amount, e);
    ProductIsPositive(a, p);
    WholeText(a, amount, 18);
    WholeText(a, amount, 6);
    SameRatSameText(p, Scaled(e, 18), 18);
    FinerScaleSameText(e, 18, 18);
    NonNegativeText(e, 18);
    DeltaTexts(side, Product(a, p), a);
  }

  lemma WholeOfScaled(a: Rat, amount: nat)
    requires SameRat(a, Scaled(amount, 0))
    ensures a.num == amount * a.den
  {
    assert Pow10(0) == 1;
  }

  // ----- The round trip

  lemma SpotTick()
    ensures ValidInstrument(SPOT) && ConverterOf(SPOT).tick == Fraction(1, 18)
  {
    hide ReadPlain, CanonicalDecimal, ReadFraction;
    assert SPOT.tickSize == LastPlace(18);
    ReadLastPlace(18);
    ReadCanonical(SPOT.tickSize, Fraction(1, 18));
  }

  /** An admitted spot order stores the rounded reciprocal as its price and the whole cNGN amount. */
  lemma StoredTerms(req: Request, now: int, createdAt: int, enforce: bool, q: nat, s: nat)
    requires ValidInstrument(SPOT) && req.intent.Some? && Intends(req.intent.value, q, s)
    requires ToOrder(req, SPOT, now, createdAt, enforce).Ok?
    ensures var o := ToOrder(req, SPOT, now, createdAt, enforce).value;
      && o.side == Opposite(req.intent.value.side.value)
      && o.ticks == EnginePrice(q) > 0 && o.limitPrice == PrintScaled(EnginePrice(q), 18)
      && o.desired > 0 && o.desired * E12 == s * q
  {
    hide DecimalOf, PrintScaled, Parse, ReadFraction, ReadDecimal, EnginePrice, Product, Inverse, IsTicks, IsSteps, Shift,
         AtomicUnits, ActionDataError, Matches, SignedDecimal, Normalized, ConverterOf;
    var o := ToOrder(req, SPOT, now, createdAt, enforce).value;
    var intent, e := req.intent.value, EnginePrice(q);
    AdmittedIsWellFormed(req, SPOT, now, createdAt, enforce);
    SpotTick();
    EnginePriceText(intent.price.value.value, q);
    TicksOfEnginePrice(ConverterOf(SPOT), e, o.ticks);
    var v := Product(intent.size.value.value, intent.price.value.value);
    AmountOfSteps(v, intent.size.value.value, intent.price.value.value, s, q, o.desired);
  }

  lemma TicksOfEnginePrice(c: Converter, e: nat, ticks: int)
    requires c.tick == Fraction(1, 18) && ticks > 0
    requires ReadFraction(PrintScaled(e, 18)).Ok? && IsTicks(c, ReadFraction(PrintScaled(e, 18)).value, ticks)
    ensures ticks == e && TicksText(c, ticks) == PrintScaled(e, 18)
  {
    hide ReadFraction, PrintScaled;
    TicksTextIsExact(c, e);
    var f := ReadFraction(PrintScaled(e, 18)).value;
    assert TicksText(c, e) == PrintScaled(e, 18);
    ShiftOrder(0, 1, f.places);
    ShiftZero(f.places);
    MulCancel(ticks, e, Shift(1, f.places));
  }

  /** The whole number that the printed product reads as. */
  lemma AmountOfSteps(v: Rat, size: Rat, price: Rat, s: nat, q: nat, amount: int)
    requires v == Product(size, price) && IsMicros(size, s) && IsMicros(price, q)
    requires ReadDecimal(DecimalOf(v, 18)).Some? && ReadDecimal("1").Some?
    requires IsSteps(ReadDecimal(DecimalOf(v, 18)).value, ReadDecimal("1").value, amount)
    ensures amount * E12 == s * q
  {
    hide DecimalOf, ReadDecimal, Shift, Rounded, Product, SignedText;
    PowersOfTen();
    assert v.num * E12 == (s * q) * v.den by {
      ProductMicros(size, price, s, q);
    }
    ShiftIsProduct(v.num, 18);
    assert Shift(v.num, 18) == (s * q * E6) * v.den by {
      assert v.num * E18 == (v.num * E12) * E6;
      assert ((s * q) * v.den) * E6 == (s * q * E6) * v.den;
    }
    RoundedIsExact(v, 18, s * q * E6);
    DecimalOfRounded(v, 18);
    ReadSigned(s * q * E6, 18);
    ReadOne();
    StepsCancel(ReadDecimal(DecimalOf(v, 18)).value, amount, s * q);
  }

  lemma ProductMicros(a: Rat, b: Rat, m: nat, n: nat)
    requires IsMicros(a, m) && IsMicros(b, n)
    ensures Product(a, b).num * E12 == (m * n) * Product(a, b).den
  {
    assert (a.num * E6) * (b.num * E6) == (a.num * b.num) * E12;
    assert (m * a.den) * (n * b.den) == (m * n) * (a.den * b.den);
  }

  lemma StepsCancel(value: Rat, amount: int, product: int)
    requires value.num == amount * value.den && value.num * E18 == (product * E6) * value.den
    ensures amount * E12 == product
  {
    assert (amount * E18) * value.den == (product * E6) * value.den;
    MulCancel(amount * E18, product * E6, value.den);
  }

  /**
   Exactly when the echo gives the user's record back, for every price and size in millionths: the
   engine price is close enough to the reciprocal, and its error times the size is small enough.
   Both are arithmetic on the request alone.
   */
  lemma EchoRoundTrip(req: Request, now: int, createdAt: int, enforce: bool, q: nat, s: nat)
    requires ValidInstrument(SPOT) && req.intent.Some? && Intends(req.intent.value, q, s)
    requires ToOrder(req, SPOT, now, createdAt, enforce).Ok?
    ensures var o := ToOrder(req, SPOT, now, createdAt, enforce).value;
      (Derived(o.side, o.limitPrice, IntText(o.desired)) == Translated(req.intent.value)) <==>
      (PriceSurvives(q) && SizeSurvives(q, s))
  {
    hide PrintScaled, Text, EnginePrice, RecoveredPrice, PriceSurvives, SizeSurvives, ToOrder, Translated, Derived, Intends, ValidInstrument;
    var o := ToOrder(req, SPOT, now, createdAt, enforce).value;
    PositiveMicros(req.intent.value, q, s);
    var e := EnginePrice(q);
    StoredTerms(req, now, createdAt, enforce, q, s);
    TranslatedShape(req.intent.value, q, s, o.desired);
    DerivedShape(req.intent.value.side.value, e, o.desired);
    RecoveredExactly(q);
    RecoveredSize(q, s, o.desired, e);
    PrintIsInjective(RecoveredPrice(e), q, 6);
    PrintIsInjective(EchoedSize(o.desired, e), s, 6);
    assert IntText(o.desired) == Text(o.desired);
  }

  lemma PositiveMicros(intent: Intent, q: nat, s: nat)
    requires Intends(intent, q, s)
    ensures q > 0 && s > 0 && intent.side.Some?
  {
  }

  lemma PrintIsInjective(a: nat, b: nat, scale: nat)
    ensures PrintScaled(a, scale) == PrintScaled(b, scale) <==> a == b
  {
    hide PrintScaled, Denotes;
    ReadPrinted(a, scale);
    ReadPrinted(b, scale);
    OnlyOneNumber(PrintScaled(a, scale), a, PrintScaled(b, scale), b, scale);
  }

  lemma OnlyOneNumber(s: string, a: nat, t: string, b: nat, scale: nat)
    requires Denotes(s, a, scale) && Denotes(t, b, scale)
    ensures s == t ==> a == b
  {
  }

  /**
   The practical bound: prices up to 1000000.707106 cNGN per USDC and notionals below 10^12 cNGN always
   come back unchanged, although the reciprocal was rounded.
   */
  lemma EchoWithinBounds(req: Request, now: int, createdAt: int, enforce: bool, q: nat, s: nat)
    requires ValidInstrument(SPOT) && req.intent.Some? && Intends(req.intent.value, q, s)
    requires ToOrder(req, SPOT, now, createdAt, enforce).Ok?
    requires q <= MAX_PRICE && s * q < E24
    ensures var o := ToOrder(req, SPOT, now, createdAt, enforce).value;
      Derived(o.side, o.limitPrice, IntText(o.desired)) == Translated(req.intent.value)
  {
    hide ToOrder, Translated, Derived, Intends, ValidInstrument, EnginePrice;
    PositiveMicros(req.intent.value, q, s);
    PriceSurvivesUpToMax(q);
    SmallNotionalSurvives(q, s);
    EchoRoundTrip(req, now, createdAt, enforce, q, s);
  }

  // ----- The failing price can be received

  /** The request states an intent and leaves the engine's fields blank. */
  predicate OnlyIntends(req: Request) {
    && req.entrySpec == SPEC && req.intent.Some?
    && req.side.None? && TrimSpace(req.limitPrice.text) == "" && TrimSpace(req.desired.text) == "" && req.filled.text == ""
  }

  /** Its data is signed for the engine's terms. */
  ghost predicate SignsTerms(req: Request, asset: seq<byte>, side: Side, price: int, amount: int) {
    NamesAsset(req.market, asset) && InInt256(price) && InInt256(amount)
    && req.data == Some(SignedData(req.market, asset, side, price, amount))
  }

  /** Every intent in millionths whose cNGN amount is whole is admitted under enforcement, signed for its engine terms. */
  lemma SpotIsAdmitted(req: Request, now: int, createdAt: int, asset: seq<byte>, q: nat, s: nat, amount: nat)
    requires ValidInstrument(SPOT) && OnlyIntends(req) && req.expiry > now
    requires Intends(req.intent.value, q, s) && amount * E12 == s * q && EnginePrice(q) > 0
    requires SignsTerms(req, asset, Opposite(req.intent.value.side.value), EnginePrice(q), amount)
    ensures ToOrder(req, SPOT, now, createdAt, true).Ok?
  {
    hide PrintScaled, Text, EnginePrice, Translated, Parse, ReadDecimal, AtomicUnits, ConverterOf, ReadInt, ActionDataError,
         SignedData, Pow10, NamesAsset, InInt256, TrimSpace;
    var e, side := EnginePrice(q), Opposite(req.intent.value.side.value);
    PositiveMicros(req.intent.value, q, s);
    PositiveAmount(q, s, amount);
    TranslatedShape(req.intent.value, q, s, amount);
    var spot := ValidateOrTranslate(req.entrySpec, req.intent, req.side, req.limitPrice, req.desired);
    assert spot == Ok((Some(side), Printed(PrintScaled(e, 18)), Printed(Text(amount))));
    EngineTermsParse(e, amount);
    SignedTermsPass(req, asset, side, e, amount);
  }

  lemma PositiveAmount(q: nat, s: nat, amount: nat)
    requires q > 0 && s > 0 && amount * E12 == s * q
    ensures amount > 0
  {
    MulMonotone(1, s, q);
  }

  lemma EngineTermsParse(e: nat, amount: nat)
    requires ValidInstrument(SPOT) && e > 0 && amount > 0
    ensures Parse(ConverterOf(SPOT), PrintScaled(e, 18)) == Ok((Text(e), PrintScaled(e, 18)))
    ensures ReadInt(Text(e)) == Some(e)
    ensures AtomicUnits(ReadDecimal(Text(amount)), ReadDecimal("1"), true) == Ok(amount)
    ensures AtomicUnits(Some(Ratio(0, 1)), ReadDecimal("1"), false) == Ok(0)
  {
    hide PrintScaled, Text, Parse, ReadDecimal, ConverterOf, ReadInt, ReadFraction;
    SpotTick();
    var c := ConverterOf(SPOT);
    assert TicksText(c, e) == PrintScaled(e, 18);
    ParseUndoesFormat(c, e);
    ReadIntOfText(e);
    assert IntText(e) == Text(e);
    ReadOne();
    ReadScaled(amount, 0);
    IntegerText(amount);
    WholeOfScaled(ReadDecimal(Text(amount)).value, amount);
    AtomicUnitsMeaning(ReadDecimal(Text(amount)).value, Ratio(1, 1), true, amount);
  }

  lemma SignedTermsPass(req: Request, asset: seq<byte>, side: Side, price: int, amount: int)
    requires SignsTerms(req, asset, side, price, amount) && price > 0 && amount > 0
    ensures ActionDataError(req.data, side, req.market, price, amount, ReadDecimal("1")).None?
  {
    hide SignedData, ParseActionTradeData, ToLower, ReadDecimal, NamesAsset, InInt256;
    SignedDataReads(req.market, asset, side, price, amount);
    ExactDiv(price, price, 1);
    ExactDiv(amount, amount, 1);
  }

  /** No admitted order at that price is echoed as its user meant it, whatever its size. */
  lemma NextPriceIsLost(req: Request, now: int, createdAt: int, enforce: bool, s: nat)
    requires ValidInstrument(SPOT) && req.intent.Some? && Intends(req.intent.value, MAX_PRICE + 1, s)
    requires ToOrder(req, SPOT, now, createdAt, enforce).Ok?
    ensures var o := ToOrder(req, SPOT, now, createdAt, enforce).value;
      Derived(o.side, o.limitPrice, IntText(o.desired)) != Translated(req.intent.value)
  {
    hide ToOrder, Translated, Derived, Intends, ValidInstrument, EnginePrice;
    BoundIsSharp();
    EchoRoundTrip(req, now, createdAt, enforce, MAX_PRICE + 1, s);
  }

  /** A million USDC at 1000000.707107 cNGN, signed for the engine's terms. */
  function LostRequest(side: Side, asset: seq<byte>, expiry: int): Request
    requires |asset| == 20
  {
    var market := Market("0x" + HexEncode(asset), 0);
    var blank := Field("", None);
    var intent := Intent(Some(side), Field("1000000.707107", Some(Ratio(MAX_PRICE + 1, E6))), Field("1000000", Some(Ratio(E6, 1))));
    SmallIsInt256(LOST_ENGINE_PRICE);
    SmallIsInt256(MAX_PRICE + 1);
    Request("order", "owner", 7, market, None, blank, blank, blank, expiry, SPEC, Some(intent),
            Some(SignedData(market, asset, Opposite(side), LOST_ENGINE_PRICE, MAX_PRICE + 1)))
  }

  /** Such an order is received, and its echo is not what the user meant. */
  lemma LostPriceIsAdmitted(side: Side, asset: seq<byte>, now: int, createdAt: int)
    requires |asset| == 20
    ensures ValidInstrument(SPOT)
    ensures var req := LostRequest(side, asset, now + 60);
      && ToOrder(req, SPOT, now, createdAt, true).Ok?
      && var o := ToOrder(req, SPOT, now, createdAt, true).value;
        Derived(o.side, o.limitPrice, IntText(o.desired)) != Translated(req.intent.value)
  {
    hide ToOrder, Translated, Derived, ValidInstrument, EnginePrice, SignedData, HexEncode, InInt256, Pow256, ConverterOf;
    var req := LostRequest(side, asset, now + 60);
    SpotTick();
    BoundIsSharp();
    SmallIsInt256(LOST_ENGINE_PRICE);
    SmallIsInt256(MAX_PRICE + 1);
    SpotIsAdmitted(req, now, createdAt, asset, MAX_PRICE + 1, E12, MAX_PRICE + 1);
    NextPriceIsLost(req, now, createdAt, true, E12);
  }
}
