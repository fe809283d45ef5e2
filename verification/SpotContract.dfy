/**
 The spot contract (internal/api/spot_contract.go): users quote cNGN per USDC and a USDC size; the engine
 holds the reciprocal price and a cNGN amount on the opposite side, and echoes the user's terms back.
 */
module SpotContract {
  import opened Wrappers
  import opened Numerals
  import opened Arithmetic
  import opened DecimalText
  import opened Decimals
  import opened Orders

  const SPEC := "usdc_cngn_spot_v1"
  const ENGINE_SCALE: nat := 18
  const UI_SCALE: nat := 6

  datatype SpotError = BadSpec | IntentRequired | BadSide | BadDecimal | NotPositive | SideMismatch | PriceMismatch | AmountMismatch

  /** A decimal field: its text, and the value that big.Rat reads from it, if any. */
  datatype Field = Field(text: string, value: Option<Rat>)

  datatype Intent = Intent(side: Option<Side>, price: Field, size: Field)

  datatype Echo = Echo(
    uiSide: Side, uiPrice: string, uiSize: string,
    engineSide: Side, enginePrice: string, engineAmount: string,
    usdcDelta: string, cngnDelta: string)

  function Opposite(side: Side): Side {
    if side == Buy then Sell else Buy
  }

  // ----- Rational helpers

  function Inverse(v: Rat): (r: Rat)
    requires v.num > 0
  {
    Ratio(v.den, v.num)
  }

  function Product(a: Rat, b: Rat): (r: Rat) {
    MulMonotone(1, a.den, b.den);
    Ratio(a.num * b.num, a.den * b.den)
  }

  function Negate(v: Rat): (r: Rat) {
    Ratio(-v.num, v.den)
  }

  function PositiveDecimal(value: Option<Rat>): Result<Rat, SpotError> {
    if value.None? then Err(BadDecimal)
    else if value.value.num <= 0 then Err(NotPositive)
    else Ok(value.value)
  }

  /** normalizeDecimalString */
  function Normalized(f: Field): string {
    match f.value
    case None => TrimSpace(f.text)
    case Some(v) => DecimalOf(v, ENGINE_SCALE)
  }

  /** formatSignedDecimal */
  function SignedDecimal(v: Rat, scale: nat): string {
    if v.num >= 0 then "+" + DecimalOf(v, scale) else "-" + DecimalOf(Negate(v), scale)
  }

  method FormatSignedDecimal(v: Rat, scale: nat) returns (s: string)
    ensures s == SignedDecimal(v, scale)
  {
    if v.num >= 0 {
      var digits := FormatDecimal(v, scale);
      return "+" + digits;
    }
    var digits := FormatDecimal(Negate(v), scale);
    return "-" + digits;
  }

  // ----- Translating

  /** The user's side gains USDC and gives cNGN, or the reverse. */
  function UsdcDelta(uiSide: Side, size: Rat): Rat {
    if uiSide == Sell then Negate(size) else size
  }

  function CngnDelta(uiSide: Side, amount: Rat): Rat {
    if uiSide == Sell then amount else Negate(amount)
  }

  function Translated(intent: Intent): Result<Echo, SpotError> {
    if intent.side.None? then Err(BadSide)
    else
      var price, size := PositiveDecimal(intent.price.value), PositiveDecimal(intent.size.value);
      if price.Err? then Err(price.error)
      else if size.Err? then Err(size.error)
      else
        var side, amount := intent.side.value, Product(size.value, price.value);
        Ok(Echo(side, Normalized(intent.price), Normalized(intent.size),
                Opposite(side), DecimalOf(Inverse(price.value), ENGINE_SCALE), DecimalOf(amount, ENGINE_SCALE),
                SignedDecimal(UsdcDelta(side, size.value), UI_SCALE), SignedDecimal(CngnDelta(side, amount), UI_SCALE)))
  }

  method TranslateSpotUIIntent(intent: Intent) returns (r: Result<Echo, SpotError>)
    ensures r == Translated(intent)
  {
    hide DecimalOf, SignedDecimal, Product, Inverse, Normalized, Rounded;
    if intent.side.None? {
      return Err(BadSide);
    }
    var price, size := PositiveDecimal(intent.price.value), PositiveDecimal(intent.size.value);
    if price.Err? {
      return Err(price.error);
    }
    if size.Err? {
      return Err(size.error);
    }
    var engineAmount := Product(size.value, price.value);
    var engineSide := Buy;
    if intent.side.value == Buy {
      engineSide := Sell;
    }
    var usdcDelta, cngnDelta: Rat := size.value, Negate(engineAmount);
    if intent.side.value == Sell {
      usdcDelta := Negate(usdcDelta);
      cngnDelta := Negate(cngnDelta);
    }
    var enginePriceText := FormatDecimal(Inverse(price.value), ENGINE_SCALE);
    var engineAmountText := FormatDecimal(engineAmount, ENGINE_SCALE);
    var usdc := FormatSignedDecimal(usdcDelta, UI_SCALE);
    var cngn := FormatSignedDecimal(cngnDelta, UI_SCALE);
    r := Ok(Echo(intent.side.value, Normalized(intent.price), Normalized(intent.size),
                 engineSide, enginePriceText, engineAmountText, usdc, cngn));
  }

  // ----- Echoing

  /** The echo of a stored order, from its side and the text of its price and amount. */
  function Derived(engineSide: Side, price: string, amount: string): Result<Echo, SpotError> {
    var p, a := PositiveDecimal(ReadDecimal(price)), PositiveDecimal(ReadDecimal(amount));
    if p.Err? then Err(p.error)
    else if a.Err? then Err(a.error)
    else
      var side, size := Opposite(engineSide), Product(a.value, p.value);
      Ok(Echo(side, DecimalOf(Inverse(p.value), UI_SCALE), DecimalOf(size, UI_SCALE),
              engineSide, Normalized(Field(price, Some(p.value))), Normalized(Field(amount, Some(a.value))),
              SignedDecimal(UsdcDelta(side, size), UI_SCALE), SignedDecimal(CngnDelta(side, a.value), UI_SCALE)))
  }

  method DeriveSpotOrderContractEchoFromEngine(engineSide: Side, price: string, amount: string)
    returns (r: Result<Echo, SpotError>)
    ensures r == Derived(engineSide, price, amount)
  {
    hide DecimalOf, SignedDecimal, Product, Inverse, Normalized, Rounded, ReadDecimal;
    var p, a := PositiveDecimal(ReadDecimal(price)), PositiveDecimal(ReadDecimal(amount));
    if p.Err? {
      return Err(p.error);
    }
    if a.Err? {
      return Err(a.error);
    }
    var size := Product(a.value, p.value);
    var uiSide := Sell;
    if engineSide == Sell {
      uiSide := Buy;
    }
    var usdcDelta, cngnDelta: Rat := size, Negate(a.value);
    if uiSide == Sell {
      usdcDelta := Negate(usdcDelta);
      cngnDelta := Negate(cngnDelta);
    }
    var uiPrice := FormatDecimal(Inverse(p.value), UI_SCALE);
    var uiSize := FormatDecimal(size, UI_SCALE);
    var usdc := FormatSignedDecimal(usdcDelta, UI_SCALE);
    var cngn := FormatSignedDecimal(cngnDelta, UI_SCALE);
    r := Ok(Echo(uiSide, uiPrice, uiSize, engineSide, Normalized(Field(price, Some(p.value))),
                 Normalized(Field(amount, Some(a.value))), usdc, cngn));
  }

  // ----- Checking what the client sent along

  /** decimalStringsMatch: equal up to 10^-18. */
  predicate Matches(left: Option<Rat>, right: Option<Rat>) {
    left.Some? && right.Some? &&
    var d := left.value.num * right.value.den - right.value.num * left.value.den;
    (if d < 0 then -d else d) * Pow10(ENGINE_SCALE) <= left.value.den * right.value.den
  }

  /** The text that an engine field takes from the translation, with what it reads as. */
  function Printed(text: string): Field {
    Field(text, ReadDecimal(text))
  }

  function ValidateOrTranslate(spec: string, intent: Option<Intent>, side: Option<Side>, price: Field, amount: Field)
    : Result<(Option<Side>, Field, Field), SpotError>
  {
    if spec == "" && intent.None? then Ok((side, price, amount))
    else if spec != SPEC then Err(BadSpec)
    else if intent.None? then Err(IntentRequired)
    else
      match Translated(intent.value)
      case Err(e) => Err(e)
      case Ok(echo) =>
        if side.Some? && side.value != echo.engineSide then Err(SideMismatch)
        else if TrimSpace(price.text) != "" && !Matches(price.value, ReadDecimal(echo.enginePrice)) then Err(PriceMismatch)
        else if TrimSpace(amount.text) != "" && !Matches(amount.value, ReadDecimal(echo.engineAmount)) then Err(AmountMismatch)
        else Ok((Some(echo.engineSide), Printed(echo.enginePrice), Printed(echo.engineAmount)))
  }

  /**
   What translation means for the user: the engine takes the other side, and the deltas say that a buyer
   gains USDC and gives cNGN, a seller the reverse.
   */
  lemma SidesAreInverted(intent: Intent)
    requires Translated(intent).Ok?
    ensures var echo := Translated(intent).value;
      && Some(echo.uiSide) == intent.side && echo.engineSide != echo.uiSide
      && echo.usdcDelta != "" && echo.cngnDelta != ""
      && (echo.usdcDelta[0] == '+' <==> echo.uiSide == Buy) && (echo.usdcDelta[0] == '-' <==> echo.uiSide == Sell)
      && (echo.cngnDelta[0] == '+' <==> echo.engineSide == Buy) && (echo.cngnDelta[0] == '-' <==> echo.engineSide == Sell)
  {
    hide DecimalOf, Normalized;
    var price, size := intent.price.value.value, intent.size.value.value;
    MulMonotone(1, size.num, price.num);
  }

  /** The number 10^-18 above v. */
  function Above(v: Rat): (r: Rat) {
    Ratio(v.num * 1_000_000_000_000_000_000 + v.den, v.den * 1_000_000_000_000_000_000)
  }

  /** Both can be read, and neither number is more than 10^-18 above the other. */
  predicate Near(left: Option<Rat>, right: Option<Rat>) {
    && left.Some? && right.Some?
    && AtMost(left.value, Above(right.value)) && AtMost(right.value, Above(left.value))
  }

  lemma MatchesMeaning(left: Option<Rat>, right: Option<Rat>)
    ensures Matches(left, right) <==> Near(left, right)
  {
    if left.Some? && right.Some? {
      var a, b := left.value, right.value;
      EighteenPlaces();
      AtMostAbove(a, b);
      AtMostAbove(b, a);
      Magnitude(a.num * b.den, b.num * a.den, 1_000_000_000_000_000_000, a.den * b.den);
    }
  }

  lemma EighteenPlaces()
    ensures Pow10(ENGINE_SCALE) == 1_000_000_000_000_000_000
  {
    assert Pow10(6) == 1_000_000;
    Pow10Add(6, 6);
    Pow10Add(12, 6);
  }

  lemma AtMostAbove(a: Rat, b: Rat)
    ensures AtMost(a, Above(b)) <==>
      (a.num * b.den) * 1_000_000_000_000_000_000 <= (b.num * a.den) * 1_000_000_000_000_000_000 + a.den * b.den
  {
    assert a.num * (b.den * 1_000_000_000_000_000_000) == (a.num * b.den) * 1_000_000_000_000_000_000;
    assert (b.num * 1_000_000_000_000_000_000 + b.den) * a.den == (b.num * a.den) * 1_000_000_000_000_000_000 + a.den * b.den;
  }

  lemma Magnitude(x: int, y: int, k: int, e: int)
    requires k > 0 && e >= 0
    ensures (if x - y < 0 then -(x - y) else x - y) * k <= e <==> x * k <= y * k + e && y * k <= x * k + e
  {
    var d := x - y;
    assert d * k == x * k - y * k && (-d) * k == y * k - x * k;
    if d < 0 {
      MulMonotone(x, y, k);
    } else {
      MulMonotone(y, x, k);
    }
  }

  /**
   Exactly what the spot check lets through. Without spec and intent, the fields as given. Otherwise the one
   known spec with an intent of known side and positive price and size; a side sent along must be opposite to
   the user's, and a price or amount sent along must match the translated one to 18 places. The engine then gets
   the translated fields.
   */
  lemma FieldsExactly(spec: string, intent: Option<Intent>, side: Option<Side>, price: Field, amount: Field,
                      side': Option<Side>, price': Field, amount': Field)
    ensures ValidateOrTranslate(spec, intent, side, price, amount) == Ok((side', price', amount')) <==>
      if spec == "" && intent.None? then side' == side && price' == price && amount' == amount
      else
        && spec == "usdc_cngn_spot_v1" && intent.Some?
        && var i := intent.value;
          && i.side.Some? && i.price.value.Some? && i.size.value.Some?
          && i.price.value.value.num > 0 && i.size.value.value.num > 0
          && var echo := Translated(i).value;
            && side' == Some(echo.engineSide) && echo.engineSide != i.side.value && (side.Some? ==> side.value != i.side.value)
            && price' == Field(echo.enginePrice, ReadDecimal(echo.enginePrice))
            && amount' == Field(echo.engineAmount, ReadDecimal(echo.engineAmount))
            && (AllSpace(price.text) || Near(price.value, price'.value))
            && (AllSpace(amount.text) || Near(amount.value, amount'.value))
  {
    hide Matches, Near, ReadDecimal, TrimSpace, DecimalOf, SignedDecimal, Normalized, AllSpace;
    BlankMeaning(price.text);
    BlankMeaning(amount.text);
    if intent.Some? && Translated(intent.value).Ok? {
      var echo := Translated(intent.value).value;
      MatchesMeaning(price.value, ReadDecimal(echo.enginePrice));
      MatchesMeaning(amount.value, ReadDecimal(echo.engineAmount));
    }
  }

  /** Sending the translated fields along with the same intent changes nothing. */
  lemma ResubmissionIsAccepted(intent: Intent)
    requires Translated(intent).Ok?
    ensures var echo := Translated(intent).value;
      ValidateOrTranslate(SPEC, Some(intent), Some(echo.engineSide), Printed(echo.enginePrice), Printed(echo.engineAmount))
      == ValidateOrTranslate(SPEC, Some(intent), None, Field("", None), Field("", None))
  {
    hide Translated, ReadDecimal;
    var echo := Translated(intent).value;
    EngineTextsRead(intent);
    SelfMatches(ReadDecimal(echo.enginePrice).value);
    SelfMatches(ReadDecimal(echo.engineAmount).value);
    assert TrimSpace("") == "";
  }

  lemma EngineTextsRead(intent: Intent)
    requires Translated(intent).Ok?
    ensures ReadDecimal(Translated(intent).value.enginePrice).Some? && ReadDecimal(Translated(intent).value.engineAmount).Some?
  {
    hide ReadDecimal, SignedText, Rounded, Normalized, SignedDecimal;
    var price, size := intent.price.value.value, intent.size.value.value;
    ReadSigned(Rounded(Inverse(price), ENGINE_SCALE), ENGINE_SCALE);
    ReadSigned(Rounded(Product(size, price), ENGINE_SCALE), ENGINE_SCALE);
  }

  lemma SelfMatches(v: Rat)
    ensures Matches(Some(v), Some(v))
  {
    MulMonotone(1, v.den, v.den);
  }
}
