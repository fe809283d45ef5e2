/**
 What the API lets into the order table: the arithmetic of toParams and its helpers
 (internal/api/orders.go), with the spot translation of internal/api/spot_contract.go in front.
 */
module Admission {
  import opened Wrappers
  import opened Numerals
  import opened Arithmetic
  import opened DecimalText
  import opened Decimals
  import opened Pricing
  import opened TradeData
  import opened Orders
  import opened ExecutionUnits
  import opened Protocol
  import opened SpotContract

  /** The columns of an instrument that order entry looks at. Futures trade in steps of minSize, all else in units. */
  datatype Instrument = Instrument(tickSize: string, quotePrecision: int, minSize: string, isFuture: bool, isSpot: bool)

  /** Used for a market the registry does not know. */
  const FALLBACK := Instrument("1", 8, "", false, false)

  datatype AdmissionError =
    | InThePast
    | BadSide
    | BadSpot(spot: SpotError)
    | SpecNotSupported
    | BadPrice(price: PriceError)
    | BadDecimal
    | BadStep
    | OffStep
    | ZeroSize
    | NegativeAmount
    | FilledExceedsDesired
    | BadActionData
    | ActionMismatch
    | PriceNotAligned
    | AmountNotAligned

  /** A request, its side blank when not given; the identity fields pass through unchanged. */
  datatype Request = Request(
    id: string, owner: string, nonce: int, market: Market,
    side: Option<Side>, limitPrice: Field, desired: Field, filled: Field,
    expiry: int, entrySpec: string, intent: Option<Intent>, data: Option<string>)

  predicate ValidInstrument(inst: Instrument) {
    ReadFraction(inst.tickSize).Ok? && ReadFraction(inst.tickSize).value.num > 0
  }

  function ConverterOf(inst: Instrument): Converter
    requires ValidInstrument(inst)
  {
    NewConverter(inst.tickSize, inst.quotePrecision).value
  }

  lemma UnitTick(inst: Instrument)
    requires inst.tickSize == "1"
    ensures ValidInstrument(inst) && ConverterOf(inst).tick == Fraction(1, 0)
  {
    hide ReadPlain, CanonicalDecimal, ReadFraction;
    ReadUnit();
    ReadCanonical("1", Fraction(1, 0));
  }

  // ----- Amounts

  function AmountStep(inst: Instrument): string {
    if inst.isFuture then inst.minSize else "1"
  }

  /** normalizeAmountToAtomicUnits: the exact number of steps in a value. */
  function AtomicUnits(value: Option<Rat>, step: Option<Rat>, requirePositive: bool): Result<int, AdmissionError> {
    if value.None? then Err(AdmissionError.BadDecimal)
    else if step.None? || step.value.num <= 0 then Err(BadStep)
    else
      var n, d := value.value.num * step.value.den, value.value.den * step.value.num;
      if n % d != 0 then Err(OffStep)
      else if requirePositive && n / d == 0 then Err(ZeroSize)
      else if n / d < 0 then Err(NegativeAmount)
      else Ok(n / d)
  }

  /** The value is exactly that many steps. */
  predicate IsSteps(value: Rat, step: Rat, atomic: int) {
    value.num * step.den == atomic * (value.den * step.num)
  }

  /** A value is admitted as a number of steps exactly when it is that number of steps, and of the right sign. */
  lemma AtomicUnitsMeaning(value: Rat, step: Rat, requirePositive: bool, atomic: int)
    requires step.num > 0
    ensures AtomicUnits(Some(value), Some(step), requirePositive) == Ok(atomic)
       <==> IsSteps(value, step, atomic) && (if requirePositive then atomic > 0 else atomic >= 0)
  {
    var n, d := value.num * step.den, value.den * step.num;
    MulMonotone(1, value.den, step.num);
    if IsSteps(value, step, atomic) {
      ExactDiv(n, d, atomic);
    }
    if n % d == 0 {
      WholeDivision(n, d);
    }
  }

  lemma WholeDivision(n: int, d: int)
    requires d > 0 && n % d == 0
    ensures n == (n / d) * d
  {
  }

  // ----- The signed action

  /** reciprocalScale: the whole number of steps in one unit, if there is one. */
  function ReciprocalScale(step: Option<Rat>): Option<int> {
    if step.None? || step.value.num <= 0 || step.value.den % step.value.num != 0 then None
    else Some(step.value.den / step.value.num)
  }

  /** The strict path: both signed values are positive multiples of the book values. */
  predicate StrictlyAligned(action: TradeAction, ticks: int, desired: int)
    requires ticks > 0 && desired > 0
  {
    && action.limitPrice % ticks == 0 && action.limitPrice / ticks > 0
    && action.desiredAmount % desired == 0 && action.desiredAmount / desired > 0
  }

  /** validateActionDataInvariants; None means the action is accepted. */
  function ActionDataError(data: Option<string>, side: Side, market: Market, ticks: int, desired: int, step: Option<Rat>)
    : Option<AdmissionError>
    requires ticks > 0 && desired > 0
  {
    if data.None? then Some(BadActionData)
    else
      match ParseActionTradeData(data.value)
      case Err(_) => Some(BadActionData)
      case Ok(action) =>
        if action.asset != ToLower(market.asset) then Some(ActionMismatch)
        else if action.subId != market.subId then Some(ActionMismatch)
        else if action.isBid != (side == Buy) then Some(ActionMismatch)
        else if action.limitPrice % ticks != 0 || action.limitPrice / ticks <= 0 then Some(PriceNotAligned)
        else if action.desiredAmount % desired == 0 && action.desiredAmount / desired > 0 then None
        else
          match ReciprocalScale(step)
          case None => Some(AmountNotAligned)
          case Some(scale) => if action.desiredAmount * scale == desired then None else Some(AmountNotAligned)
  }

  // ----- toParams

  /** Side, price text and amount after the spot translation, or as given for other instruments. */
  function EngineFields(req: Request, inst: Instrument): Result<(Option<Side>, string, Option<Rat>), AdmissionError> {
    if inst.isSpot then
      match ValidateOrTranslate(req.entrySpec, req.intent, req.side, req.limitPrice, req.desired)
      case Err(e) => Err(BadSpot(e))
      case Ok((side, price, amount)) => Ok((side, price.text, amount.value))
    else if req.entrySpec != "" || req.intent.Some? then Err(SpecNotSupported)
    else Ok((req.side, req.limitPrice.text, req.desired.value))
  }

  /**
   The row an accepted request becomes. A blank side is refused by the table's check constraint; a blank
   filled amount counts as zero.
   */
  function ToOrder(req: Request, inst: Instrument, now: int, createdAt: int, enforce: bool): Result<Order, AdmissionError>
    requires ValidInstrument(inst)
  {
    if req.expiry <= now then Err(InThePast)
    else
      match EngineFields(req, inst)
      case Err(e) => Err(e)
      case Ok((side, priceText, desiredValue)) =>
        match Parse(ConverterOf(inst), priceText)
        case Err(e) => Err(BadPrice(e))
        case Ok((ticksText, display)) =>
          var step := ReadDecimal(AmountStep(inst));
          var filledValue := if req.filled.text == "" then Some(Ratio(0, 1)) else req.filled.value;
          var ticks := ReadInt(ticksText);
          var desired, filled := AtomicUnits(desiredValue, step, true), AtomicUnits(filledValue, step, false);
          if desired.Err? then Err(desired.error)
          else if filled.Err? then Err(filled.error)
          else if filled.value > desired.value then Err(FilledExceedsDesired)
          else if side.None? then Err(AdmissionError.BadSide)
          else if ticks.None? || ticks.value <= 0 || desired.value <= 0 then Err(BadPrice(PriceError.NotPositive))
          else if enforce && ActionDataError(req.data, side.value, req.market, ticks.value, desired.value, step).Some? then
            Err(ActionDataError(req.data, side.value, req.market, ticks.value, desired.value, step).value)
          else
            Ok(Order(req.id, req.owner, req.nonce, req.market, side.value, desired.value, filled.value, ticks.value,
                     display, req.expiry, req.data, Active, createdAt))
  }

  // ----- What admission guarantees

  /**
   Every admitted row: amounts and ticks in range, the display price exactly its ticks, and the amounts
   exactly the requested numbers of steps.
   */
  lemma AdmittedIsWellFormed(req: Request, inst: Instrument, now: int, createdAt: int, enforce: bool)
    requires ValidInstrument(inst) && ToOrder(req, inst, now, createdAt, enforce).Ok?
    ensures var o := ToOrder(req, inst, now, createdAt, enforce).value;
      var c, fields, step := ConverterOf(inst), EngineFields(req, inst).value, ReadDecimal(AmountStep(inst));
      && WellFormed(o) && o.status == Active && o.expiry > now
      && o.limitPrice == TicksText(c, o.ticks)
      && Parse(c, fields.1) == Ok((Text(o.ticks), o.limitPrice))
      && ReadFraction(fields.1).Ok? && IsTicks(c, ReadFraction(fields.1).value, o.ticks)
      && step.Some? && fields.2.Some? && IsSteps(fields.2.value, step.value, o.desired)
      && (req.filled.text != "" ==> req.filled.value.Some? && IsSteps(req.filled.value.value, step.value, o.filled))
      && (req.filled.text == "" ==> o.filled == 0)
  {
    hide ReadFraction, ReadDecimal, ActionDataError, IsTicks, TicksText, IsSteps, EngineFields;
    var o := ToOrder(req, inst, now, createdAt, enforce).value;
    var c, fields, step := ConverterOf(inst), EngineFields(req, inst).value, ReadDecimal(AmountStep(inst));
    PriceIsTicks(c, fields.1, o.ticks);
    AtomicUnitsMeaning(fields.2.value, step.value, true, o.desired);
    var filled := if req.filled.text == "" then Some(Ratio(0, 1)) else req.filled.value;
    AtomicUnitsMeaning(filled.value, step.value, false, o.filled);
    if req.filled.text == "" {
      NothingIsZeroSteps(step.value, o.filled);
    }
  }

  lemma NothingIsZeroSteps(step: Rat, atomic: int)
    requires step.num > 0
    ensures IsSteps(Ratio(0, 1), step, atomic) <==> atomic == 0
  {
    if IsSteps(Ratio(0, 1), step, atomic) {
      MulCancel(atomic, 0, step.num);
    }
  }

  lemma PriceIsTicks(c: Converter, price: string, ticks: int)
    requires c.tick.num > 0 && Parse(c, price).Ok? && ReadInt(Parse(c, price).value.0) == Some(ticks)
    ensures ticks > 0 && Parse(c, price) == Ok((Text(ticks), TicksText(c, ticks)))
    ensures ReadFraction(price).Ok? && IsTicks(c, ReadFraction(price).value, ticks)
  {
    hide ReadFraction, TicksText, Shift, ReadInt;
    var f := ReadFraction(price).value;
    ParseQuotient(c, price, f);
    var q := Shift(f.num, c.tick.places) / Shift(c.tick.num, f.places);
    ReadIntOfText(q);
    ParseMeaning(c, price, q);
  }

  // ----- Admission against matching

  /**
   The strict path is exactly the order's own half of both scale inferences. So an order admitted under
   enforcement can be matched, as far as it alone is concerned, exactly when it took the strict path and
   its data does not start with an upper-case 0X.
   */
  lemma StrictMeansMatchable(o: Order, action: TradeAction, step: Option<Rat>)
    requires WellFormed(o) && o.data.Some? && ParseActionTradeData(o.data.value) == Ok(action)
    requires ActionDataError(o.data, o.side, o.market, o.ticks, o.desired, step).None?
    ensures StrictlyAligned(action, o.ticks, o.desired)
       <==> HalfScale(o.ticks, action.limitPrice).Some? && HalfScale(o.desired, action.desiredAmount).Some?
    ensures SignedProperly(o) <==> StrictlyAligned(action, o.ticks, o.desired) && !("0X" <= TrimSpace(o.data.value))
  {
    hide ParseActionTradeData, ParseTradeAction, TrimSpace, ToLower, ReciprocalScale;
    DecodersAgree(o.data.value);
    SignedValuesArePositive(o.data.value);
    HalfIsAligned(o.ticks, action.limitPrice);
    HalfIsAligned(o.desired, action.desiredAmount);
    LowerTwice(o.market.asset);
    ActionAssetIsLower(o.data.value);
  }

  lemma SignedValuesArePositive(raw: string)
    requires ParseActionTradeData(raw).Ok?
    ensures ParseActionTradeData(raw).value.limitPrice > 0 && ParseActionTradeData(raw).value.desiredAmount > 0
  {
    hide FromHex, ToLower, TrimSpace;
  }

  lemma HalfIsAligned(base: int, signed: int)
    requires base > 0 && signed > 0
    ensures HalfScale(base, signed).Some? <==> signed % base == 0 && signed / base > 0
  {
    if signed % base == 0 {
      WholeFactor(base, signed);
    }
  }

  lemma LowerTwice(s: string)
    ensures ToLower(ToLower(s)) == ToLower(s)
  {
  }

  lemma ActionAssetIsLower(raw: string)
    requires ParseActionTradeData(raw).Ok?
    ensures ToLower(ParseActionTradeData(raw).value.asset) == ParseActionTradeData(raw).value.asset
  {
    hide BigEndian, Int256, TrimSpace, HexEncode;
    var hex := TrimPrefix(ToLower(TrimSpace(raw)), "0x");
    var word := Word(HexDecode(hex).value, 0)[12..];
    HexIsLower(word);
    var asset := "0x" + HexEncode(word);
    assert ToLower(asset) == asset by {
      forall i | 0 <= i < |asset|
        ensures Lower(asset[i]) == asset[i]
      {
        if i >= 2 {
          assert asset[i] == HexEncode(word)[i - 2];
        }
      }
    }
  }

  lemma HexIsLower(bytes: seq<byte>)
    ensures forall i | 0 <= i < 2 * |bytes| :: Lower(HexEncode(bytes)[i]) == HexEncode(bytes)[i]
  {
    hide HexChar, Lower;
  }

  /** An order that only the compatibility rule admitted never converts, whoever stands opposite. */
  lemma CompatNeverConverts(o: Order, action: TradeAction, step: Option<Rat>, other: Order, fillTicks: int, fill: int)
    requires WellFormed(o) && o.data.Some? && ParseActionTradeData(o.data.value) == Ok(action)
    requires ActionDataError(o.data, o.side, o.market, o.ticks, o.desired, step).None?
    requires !StrictlyAligned(action, o.ticks, o.desired)
    ensures ComputeExecutionUnits(o, other, fillTicks, fill).Err? && ComputeExecutionUnits(other, o, fillTicks, fill).Err?
  {
    hide ParseActionTradeData, ActionDataError, SignedProperly, ComputeExecutionUnits;
    StrictMeansMatchable(o, action, step);
    if ComputeExecutionUnits(o, other, fillTicks, fill).Ok? {
      UnitsMeaning(o, other, fillTicks, fill);
    }
    if ComputeExecutionUnits(other, o, fillTicks, fill).Ok? {
      UnitsMeaning(other, o, fillTicks, fill);
    }
  }

  /**
   What amounts the check accepts, for a readable action of the right market and side with an aligned
   price: signed multiples of the book amount; and, under a step that divides one unit, signatures that
   carry the plain amount itself, of which the book amount counts the steps.
   */
  lemma AcceptedAmounts(data: string, action: TradeAction, side: Side, market: Market, ticks: int, desired: int, step: Option<Rat>)
    requires ParseActionTradeData(data) == Ok(action) && ticks > 0 && desired > 0
    requires action.asset == ToLower(market.asset) && action.subId == market.subId && action.isBid == (side == Buy)
    requires action.limitPrice % ticks == 0 && action.limitPrice / ticks > 0
    ensures ActionDataError(Some(data), side, market, ticks, desired, step).None?
       <==> HalfScale(desired, action.desiredAmount).Some?
            || (ReciprocalScale(step).Some? && IsSteps(Ratio(action.desiredAmount, 1), step.value, desired))
  {
    hide ParseActionTradeData, ToLower;
    SignedValuesArePositive(data);
    HalfIsAligned(desired, action.desiredAmount);
    if ReciprocalScale(step).Some? {
      var scale := step.value.den / step.value.num;
      WholeDivision(step.value.den, step.value.num);
      assert action.desiredAmount * step.value.den == (action.desiredAmount * scale) * step.value.num;
      MulCancel(action.desiredAmount * scale, desired, step.value.num);
    }
  }

  // ----- Exactly what gets in

  /**
   What the data field of an order must say for the API, on the decoded tuple: the order's asset, sub id and
   side, a positive multiple of its ticks, and a positive multiple of its amount or the plain amount of which
   the order counts the steps.
   */
  ghost predicate DataFits(o: Order, step: Option<Rat>) {
    && o.data.Some? && ParseActionTradeData(o.data.value).Ok? && o.ticks > 0 && o.desired > 0
    && var action := ParseActionTradeData(o.data.value).value;
      && action.asset == ToLower(o.market.asset) && action.subId == o.market.subId && (action.isBid <==> o.side == Buy)
      && action.limitPrice > 0 && action.limitPrice % o.ticks == 0
      && action.desiredAmount > 0
      && (action.desiredAmount % o.desired == 0
          || (step.Some? && step.value.num > 0 && step.value.den % step.value.num == 0
              && action.desiredAmount * step.value.den == o.desired * step.value.num))
  }

  lemma DataFitsExactly(o: Order, step: Option<Rat>)
    requires o.ticks > 0 && o.desired > 0
    ensures ActionDataError(o.data, o.side, o.market, o.ticks, o.desired, step).None? <==> DataFits(o, step)
  {
    hide ParseActionTradeData, ToLower;
    if o.data.Some? && ParseActionTradeData(o.data.value).Ok? {
      var action := ParseActionTradeData(o.data.value).value;
      SignedValuesArePositive(o.data.value);
      HalfIsAligned(o.ticks, action.limitPrice);
      HalfIsAligned(o.desired, action.desiredAmount);
      if step.Some? && step.value.num > 0 && step.value.den % step.value.num == 0 {
        var scale := step.value.den / step.value.num;
        WholeDivision(step.value.den, step.value.num);
        assert action.desiredAmount * step.value.den == (action.desiredAmount * scale) * step.value.num;
        MulCancel(action.desiredAmount * scale, o.desired, step.value.num);
      }
    }
  }

  /**
   Which fields the engine sees. A spot market translates the user's intent, or takes plain fields; any other
   market takes plain fields only and refuses whoever names a spec or an intent.
   */
  lemma EngineFieldsExactly(req: Request, inst: Instrument, side: Option<Side>, price: string, amount: Option<Rat>)
    ensures EngineFields(req, inst) == Ok((side, price, amount)) <==>
      if req.entrySpec == "" && req.intent.None? then
        side == req.side && price == req.limitPrice.text && amount == req.desired.value
      else
        && inst.isSpot
        && var fields := ValidateOrTranslate(req.entrySpec, req.intent, req.side, req.limitPrice, req.desired);
          fields.Ok? && fields.value == (side, fields.value.1, fields.value.2)
          && fields.value.1.text == price && fields.value.2.value == amount
  {
    FieldsExactly(req.entrySpec, req.intent, req.side, req.limitPrice, req.desired, req.side, req.limitPrice, req.desired);
    hide Translated, Matches, ReadDecimal;
  }

  /**
   Admission, complete: a request becomes this row exactly when its time is not up; its side, price and amount,
   after the spot translation, are the row's side, a positive number of ticks and a positive number of steps; what
   it gives as filled is steps too and no more than that; and, under enforcement, its data fits the row.
   */
  lemma AdmittedExactly(req: Request, inst: Instrument, now: int, createdAt: int, enforce: bool, o: Order)
    requires ValidInstrument(inst)
    ensures ToOrder(req, inst, now, createdAt, enforce) == Ok(o) <==>
      && o.id == req.id && o.owner == req.owner && o.nonce == req.nonce && o.market == req.market
      && o.expiry == req.expiry && o.data == req.data && o.status == Active && o.createdAt == createdAt
      && req.expiry > now
      && EngineFields(req, inst).Ok?
      && var c, step := ConverterOf(inst), ReadDecimal(AmountStep(inst));
        var (side, price, amount) := EngineFields(req, inst).value;
        && side == Some(o.side)
        && ReadFraction(price).Ok? && o.ticks > 0 && IsTicks(c, ReadFraction(price).value, o.ticks)
        && o.limitPrice == TicksText(c, o.ticks)
        && step.Some? && step.value.num > 0
        && amount.Some? && o.desired > 0 && IsSteps(amount.value, step.value, o.desired)
        && (if req.filled.text == "" then o.filled == 0
            else req.filled.value.Some? && IsSteps(req.filled.value.value, step.value, o.filled))
        && 0 <= o.filled <= o.desired
        && (enforce ==> DataFits(o, step))
  {
    hide ReadFraction, ReadDecimal, ActionDataError, IsTicks, TicksText, IsSteps, EngineFields, Parse, ReadInt, AtomicUnits,
         DataFits, ConverterOf, ValidInstrument;
    var c, step := ConverterOf(inst), ReadDecimal(AmountStep(inst));
    PositiveTick(inst);
    if EngineFields(req, inst).Ok? {
      var (side, price, amount) := EngineFields(req, inst).value;
      PriceExactly(c, price, o.ticks);
      AmountExactly(amount, step, true, o.desired);
      var filled := if req.filled.text == "" then Some(Ratio(0, 1)) else req.filled.value;
      AmountExactly(filled, step, false, o.filled);
      if step.Some? && step.value.num > 0 {
        NothingIsZeroSteps(step.value, o.filled);
      }
      if o.ticks > 0 && o.desired > 0 {
        DataFitsExactly(o, step);
      }
      if ToOrder(req, inst, now, createdAt, enforce).Ok? {
        PriceIsTicks(c, price, ToOrder(req, inst, now, createdAt, enforce).value.ticks);
      }
    }
  }

  lemma PositiveTick(inst: Instrument)
    requires ValidInstrument(inst)
    ensures ConverterOf(inst).tick.num > 0
  {
  }

  lemma PriceExactly(c: Converter, price: string, ticks: int)
    requires c.tick.num > 0
    ensures ticks > 0 ==>
      (Parse(c, price) == Ok((Text(ticks), TicksText(c, ticks))) <==>
       ReadFraction(price).Ok? && IsTicks(c, ReadFraction(price).value, ticks))
    ensures ticks > 0 ==> ReadInt(Text(ticks)) == Some(ticks)
  {
    hide ReadFraction, TicksText, IsTicks, Parse, ReadInt, Text;
    if ticks > 0 {
      ParseMeaning(c, price, ticks);
      ReadIntOfText(ticks);
      assert IntText(ticks) == Text(ticks);
    }
  }

  lemma AmountExactly(value: Option<Rat>, step: Option<Rat>, requirePositive: bool, atomic: int)
    ensures AtomicUnits(value, step, requirePositive) == Ok(atomic) <==>
      && value.Some? && step.Some? && step.value.num > 0 && IsSteps(value.value, step.value, atomic)
      && (if requirePositive then atomic > 0 else atomic >= 0)
  {
    hide IsSteps;
    if value.Some? && step.Some? && step.value.num > 0 {
      AtomicUnitsMeaning(value.value, step.value, requirePositive, atomic);
    }
  }

  /** An admitted order can be created at any moment, unless its id or its owner and nonce are taken. */
  lemma AdmittedIsCreatable(s: System, req: Request, inst: Instrument, now: int, createdAt: int, enforce: bool)
    requires ValidInstrument(inst) && ToOrder(req, inst, now, createdAt, enforce).Ok?
    ensures var o := ToOrder(req, inst, now, createdAt, enforce).value;
      Enabled(s, CreateOrder(o)) <==>
        forall i | 0 <= i < |s.rows| :: s.rows[i].id != req.id && !(s.rows[i].owner == req.owner && s.rows[i].nonce == req.nonce)
  {
    hide ToOrder, ConverterOf, EngineFields, ReadDecimal;
    AdmittedIsWellFormed(req, inst, now, createdAt, enforce);
    AdmittedExactly(req, inst, now, createdAt, enforce, ToOrder(req, inst, now, createdAt, enforce).value);
  }

  // ----- Requests that get in

  /** A request is admitted when already complete, with all of its amount given as filled. */
  lemma CompleteIsAdmitted(req: Request, inst: Instrument, now: int, createdAt: int, enforce: bool, filled: Field)
    requires ValidInstrument(inst) && ToOrder(req, inst, now, createdAt, enforce).Ok?
    requires filled.text != "" && filled.value == EngineFields(req, inst).value.2
    ensures var o := ToOrder(req, inst, now, createdAt, enforce).value;
      ToOrder(req.(filled := filled), inst, now, createdAt, enforce) == Ok(o.(filled := o.desired))
  {
    hide Parse, ReadDecimal, ReadInt, ActionDataError, ConverterOf, AtomicUnits, ValidateOrTranslate, ValidInstrument;
    var req' := req.(filled := filled);
    PositiveIsEnough(filled.value, ReadDecimal(AmountStep(inst)));
    assert EngineFields(req', inst) == EngineFields(req, inst);
  }

  lemma PositiveIsEnough(value: Option<Rat>, step: Option<Rat>)
    ensures AtomicUnits(value, step, true).Ok? ==> AtomicUnits(value, step, false) == AtomicUnits(value, step, true)
  {
  }

  /** One of the listed futures: prices in whole ticks, amounts in thousandths of a contract. */
  const FUTURE := Instrument("1", 6, "0.001", true, false)

  /** The data field of an action, as wallets spell it. */
  function SignedData(market: Market, asset: seq<byte>, side: Side, price: int, amount: int): string
    requires |asset| == 20 && InInt256(price) && InInt256(amount)
  {
    "0x" + HexEncode(EncodeWords(asset, market.subId, price, amount, ToBytes(0, 32), ToBytes(0, 32), side == Buy))
  }

  predicate NamesAsset(market: Market, asset: seq<byte>) {
    |asset| == 20 && market.asset == "0x" + HexEncode(asset) && market.subId < Pow256(WORD_LENGTH)
  }

  /** A request for n contracts at one tick, signed for the given amount. */
  ghost predicate AsksForContracts(req: Request, asset: seq<byte>, n: int, amount: int) {
    SmallIsInt256(1);
    && NamesAsset(req.market, asset) && n > 0 && amount > 0 && InInt256(amount)
    && req.side.Some? && req.limitPrice.text == "1" && req.desired.value == Some(Ratio(n, 1)) && req.filled.text == ""
    && req.entrySpec == "" && req.intent.None?
    && req.data == Some(SignedData(req.market, asset, req.side.value, 1, amount))
  }

  lemma SignedDataReads(market: Market, asset: seq<byte>, side: Side, price: int, amount: int)
    requires NamesAsset(market, asset) && InInt256(price) && InInt256(amount) && price > 0 && amount > 0
    ensures ParseActionTradeData(SignedData(market, asset, side, price, amount))
         == Ok(TradeAction(market.asset, market.subId, price, amount, side == Buy))
    ensures ToLower(market.asset) == market.asset
  {
    hide ParseActionTradeData, EncodeWords, HexEncode, Pow256, InInt256, ToLower, ToBytes, ParseTradeAction;
    var zero := ToBytes(0, 32);
    DecodeUndoesEncode(asset, market.subId, price, amount, zero, zero, side == Buy, "0x", "", "");
    var hex := HexEncode(EncodeWords(asset, market.subId, price, amount, zero, zero, side == Buy));
    assert "" + "0x" + hex + "" == "0x" + hex;
    ActionAssetIsLower("0x" + hex);
  }

  /** Such a request is admitted under enforcement whether it signs multiples of its steps or plain contracts. */
  lemma ContractsAreAdmitted(req: Request, now: int, createdAt: int, asset: seq<byte>, n: int, amount: int)
    requires ValidInstrument(FUTURE) && AsksForContracts(req, asset, n, amount) && req.expiry > now
    requires amount % (1000 * n) == 0 || amount == n
    ensures ToOrder(req, FUTURE, now, createdAt, true)
         == Ok(Order(req.id, req.owner, req.nonce, req.market, req.side.value, 1000 * n, 0, 1, "1", req.expiry, req.data, Active, createdAt))
    ensures ActionDataError(req.data, req.side.value, req.market, 1, 1000 * n, ReadDecimal("0.001")).None?
    ensures ParseActionTradeData(req.data.value) == Ok(TradeAction(req.market.asset, req.market.subId, 1, amount, req.side.value == Buy))
  {
    hide ParseActionTradeData, SignedData, Parse, ReadDecimal, AtomicUnits, ConverterOf, ToLower, ActionDataError, ReadInt;
    ContractFields(n);
    SignedDataReads(req.market, asset, req.side.value, 1, amount);
    var step := ReadDecimal("0.001");
    HalfIsAligned(1000 * n, amount);
    AcceptedAmounts(req.data.value, TradeAction(req.market.asset, req.market.subId, 1, amount, req.side.value == Buy),
                    req.side.value, req.market, 1, 1000 * n, step);
  }

  lemma ContractFields(n: int)
    requires n > 0 && ValidInstrument(FUTURE)
    ensures ReadDecimal("0.001") == Some(Ratio(1, 1000)) && ReciprocalScale(ReadDecimal("0.001")) == Some(1000)
    ensures AtomicUnits(Some(Ratio(n, 1)), ReadDecimal("0.001"), true) == Ok(1000 * n)
    ensures AtomicUnits(Some(Ratio(0, 1)), ReadDecimal("0.001"), false) == Ok(0)
    ensures Parse(ConverterOf(FUTURE), "1") == Ok(("1", "1")) && ReadInt("1") == Some(1)
  {
    hide ReadDecimal, Parse, ReadInt, ReadPlain, CanonicalDecimal, ReadFraction, TicksText;
    assert "0.001" == LastPlace(3);
    ReadLastPlace(3);
    ReadWithSign("0.001", false);
    assert Pow10(3) == 1000;
    AtomicUnitsMeaning(Ratio(n, 1), Ratio(1, 1000), true, 1000 * n);
    AtomicUnitsMeaning(Ratio(0, 1), Ratio(1, 1000), false, 0);
    ReadUnit();
    ReadIntOfText(1);
    UnitTick(FUTURE);
    var c := ConverterOf(FUTURE);
    assert TicksText(c, 1) == "1" by {
      UnitTicksText(c);
    }
    ParseUndoesFormat(c, 1);
  }

  lemma UnitTicksText(c: Converter)
    requires c.tick == Fraction(1, 0)
    ensures TicksText(c, 1) == Text(1)
  {
    IntegerText(1);
  }

  lemma PlainIsNotAligned(action: TradeAction, n: int)
    requires n > 0 && action.desiredAmount == n
    ensures !StrictlyAligned(action, 1, 1000 * n)
  {
    DivModUnique(n, 1000 * n, 0, n);
  }

  /**
   The compatibility rule does admit orders that can never trade: every request that signs its plain number
   of contracts, of which the book counts thousandths.
   */
  lemma PlainAmountNeverConverts(req: Request, now: int, createdAt: int, asset: seq<byte>, n: int,
                                 other: Order, fillTicks: int, fill: int)
    requires ValidInstrument(FUTURE) && AsksForContracts(req, asset, n, n) && req.expiry > now
    ensures ToOrder(req, FUTURE, now, createdAt, true).Ok?
    ensures var o := ToOrder(req, FUTURE, now, createdAt, true).value;
      && o.desired == 1000 * n
      && ComputeExecutionUnits(o, other, fillTicks, fill).Err? && ComputeExecutionUnits(other, o, fillTicks, fill).Err?
  {
    hide ParseActionTradeData, ToOrder, ActionDataError, ComputeExecutionUnits, SignedData, NamesAsset, InInt256,
         StrictlyAligned, ToLower, ReadDecimal, Pow10;
    PlainIsNotAligned(TradeAction(req.market.asset, req.market.subId, 1, n, req.side.value == Buy), n);
    ContractsAreAdmitted(req, now, createdAt, asset, n, n);
    var o := ToOrder(req, FUTURE, now, createdAt, true).value;
    CompatNeverConverts(o, ParseActionTradeData(o.data.value).value, ReadDecimal("0.001"), other, fillTicks, fill);
  }

  /** One contract at one tick, with this signed amount and so much filled already. */
  function ContractRequest(asset: seq<byte>, side: Side, amount: int, filled: Field, expiry: int): Request
    requires |asset| == 20 && 0 < amount <= 1000
  {
    var market, one := Market("0x" + HexEncode(asset), 0), Field("1", Some(Ratio(1, 1)));
    SmallIsInt256(1);
    SmallIsInt256(amount);
    Request("order", "owner", 7, market, Some(side), one, one, filled, expiry, "", None,
            Some(SignedData(market, asset, side, 1, amount)))
  }

  /** One contract, signed as one: received and never executed. */
  lemma OnePlainContract(asset: seq<byte>, side: Side, now: int, createdAt: int, other: Order, fillTicks: int, fill: int)
    requires |asset| == 20
    ensures ValidInstrument(FUTURE)
    ensures var req := ContractRequest(asset, side, 1, Field("", None), now + 60);
      && ToOrder(req, FUTURE, now, createdAt, true).Ok?
      && var o := ToOrder(req, FUTURE, now, createdAt, true).value;
        ComputeExecutionUnits(o, other, fillTicks, fill).Err? && ComputeExecutionUnits(other, o, fillTicks, fill).Err?
  {
    hide ToOrder, ComputeExecutionUnits, SignedData, HexEncode, InInt256, ValidInstrument, Pow256;
    UnitTick(FUTURE);
    SmallIsInt256(1);
    var req := ContractRequest(asset, side, 1, Field("", None), now + 60);
    PlainAmountNeverConverts(req, now, createdAt, asset, 1, other, fillTicks, fill);
  }

  /** One contract, signed as its thousand steps and given as wholly filled: received as active with nothing left to do. */
  lemma OneCompleteContract(asset: seq<byte>, side: Side, now: int, createdAt: int)
    requires |asset| == 20
    ensures ValidInstrument(FUTURE)
    ensures var req := ContractRequest(asset, side, 1000, Field("1", Some(Ratio(1, 1))), now + 60);
      && ToOrder(req, FUTURE, now, createdAt, true).Ok?
      && var o := ToOrder(req, FUTURE, now, createdAt, true).value;
        o.status == Active && o.filled == o.desired == 1000
  {
    hide ToOrder, SignedData, HexEncode, InInt256, ValidInstrument, Pow256;
    UnitTick(FUTURE);
    SmallIsInt256(1000);
    var blank, one := Field("", None), Field("1", Some(Ratio(1, 1)));
    var req := ContractRequest(asset, side, 1000, blank, now + 60);
    ContractsAreAdmitted(req, now, createdAt, asset, 1, 1000);
    assert req.(filled := one) == ContractRequest(asset, side, 1000, one, now + 60);
    CompleteIsAdmitted(req, FUTURE, now, createdAt, true, one);
  }
}
