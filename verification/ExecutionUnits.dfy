/**
 From book units to signed on-chain units (internal/matching/trade_units.go), and the admission check
 that anticipates it (validateActionDataInvariants in internal/api/orders.go).
 */
module ExecutionUnits {
  import opened Wrappers
  import opened Arithmetic
  import opened TradeData
  import opened Orders

  datatype UnitError =
    | BadAction
    | AssetMismatch
    | SubIdMismatch
    | SideMismatch
    | NotPositive
    | ScaleMismatch
    | ExceedsRemaining
    | OutsideSignedLimit

  datatype Units = Units(price: int, amount: int)

  // ----- Scales

  /** What one order alone contributes to a shared scale. */
  function HalfScale(base: int, signed: int): Option<int> {
    if base > 0 && signed > 0 && signed % base == 0 then Some(signed / base) else None
  }

  function InferSharedScale(leftBase: int, leftSigned: int, rightBase: int, rightSigned: int): Result<int, UnitError> {
    if leftBase <= 0 || rightBase <= 0 then Err(NotPositive)
    else if leftSigned <= 0 || rightSigned <= 0 then Err(NotPositive)
    else if leftSigned % leftBase != 0 then Err(ScaleMismatch)
    else if rightSigned % rightBase != 0 then Err(ScaleMismatch)
    else if leftSigned / leftBase != rightSigned / rightBase then Err(ScaleMismatch)
    else if leftSigned / leftBase <= 0 then Err(NotPositive)
    else Ok(leftSigned / leftBase)
  }

  /** A shared scale is one positive factor that takes both book values to both signed values. */
  lemma SharedScaleMeaning(leftBase: int, leftSigned: int, rightBase: int, rightSigned: int, k: int)
    ensures InferSharedScale(leftBase, leftSigned, rightBase, rightSigned) == Ok(k)
       <==> k > 0 && leftBase > 0 && rightBase > 0 && leftSigned == k * leftBase && rightSigned == k * rightBase
  {
    HalfScaleMeaning(leftBase, leftSigned, k);
    HalfScaleMeaning(rightBase, rightSigned, k);
    SharedIsTwoHalves(leftBase, leftSigned, rightBase, rightSigned);
  }

  lemma HalfScaleMeaning(base: int, signed: int, k: int)
    ensures HalfScale(base, signed) == Some(k) <==> base > 0 && k > 0 && signed == k * base
  {
    if base > 0 && k > 0 && signed == k * base {
      ExactDiv(signed, base, k);
      MulMonotone(1, k, base);
    }
    if HalfScale(base, signed) == Some(k) {
      WholeFactor(base, signed);
    }
  }

  lemma WholeFactor(base: int, signed: int)
    requires base > 0 && signed > 0 && signed % base == 0
    ensures signed / base > 0 && signed == (signed / base) * base
  {
    var k := signed / base;
    assert signed == k * base;
    if k <= 0 {
      MulMonotone(k, 0, base);
    }
  }

  /** The pairwise inference succeeds exactly when both halves do and agree. */
  lemma SharedIsTwoHalves(leftBase: int, leftSigned: int, rightBase: int, rightSigned: int)
    ensures var shared := InferSharedScale(leftBase, leftSigned, rightBase, rightSigned);
      var left, right := HalfScale(leftBase, leftSigned), HalfScale(rightBase, rightSigned);
      && (shared.Ok? <==> left.Some? && left == right)
      && (shared.Ok? ==> Some(shared.value) == left)
  {
    if leftBase > 0 && leftSigned > 0 && leftSigned % leftBase == 0 {
      WholeFactor(leftBase, leftSigned);
    }
  }

  // ----- The conversion

  function SignedAction(o: Order): Result<TradeAction, UnitError> {
    match o.data
    case None => Err(BadAction)
    case Some(raw) =>
      match ParseTradeAction(raw)
      case Ok(action) => Ok(action)
      case Err(_) => Err(BadAction)
  }

  function ValidateActionMarket(o: Order, action: TradeAction): Option<UnitError> {
    if ToLower(action.asset) != ToLower(o.market.asset) then Some(AssetMismatch)
    else if action.subId != o.market.subId then Some(SubIdMismatch)
    else if action.isBid != (o.side == Buy) then Some(SideMismatch)
    else None
  }

  function ScaledRemaining(o: Order, scale: int): Result<int, UnitError> {
    if o.desired <= 0 || o.filled < 0 then Err(NotPositive)
    else if o.desired - o.filled < 0 then Err(ExceedsRemaining)
    else Ok((o.desired - o.filled) * scale)
  }

  /** validatePriceScaleAlignment: the fill price must respect the signed limit. */
  predicate WithinSignedLimit(o: Order, action: TradeAction, price: int) {
    match o.side
    case Buy => price <= action.limitPrice
    case Sell => price >= action.limitPrice
  }

  function ComputeExecutionUnits(taker: Order, maker: Order, fillTicks: int, fillAmount: int): Result<Units, UnitError> {
    var ta, ma := SignedAction(taker), SignedAction(maker);
    if ta.Err? then Err(ta.error)
    else if ma.Err? then Err(ma.error)
    else if ValidateActionMarket(taker, ta.value).Some? then Err(ValidateActionMarket(taker, ta.value).value)
    else if ValidateActionMarket(maker, ma.value).Some? then Err(ValidateActionMarket(maker, ma.value).value)
    else if taker.ticks <= 0 || maker.ticks <= 0 || fillTicks <= 0 then Err(NotPositive)
    else if taker.desired <= 0 || maker.desired <= 0 || fillAmount <= 0 then Err(NotPositive)
    else
      var priceScale := InferSharedScale(taker.ticks, ta.value.limitPrice, maker.ticks, ma.value.limitPrice);
      var amountScale := InferSharedScale(taker.desired, ta.value.desiredAmount, maker.desired, ma.value.desiredAmount);
      if priceScale.Err? then Err(priceScale.error)
      else if amountScale.Err? then Err(amountScale.error)
      else
        var price, amount := fillTicks * priceScale.value, fillAmount * amountScale.value;
        var tr, mr := ScaledRemaining(taker, amountScale.value), ScaledRemaining(maker, amountScale.value);
        if tr.Err? then Err(tr.error)
        else if mr.Err? then Err(mr.error)
        else if amount > tr.value || amount > mr.value then Err(ExceedsRemaining)
        else if !WithinSignedLimit(taker, ta.value, price) then Err(OutsideSignedLimit)
        else if !WithinSignedLimit(maker, ma.value, price) then Err(OutsideSignedLimit)
        else Ok(Units(price, amount))
  }

  // ----- What the conversion guarantees

  /** Amounts and ticks as the table keeps them. */
  predicate WellFormed(o: Order) {
    o.desired > 0 && 0 <= o.filled <= o.desired && o.ticks > 0
  }

  /** The order's signed action can be read, names its market and side, and is a multiple of its book values. */
  predicate SignedProperly(o: Order) {
    && SignedAction(o).Ok?
    && ValidateActionMarket(o, SignedAction(o).value).None?
    && HalfScale(o.ticks, SignedAction(o).value.limitPrice).Some?
    && HalfScale(o.desired, SignedAction(o).value.desiredAmount).Some?
  }

  function PriceScale(o: Order): int
    requires SignedProperly(o)
  {
    HalfScale(o.ticks, SignedAction(o).value.limitPrice).value
  }

  function AmountScale(o: Order): int
    requires SignedProperly(o)
  {
    HalfScale(o.desired, SignedAction(o).value.desiredAmount).value
  }

  predicate SignedAlike(a: Order, b: Order) {
    && SignedProperly(a) && SignedProperly(b)
    && PriceScale(a) == PriceScale(b) && AmountScale(a) == AmountScale(b)
  }

  /**
   What an order's signature has to say, on the decoded tuple: the order's market and side, and positive
   multiples of its ticks and of its amount.
   */
  ghost predicate SignatureFits(o: Order) {
    && o.data.Some? && ParseTradeAction(o.data.value).Ok? && o.ticks > 0 && o.desired > 0
    && var action := ParseTradeAction(o.data.value).value;
      && ToLower(action.asset) == ToLower(o.market.asset) && action.subId == o.market.subId
      && (action.isBid <==> o.side == Buy)
      && action.limitPrice > 0 && action.limitPrice % o.ticks == 0
      && action.desiredAmount > 0 && action.desiredAmount % o.desired == 0
  }

  /** Two signatures fit, and give one tick the same signed price and one unit of amount the same signed amount. */
  ghost predicate SignaturesAgree(a: Order, b: Order) {
    && SignatureFits(a) && SignatureFits(b)
    && var x, y := ParseTradeAction(a.data.value).value, ParseTradeAction(b.data.value).value;
      && x.limitPrice * b.ticks == y.limitPrice * a.ticks
      && x.desiredAmount * b.desired == y.desiredAmount * a.desired
  }

  lemma ProperlyMeansFits(o: Order)
    ensures SignedProperly(o) <==> SignatureFits(o)
    ensures SignatureFits(o) ==> SignedAction(o).Ok? && SignedAction(o).value == ParseTradeAction(o.data.value).value
  {
    hide ParseTradeAction, ToLower;
  }

  lemma AlikeMeansAgree(a: Order, b: Order)
    ensures SignedAlike(a, b) <==> SignaturesAgree(a, b)
  {
    hide SignedProperly, SignatureFits, PriceScale, AmountScale, ParseTradeAction, SignedAction;
    ProperlyMeansFits(a);
    ProperlyMeansFits(b);
    if SignedProperly(a) && SignedProperly(b) {
      var x, y := SignedAction(a).value, SignedAction(b).value;
      ScalesMultiply(a);
      ScalesMultiply(b);
      FitsIsPositive(a);
      FitsIsPositive(b);
      SameScale(x.limitPrice, a.ticks, PriceScale(a), y.limitPrice, b.ticks, PriceScale(b));
      SameScale(x.desiredAmount, a.desired, AmountScale(a), y.desiredAmount, b.desired, AmountScale(b));
    }
  }

  lemma FitsIsPositive(o: Order)
    requires SignatureFits(o)
    ensures o.data.Some? && ParseTradeAction(o.data.value).Ok? && o.ticks > 0 && o.desired > 0
  {
  }

  lemma SameScale(x: int, a: int, p: int, y: int, b: int, q: int)
    requires a > 0 && b > 0 && x == p * a && y == q * b
    ensures p == q <==> x * b == y * a
  {
    assert x * b == p * (a * b) && y * a == q * (a * b);
    MulMonotone(1, a, b);
    MulCancel(p, q, a * b);
  }

  lemma ScalesMultiply(o: Order)
    requires SignedProperly(o)
    ensures PriceScale(o) > 0 && AmountScale(o) > 0
    ensures SignedAction(o).value.limitPrice == PriceScale(o) * o.ticks
    ensures SignedAction(o).value.desiredAmount == AmountScale(o) * o.desired
  {
    HalfScaleMeaning(o.ticks, SignedAction(o).value.limitPrice, PriceScale(o));
    HalfScaleMeaning(o.desired, SignedAction(o).value.desiredAmount, AmountScale(o));
  }

  /** Any successful conversion, for whatever fill it was asked: one scale each way, and both signed limits kept. */
  lemma UnitsMeaning(taker: Order, maker: Order, fillTicks: int, fillAmount: int)
    requires ComputeExecutionUnits(taker, maker, fillTicks, fillAmount).Ok?
    ensures var units := ComputeExecutionUnits(taker, maker, fillTicks, fillAmount).value;
      && SignedAlike(taker, maker)
      && units.price == fillTicks * PriceScale(maker)
      && units.amount == fillAmount * AmountScale(maker)
      && SignaturesAgree(taker, maker)
      && (forall o | o in {taker, maker} ::
            var limit := ParseTradeAction(o.data.value).value.limitPrice;
            if o.side == Buy then units.price <= limit else units.price >= limit)
      && WithinSignedLimit(taker, SignedAction(taker).value, units.price)
      && WithinSignedLimit(maker, SignedAction(maker).value, units.price)
  {
    AlikeMeansAgree(taker, maker);
    ProperlyMeansFits(taker);
    ProperlyMeansFits(maker);
    hide SignatureFits, SignaturesAgree, ParseTradeAction, SignedAction, ValidateActionMarket, InferSharedScale, HalfScale;
    var ta, ma := SignedAction(taker).value, SignedAction(maker).value;
    SharedIsTwoHalves(taker.ticks, ta.limitPrice, maker.ticks, ma.limitPrice);
    SharedIsTwoHalves(taker.desired, ta.desiredAmount, maker.desired, ma.desiredAmount);
  }

  /**
   Exactly when a conversion succeeds, from the decoded tuples and the rows alone: the signatures agree, the
   fill is positive and fits what both orders have left, and its ticks respect both limits. It then has the
   signed price per tick and the signed amount per unit of the maker.
   */
  lemma ConversionExactly(taker: Order, maker: Order, fillTicks: int, fillAmount: int)
    ensures var r := ComputeExecutionUnits(taker, maker, fillTicks, fillAmount);
      && (r.Ok? <==>
            && SignaturesAgree(taker, maker) && fillTicks > 0 && fillAmount > 0
            && forall o | o in {taker, maker} ::
                && 0 <= o.filled && fillAmount <= o.desired - o.filled
                && if o.side == Buy then fillTicks <= o.ticks else fillTicks >= o.ticks)
      && (r.Ok? ==>
            && r.value.price * maker.ticks == fillTicks * ParseTradeAction(maker.data.value).value.limitPrice
            && r.value.amount * maker.desired == fillAmount * ParseTradeAction(maker.data.value).value.desiredAmount)
  {
    hide SignatureFits, SignaturesAgree, ParseTradeAction, SignedProperly, SignedAction, PriceScale, AmountScale, ComputeExecutionUnits;
    AlikeMeansAgree(taker, maker);
    if SignedAlike(taker, maker) {
      ProperlyMeansFits(taker);
      ProperlyMeansFits(maker);
      AgreedConversion(taker, maker, fillTicks, fillAmount);
    } else if ComputeExecutionUnits(taker, maker, fillTicks, fillAmount).Ok? {
      UnitsMeaning(taker, maker, fillTicks, fillAmount);
    }
  }

  lemma AgreedConversion(taker: Order, maker: Order, fillTicks: int, fillAmount: int)
    requires SignedAlike(taker, maker)
    ensures var r := ComputeExecutionUnits(taker, maker, fillTicks, fillAmount);
      && (r.Ok? <==>
            && fillTicks > 0 && fillAmount > 0
            && forall o | o in {taker, maker} ::
                && 0 <= o.filled && fillAmount <= o.desired - o.filled
                && if o.side == Buy then fillTicks <= o.ticks else fillTicks >= o.ticks)
      && (r.Ok? ==>
            && r.value.price * maker.ticks == fillTicks * SignedAction(maker).value.limitPrice
            && r.value.amount * maker.desired == fillAmount * SignedAction(maker).value.desiredAmount)
  {
    hide SignedAction, ValidateActionMarket, InferSharedScale, HalfScale;
    var ta, ma := SignedAction(taker).value, SignedAction(maker).value;
    var p, q := PriceScale(maker), AmountScale(maker);
    ScalesMultiply(taker);
    ScalesMultiply(maker);
    BasesArePositive(taker);
    BasesArePositive(maker);
    SharedIsTwoHalves(taker.ticks, ta.limitPrice, maker.ticks, ma.limitPrice);
    SharedIsTwoHalves(taker.desired, ta.desiredAmount, maker.desired, ma.desiredAmount);
    forall o | o in {taker, maker}
      ensures fillAmount * q <= (o.desired - o.filled) * q <==> fillAmount <= o.desired - o.filled
      ensures fillTicks * p <= p * o.ticks <==> fillTicks <= o.ticks
      ensures fillTicks * p >= p * o.ticks <==> fillTicks >= o.ticks
    {
      MulCancel(fillAmount, o.desired - o.filled, q);
      MulCancel(fillTicks, o.ticks, p);
      MulCancel(o.ticks, fillTicks, p);
    }
    assert (fillTicks * p) * maker.ticks == fillTicks * (p * maker.ticks);
    assert (fillAmount * q) * maker.desired == fillAmount * (q * maker.desired);
  }

  lemma BasesArePositive(o: Order)
    requires SignedProperly(o)
    ensures o.ticks > 0 && o.desired > 0
  {
  }

  /**
   A crossing pair filled by the smaller remainder at the maker's ticks: once both signatures read, name
   the right market and agree on scales, no later check can fail. The price is exactly the maker's signed limit.
   */
  lemma CrossingPairConverts(taker: Order, maker: Order)
    requires WellFormed(taker) && WellFormed(maker) && taker.side != maker.side
    requires Crosses(taker, maker) && Min(Remaining(taker), Remaining(maker)) > 0
    ensures var fill := Min(Remaining(taker), Remaining(maker));
      var units := ComputeExecutionUnits(taker, maker, maker.ticks, fill);
      && (units.Ok? <==> SignaturesAgree(taker, maker))
      && (units.Ok? <==> SignedAlike(taker, maker))
      && (units.Ok? ==>
            && units.value.price == SignedAction(maker).value.limitPrice
            && units.value.amount == fill * AmountScale(maker)
            && units.value.amount <= Remaining(taker) * AmountScale(taker)
            && units.value.amount <= Remaining(maker) * AmountScale(maker))
  {
    AlikeMeansAgree(taker, maker);
    hide SignaturesAgree;
    var fill := Min(Remaining(taker), Remaining(maker));
    if SignedAlike(taker, maker) {
      AlikePairConverts(taker, maker, fill);
    } else if ComputeExecutionUnits(taker, maker, maker.ticks, fill).Ok? {
      UnitsMeaning(taker, maker, maker.ticks, fill);
    }
  }

  lemma AlikePairConverts(taker: Order, maker: Order, fill: int)
    requires WellFormed(taker) && WellFormed(maker) && taker.side != maker.side
    requires Crosses(taker, maker) && fill == Min(Remaining(taker), Remaining(maker)) > 0
    requires SignedAlike(taker, maker)
    ensures ComputeExecutionUnits(taker, maker, maker.ticks, fill)
         == Ok(Units(SignedAction(maker).value.limitPrice, fill * AmountScale(maker)))
    ensures fill * AmountScale(maker) <= Remaining(taker) * AmountScale(taker)
    ensures fill * AmountScale(maker) <= Remaining(maker) * AmountScale(maker)
  {
    hide SignedAction, ValidateActionMarket, InferSharedScale, HalfScale;
    var ta, ma := SignedAction(taker).value, SignedAction(maker).value;
    var p, q := PriceScale(maker), AmountScale(maker);
    ScalesMultiply(taker);
    ScalesMultiply(maker);
    SharedIsTwoHalves(taker.ticks, ta.limitPrice, maker.ticks, ma.limitPrice);
    SharedIsTwoHalves(taker.desired, ta.desiredAmount, maker.desired, ma.desiredAmount);
    MulMonotone(fill, Remaining(taker), q);
    MulMonotone(fill, Remaining(maker), q);
    MulCancel(maker.ticks, taker.ticks, p);
    MulCancel(taker.ticks, maker.ticks, p);
  }
}
