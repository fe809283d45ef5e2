/**
 Nothing is created or lost: book amounts per order and per market, and signed amounts per order, over
 every interleaving.
 */
module Conservation {
  import opened Arithmetic
  import opened TradeData
  import opened Orders
  import opened Tables
  import opened ExecutionUnits
  import opened Protocol
  import opened Safety
  import opened Priority

  // ----- Totals

  predicate Names(trade: Trade, id: string) {
    trade.taker == id || trade.maker == id
  }

  /** The sizes of all trades that name an order. */
  function TradedBy(trades: seq<Trade>, id: string): int {
    if trades == [] then 0
    else
      var n := |trades| - 1;
      TradedBy(trades[..n], id) + if Names(trades[n], id) then trades[n].size else 0
  }

  /** The sizes of all trades of a market. */
  function Volume(trades: seq<Trade>, market: Market): int {
    if trades == [] then 0
    else
      var n := |trades| - 1;
      Volume(trades[..n], market) + if trades[n].market == market then trades[n].size else 0
  }

  /** What the orders of one side of a market have been filled since they were created. */
  function Gained(rows: seq<Order>, initial: seq<int>, market: Market, side: Side): int
    requires |rows| == |initial|
  {
    if rows == [] then 0
    else
      var n := |rows| - 1;
      Gained(rows[..n], initial[..n], market, side)
      + if rows[n].market == market && rows[n].side == side then rows[n].filled - initial[n] else 0
  }

  /** The executor amounts of all trades that name an order. */
  function Executed(trades: seq<Trade>, fills: seq<Fill>, id: string): int
    requires |trades| == |fills|
  {
    if trades == [] then 0
    else
      var n := |trades| - 1;
      Executed(trades[..n], fills[..n], id) + if Names(trades[n], id) then fills[n].units.amount else 0
  }

  // ----- The invariant

  ghost predicate OrdersBalance(s: System) {
    && |s.initial| == |s.rows|
    && forall i | 0 <= i < |s.rows| :: s.rows[i].filled - s.initial[i] == TradedBy(s.trades, s.rows[i].id)
  }

  ghost predicate MarketsBalance(s: System) {
    && |s.initial| == |s.rows|
    && forall market: Market, side: Side :: Gained(s.rows, s.initial, market, side) == Volume(s.trades, market)
  }

  /** Trade k went to the executor in units of either order's own scale, at the maker's signed limit. */
  ghost predicate PaidInUnits(s: System, k: nat)
    requires k < |s.trades| && k < |s.fills| && CarriesOut(s, k)
  {
    var r := s.log[s.fills[k].reservation];
    var taker, maker, units := s.rows[r.t], s.rows[r.m], s.fills[k].units;
    && SignedAlike(taker, maker)
    && units.amount == AmountScale(maker) * s.trades[k].size
    && units.price == SignedAction(maker).value.limitPrice
    && WithinSignedLimit(taker, SignedAction(taker).value, units.price)
  }

  ghost predicate UnitsBalance(s: System) {
    FillsOk(s) && forall k | 0 <= k < |s.trades| :: CarriesOut(s, k) && PaidInUnits(s, k)
  }

  // ----- Orders

  lemma {:induction false} UnnamedTradesNothing(trades: seq<Trade>, id: string)
    requires forall k | 0 <= k < |trades| :: !Names(trades[k], id)
    ensures TradedBy(trades, id) == 0
  {
    if trades != [] {
      UnnamedTradesNothing(trades[..|trades| - 1], id);
    }
  }

  /** A new id is named by no trade, since every trade names two rows. */
  lemma FreshIdIsUnnamed(s: System, o: Order)
    requires FillsOk(s) && FreshKeys(s.rows, o)
    ensures TradedBy(s.trades, o.id) == 0
  {
    forall k | 0 <= k < |s.trades|
      ensures !Names(s.trades[k], o.id)
    {
      assert CarriesOut(s, k);
    }
    UnnamedTradesNothing(s.trades, o.id);
  }

  lemma TradedByLast(trades: seq<Trade>, trades': seq<Trade>, id: string)
    requires |trades'| == |trades| + 1 && trades'[..|trades|] == trades
    ensures TradedBy(trades', id) == TradedBy(trades, id) + if Names(trades'[|trades|], id) then trades'[|trades|].size else 0
  {
  }

  lemma StepKeepsOrders(s: System, step: Step)
    requires Inv(s) && FillsOk(s) && OrdersBalance(s) && Enabled(s, step)
    ensures OrdersBalance(Next(s, step))
  {
    hide TradedBy, Decide, Finalize, FillRow, Reserved, Released;
    var s' := Next(s, step);
    StepKeepsInv(s, step);
    if Trades(step) {
      TradeKeepsOrders(s, s');
    } else if step.CreateOrder? {
      FreshIdIsUnnamed(s, step.order);
    } else {
      hide Next, Inv;
      StepAddsNoRow(s, step);
      forall i | 0 <= i < |s'.rows|
        ensures s'.rows[i].filled - s'.initial[i] == TradedBy(s'.trades, s'.rows[i].id)
      {
        assert RowEvolves(s, s.rows[i], s'.rows[i]);
      }
    }
  }

  lemma StepAddsNoRow(s: System, step: Step)
    requires Enabled(s, step) && Inv(s) && !step.CreateOrder?
    ensures |Next(s, step).rows| == |s.rows| && Next(s, step).initial == s.initial
  {
    hide Decide, Finalize, FillRow;
    StepKeepsInv(s, step);
  }

  lemma TradeKeepsOrders(s: System, s': System)
    requires Inv(s) && OrdersBalance(s) && OneTrade(s, s') && Evolves(s, s')
    ensures OrdersBalance(s')
  {
    hide TradedBy, Decide, Owned;
    var c := s.phase.c;
    forall i | 0 <= i < |s.rows|
      ensures s'.rows[i].filled - s'.initial[i] == TradedBy(s'.trades, s'.rows[i].id)
    {
      TradedByLast(s.trades, s'.trades, s.rows[i].id);
      assert RowEvolves(s, s.rows[i], s'.rows[i]);
      assert Names(s'.trades[|s.trades|], s.rows[i].id) <==> i == c.t || i == c.m;
    }
  }

  // ----- Markets

  /** Equal amounts on equal terms gain the same, and rows that start at their initial amount gain nothing. */
  lemma {:induction false} GainedUnchanged(rows: seq<Order>, initial: seq<int>, rows': seq<Order>, initial': seq<int>,
                                            market: Market, side: Side)
    requires |rows| == |initial| && |rows'| == |initial'| && |rows| <= |rows'| && initial <= initial'
    requires forall i | 0 <= i < |rows| ::
      rows'[i].filled == rows[i].filled && rows'[i].market == rows[i].market && rows'[i].side == rows[i].side
    requires forall i | |rows| <= i < |rows'| :: rows'[i].filled == initial'[i]
    ensures Gained(rows', initial', market, side) == Gained(rows, initial, market, side)
    decreases |rows'|
  {
    if rows' != [] {
      var n := |rows'| - 1;
      if |rows| == |rows'| {
        GainedUnchanged(rows[..n], initial[..n], rows'[..n], initial'[..n], market, side);
      } else {
        GainedUnchanged(rows, initial, rows'[..n], initial'[..n], market, side);
      }
    }
  }

  lemma {:induction false} GainedByFill(rows: seq<Order>, initial: seq<int>, i: nat, amount: int, market: Market, side: Side)
    requires |rows| == |initial| && i < |rows|
    ensures Gained(rows[i := FillRow(rows[i], amount)], initial, market, side)
         == Gained(rows, initial, market, side) + if rows[i].market == market && rows[i].side == side then amount else 0
    decreases |rows|
  {
    var rows' := rows[i := FillRow(rows[i], amount)];
    var n := |rows| - 1;
    if i == n {
      assert rows'[..n] == rows[..n];
    } else {
      assert rows'[..n] == rows[..n][i := FillRow(rows[i], amount)];
      GainedByFill(rows[..n], initial[..n], i, amount, market, side);
    }
  }

  lemma VolumeLast(trades: seq<Trade>, trades': seq<Trade>, market: Market)
    requires |trades'| == |trades| + 1 && trades'[..|trades|] == trades
    ensures Volume(trades', market)
         == Volume(trades, market) + if trades'[|trades|].market == market then trades'[|trades|].size else 0
  {
  }

  lemma StepKeepsMarkets(s: System, step: Step)
    requires Inv(s) && MarketsBalance(s) && Enabled(s, step)
    ensures MarketsBalance(Next(s, step))
  {
    hide Volume, Gained, Next, Enabled, FillRow, PhaseOk, Owned;
    var s' := Next(s, step);
    StepKeepsInv(s, step);
    forall market: Market, side: Side
      ensures Gained(s'.rows, s'.initial, market, side) == Volume(s'.trades, market)
    {
      if Trades(step) {
        TradeMovesMarket(s, s', market, side);
      } else {
        forall i | 0 <= i < |s.rows|
          ensures SameTerms(s.rows[i], s'.rows[i])
        {
          assert RowEvolves(s, s.rows[i], s'.rows[i]);
        }
        GainedUnchanged(s.rows, s.initial, s'.rows, s'.initial, market, side);
      }
    }
  }

  /** One trade adds its size once to each side of its market and nowhere else. */
  lemma TradeMovesMarket(s: System, s': System, market: Market, side: Side)
    requires Inv(s) && OneTrade(s, s') && MarketsBalance(s)
    ensures |s'.rows| == |s'.initial| && Gained(s'.rows, s'.initial, market, side) == Volume(s'.trades, market)
  {
    hide Volume, Gained, Decide, Owned;
    var c, fill := s.phase.c, s.phase.fill;
    var rows1 := s.rows[c.t := FillRow(s.rows[c.t], fill)];
    GainedByFill(s.rows, s.initial, c.t, fill, market, side);
    GainedByFill(rows1, s.initial, c.m, fill, market, side);
    VolumeLast(s.trades, s'.trades, market);
  }

  // ----- Signed units

  /** The signature's meaning depends on terms that never change. */
  lemma TermsFixScales(a: Order, b: Order)
    requires SameTerms(a, b)
    ensures SignedProperly(a) <==> SignedProperly(b)
    ensures SignedProperly(a) ==> PriceScale(a) == PriceScale(b) && AmountScale(a) == AmountScale(b)
    ensures SignedAction(a) == SignedAction(b)
  {
  }

  lemma PaidStays(s: System, s': System, k: nat)
    requires Evolves(s, s') && k < |s.trades| && k < |s.fills| && CarriesOut(s, k) && PaidInUnits(s, k)
    ensures CarriesOut(s', k) && PaidInUnits(s', k)
  {
    hide SignedProperly, SignedAction;
    TradeStays(s, s', k);
    var r := s.log[s.fills[k].reservation];
    assert RowEvolves(s, s.rows[r.t], s'.rows[r.t]) && RowEvolves(s, s.rows[r.m], s'.rows[r.m]);
    TermsFixScales(s.rows[r.t], s'.rows[r.t]);
    TermsFixScales(s.rows[r.m], s'.rows[r.m]);
  }

  lemma StepKeepsUnits(s: System, step: Step)
    requires Inv(s) && UnitsBalance(s) && Enabled(s, step)
    ensures UnitsBalance(Next(s, step))
  {
    hide Inv, Next, Enabled, CarriesOut, PaidInUnits;
    var s' := Next(s, step);
    StepKeepsInv(s, step);
    StepKeepsFills(s, step);
    forall k | 0 <= k < |s'.trades|
      ensures CarriesOut(s', k) && PaidInUnits(s', k)
    {
      if k < |s.trades| {
        PaidStays(s, s', k);
      } else {
        NewTradeCarriesOut(s, s');
        NewTradeIsPaid(s, s');
      }
    }
  }

  lemma NewTradeIsPaid(s: System, s': System)
    requires Inv(s) && Evolves(s, s') && OneTrade(s, s') && |s.fills| == |s.trades| && CarriesOut(s', |s.trades|)
    ensures PaidInUnits(s', |s.trades|)
  {
    hide RowsOk, Owned, Decide, FillRow, SignedProperly, SignedAction, ComputeExecutionUnits, CarriesOut;
    var c := s.phase.c;
    FillFits(c, s.phase.fill, s.phase.units);
    UnitsMeaning(c.taker, c.maker, c.maker.ticks, s.phase.fill);
    ScalesMultiply(c.maker);
    assert RowEvolves(s, s.rows[c.t], s'.rows[c.t]) && RowEvolves(s, s.rows[c.m], s'.rows[c.m]);
    TermsFixScales(c.taker, s'.rows[c.t]);
    TermsFixScales(c.maker, s'.rows[c.m]);
  }

  /** Trade by trade, the executor amounts of an order are its own scale times the sizes. */
  lemma {:induction false} ExecutedIsScaled(s: System, i: nat, n: nat)
    requires UniqueKeys(s.rows) && UnitsBalance(s) && i < |s.rows| && n <= |s.trades|
    ensures SignedProperly(s.rows[i]) ==>
      Executed(s.trades[..n], s.fills[..n], s.rows[i].id) == AmountScale(s.rows[i]) * TradedBy(s.trades[..n], s.rows[i].id)
    ensures !SignedProperly(s.rows[i]) ==>
      Executed(s.trades[..n], s.fills[..n], s.rows[i].id) == 0 == TradedBy(s.trades[..n], s.rows[i].id)
    decreases n
  {
    hide SignedProperly, SignedAction, WithinSignedLimit;
    if n > 0 {
      var k := n - 1;
      ExecutedIsScaled(s, i, k);
      assert s.trades[..n][..k] == s.trades[..k] && s.fills[..n][..k] == s.fills[..k];
      assert CarriesOut(s, k) && PaidInUnits(s, k);
      var r := s.log[s.fills[k].reservation];
      if Names(s.trades[k], s.rows[i].id) {
        assert i == r.t || i == r.m;
        var scale, size, before := AmountScale(s.rows[i]), s.trades[k].size, TradedBy(s.trades[..k], s.rows[i].id);
        assert scale * before + scale * size == scale * (before + size);
      }
    }
  }

  // ----- Whole runs

  ghost predicate Balanced(s: System) {
    FillsOk(s) && OrdersBalance(s) && MarketsBalance(s) && UnitsBalance(s)
  }

  lemma {:induction false} RunKeepsBalance(s: System, steps: seq<Step>)
    requires Inv(s) && Balanced(s) && Legal(s, steps)
    ensures Inv(Run(s, steps)) && Balanced(Run(s, steps))
    decreases |steps|
  {
    hide Inv, Enabled, Next, FillsOk, OrdersBalance, MarketsBalance, UnitsBalance;
    if steps != [] {
      StepKeepsInv(s, steps[0]);
      StepKeepsFills(s, steps[0]);
      StepKeepsOrders(s, steps[0]);
      StepKeepsMarkets(s, steps[0]);
      StepKeepsUnits(s, steps[0]);
      RunKeepsBalance(Next(s, steps[0]), steps[1..]);
    }
  }

  lemma EmptyIsBalanced()
    ensures Inv(EMPTY) && Balanced(EMPTY)
  {
  }

  /**
   Book conservation, over every interleaving: what an order was filled since it was created is the sum
   of the trades naming it, and in each market buys and sells gained exactly what was traded.
   */
  lemma BookIsConserved(steps: seq<Step>, i: nat, market: Market)
    requires Legal(EMPTY, steps) && i < |Run(EMPTY, steps).rows|
    ensures var s := Run(EMPTY, steps);
      && |s.initial| == |s.rows|
      && s.rows[i].filled - s.initial[i] == TradedBy(s.trades, s.rows[i].id)
      && Gained(s.rows, s.initial, market, Buy) == Volume(s.trades, market)
      && Gained(s.rows, s.initial, market, Sell) == Volume(s.trades, market)
  {
    hide Inv, Legal, Run, Gained, Volume, TradedBy;
    EmptyIsBalanced();
    RunKeepsBalance(EMPTY, steps);
  }

  /**
   Signed conservation: the executor amounts of an order's trades sum to its own scale times what it was
   filled, never exceed the signed amount, and equal it when an order created unfilled becomes filled.
   An order whose signature does not fit its book values is never filled at all.
   */
  lemma SignedAmountIsConserved(steps: seq<Step>, i: nat)
    requires Legal(EMPTY, steps) && i < |Run(EMPTY, steps).rows|
    ensures var s := Run(EMPTY, steps);
      && |s.trades| == |s.fills| && |s.initial| == |s.rows|
      && var o, executed := s.rows[i], Executed(s.trades, s.fills, s.rows[i].id);
        if SignedProperly(o) then
          && executed == AmountScale(o) * (o.filled - s.initial[i])
          && executed <= SignedAction(o).value.desiredAmount
          && (s.initial[i] == 0 && o.status == Filled ==> executed == SignedAction(o).value.desiredAmount)
        else executed == 0 && o.filled == s.initial[i]
  {
    hide Inv, Legal, Run, SignedProperly, SignedAction;
    EmptyIsBalanced();
    RunKeepsBalance(EMPTY, steps);
    var s := Run(EMPTY, steps);
    var o := s.rows[i];
    InvFacts(s, i);
    ExecutedIsScaled(s, i, |s.trades|);
    assert s.trades[..|s.trades|] == s.trades && s.fills[..|s.fills|] == s.fills;
    if SignedProperly(o) {
      ScalesMultiply(o);
      MulMonotone(o.filled - s.initial[i], o.desired, AmountScale(o));
    }
  }

  /**
   Only what was signed for is traded: an order that was ever filled carries a readable tuple that names its
   market and its side, with positive multiples of its ticks and of its amount.
   */
  lemma FilledMeansSigned(steps: seq<Step>, i: nat)
    requires Legal(EMPTY, steps) && i < |Run(EMPTY, steps).rows|
    ensures var s := Run(EMPTY, steps);
      && |s.initial| == |s.rows|
      && var o := s.rows[i];
        o.filled != s.initial[i] ==>
          && o.data.Some? && ParseTradeAction(o.data.value).Ok? && o.ticks > 0 && o.desired > 0
          && var action := ParseTradeAction(o.data.value).value;
            && ToLower(action.asset) == ToLower(o.market.asset) && action.subId == o.market.subId
            && (action.isBid <==> o.side == Buy)
            && action.limitPrice > 0 && action.limitPrice % o.ticks == 0
            && action.desiredAmount > 0 && action.desiredAmount % o.desired == 0
  {
    hide Legal, Run, SignedProperly, ParseTradeAction, ToLower, SignedAction;
    SignedAmountIsConserved(steps, i);
    ProperlyMeansFits(Run(EMPTY, steps).rows[i]);
  }

  lemma InvFacts(s: System, i: nat)
    requires Inv(s) && i < |s.rows|
    ensures UniqueKeys(s.rows) && WellFormed(s.rows[i]) && |s.initial| == |s.rows| && s.initial[i] >= 0
    ensures s.rows[i].status == Filled ==> s.rows[i].filled == s.rows[i].desired
  {
  }

  /** Every trade of every run was executed at exactly the maker's signed price, within the taker's. */
  lemma ExecutedWithinSignedLimits(steps: seq<Step>, k: nat)
    requires Legal(EMPTY, steps) && k < |Run(EMPTY, steps).trades|
    ensures var s := Run(EMPTY, steps);
      k < |s.fills| && CarriesOut(s, k) && PaidInUnits(s, k)
  {
    hide Inv, Legal, Run, CarriesOut, PaidInUnits;
    EmptyIsBalanced();
    RunKeepsBalance(EMPTY, steps);
  }
}
