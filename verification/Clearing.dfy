/**
 What repeated ticks achieve on a market that is left alone: the book ends uncrossed after a bounded
 number of matches, and exactly the largest volume that any single price could have cleared is traded.
 */
module Clearing {
  import opened Wrappers
  import opened Orders
  import opened Tables
  import opened ExecutionUnits
  import opened Protocol
  import opened Conservation
  import opened Engine

  // ----- Depth

  /** An order at these ticks would trade at price p. */
  predicate Accepts(ticks: int, side: Side, p: int) {
    match side
    case Buy => ticks >= p
    case Sell => ticks <= p
  }

  function Offer(o: Order, market: Market, side: Side, p: int): int {
    if Eligible(o, market, side) && Accepts(o.ticks, side, p) then Remaining(o) else 0
  }

  /** The quantity that active orders of one side offer at price p or better. */
  function Depth(rows: seq<Order>, market: Market, side: Side, p: int): int {
    if rows == [] then 0
    else Depth(rows[..|rows| - 1], market, side, p) + Offer(rows[|rows| - 1], market, side, p)
  }

  predicate InBook(o: Order, market: Market) {
    o.market == market && o.status == Active
  }

  /** The number of active orders of a market. */
  function BookSize(rows: seq<Order>, market: Market): nat {
    if rows == [] then 0
    else BookSize(rows[..|rows| - 1], market) + if InBook(rows[|rows| - 1], market) then 1 else 0
  }

  /** The number of trades of a market. */
  function Matches(trades: seq<Trade>, market: Market): nat {
    if trades == [] then 0
    else Matches(trades[..|trades| - 1], market) + if trades[|trades| - 1].market == market then 1 else 0
  }

  ghost predicate Uncrossed(rows: seq<Order>, market: Market) {
    forall i, j | 0 <= i < |rows| && 0 <= j < |rows| && Eligible(rows[i], market, Buy) && Eligible(rows[j], market, Sell) ::
      rows[i].ticks < rows[j].ticks
  }

  // ----- Sessions

  ghost predicate Session(t: Table, ticks: seq<TickInput>)
    decreases |ticks|
  {
    ticks == [] || (TickEnabled(t.rows, ticks[0]) && Session(Tick(t, ticks[0]), ticks[1..]))
  }

  /** The tables after a sequence of ticks, of any markets. */
  ghost function After(t: Table, ticks: seq<TickInput>): Table
    requires Session(t, ticks)
    decreases |ticks|
  {
    if ticks == [] then t else After(Tick(t, ticks[0]), ticks[1..])
  }

  /** No order of the market runs out of time at this tick. */
  ghost predicate Unexpired(rows: seq<Order>, market: Market, tick: TickInput) {
    forall i | 0 <= i < |rows| && InBook(rows[i], market) :: !IsExpired(rows[i], tick.at)
  }

  /** Nor does the executor refuse one of its matches. */
  ghost predicate Calm(rows: seq<Order>, market: Market, tick: TickInput) {
    Unexpired(rows, market, tick) && (tick.market == market ==> ShouldFinalize(tick.reply))
  }

  ghost predicate CalmThroughout(rows: seq<Order>, market: Market, ticks: seq<TickInput>) {
    forall k | 0 <= k < |ticks| :: Calm(rows, market, ticks[k])
  }

  /** Every active order still wants something, and opposite orders are signed on the same scales. */
  ghost predicate Tradable(rows: seq<Order>, market: Market) {
    && (forall i | 0 <= i < |rows| && InBook(rows[i], market) :: rows[i].filled < rows[i].desired)
    && forall i, j | 0 <= i < |rows| && 0 <= j < |rows| && Eligible(rows[i], market, Buy) && Eligible(rows[j], market, Sell) ::
        SignedAlike(rows[i], rows[j]) && SignedAlike(rows[j], rows[i])
  }

  // ----- Changes that leave the book alone

  ghost predicate SameBook(rows: seq<Order>, rows': seq<Order>, market: Market) {
    && |rows'| == |rows|
    && forall i | 0 <= i < |rows| && (InBook(rows[i], market) || InBook(rows'[i], market)) :: rows'[i] == rows[i]
  }

  lemma {:induction false} SameBookSameDepth(rows: seq<Order>, rows': seq<Order>, market: Market, side: Side, p: int)
    requires SameBook(rows, rows', market)
    ensures Depth(rows', market, side, p) == Depth(rows, market, side, p)
    ensures BookSize(rows', market) == BookSize(rows, market)
    decreases |rows|
  {
    if rows != [] {
      SameBookSameDepth(rows[..|rows| - 1], rows'[..|rows| - 1], market, side, p);
    }
  }

  lemma ExpiryKeepsBook(rows: seq<Order>, market: Market, tick: TickInput)
    requires Unexpired(rows, market, tick)
    ensures SameBook(rows, Expire(rows, tick.at), market)
  {
  }

  lemma SameBookSameConditions(rows: seq<Order>, rows': seq<Order>, market: Market, ticks: seq<TickInput>)
    requires SameBook(rows, rows', market)
    ensures Tradable(rows, market) ==> Tradable(rows', market)
    ensures CalmThroughout(rows, market, ticks) ==> CalmThroughout(rows', market, ticks)
    ensures Uncrossed(rows', market) <==> Uncrossed(rows, market)
  {
    hide SignedAlike, ShouldFinalize;
    assert forall i, side | 0 <= i < |rows| :: Eligible(rows'[i], market, side) <==> Eligible(rows[i], market, side);
    if CalmThroughout(rows, market, ticks) {
      forall k | 0 <= k < |ticks|
        ensures Calm(rows', market, ticks[k])
      {
        assert Calm(rows, market, ticks[k]);
      }
    }
  }

  // ----- The fill of the best pair

  /** rows' is rows with bid b and ask a filled by the smaller of what they have left. */
  ghost predicate PairFilled(rows: seq<Order>, rows': seq<Order>, market: Market, b: nat, a: nat, fill: int) {
    && IsBest(rows, b, market, Buy) && IsBest(rows, a, market, Sell)
    && rows[b].ticks >= rows[a].ticks
    && fill == Min(Remaining(rows[b]), Remaining(rows[a])) > 0
    && |rows'| == |rows| && rows'[b] == FillRow(rows[b], fill) && rows'[a] == FillRow(rows[a], fill)
    && forall i | 0 <= i < |rows| && i != b && i != a :: rows'[i] == rows[i]
  }

  /** Filling a row takes the fill off the depth exactly where the row counted. */
  lemma FilledOffer(o: Order, fill: int, market: Market, side: Side, p: int)
    requires InBook(o, market) && 0 < fill <= Remaining(o) && o.filled <= o.desired
    ensures Offer(FillRow(o, fill), market, side, p)
         == Offer(o, market, side, p) - if o.side == side && Accepts(o.ticks, side, p) then fill else 0
    ensures !InBook(FillRow(o, fill), market) <==> fill == Remaining(o)
  {
  }

  lemma {:induction false} DepthAfterChange(rows: seq<Order>, i: nat, o: Order, market: Market, side: Side, p: int)
    requires i < |rows|
    ensures Depth(rows[i := o], market, side, p)
         == Depth(rows, market, side, p) - Offer(rows[i], market, side, p) + Offer(o, market, side, p)
    ensures BookSize(rows[i := o], market)
         == BookSize(rows, market) - (if InBook(rows[i], market) then 1 else 0) + if InBook(o, market) then 1 else 0
    decreases |rows|
  {
    var n := |rows| - 1;
    if i == n {
      assert rows[i := o][..n] == rows[..n];
    } else {
      assert rows[i := o][..n] == rows[..n][i := o];
      DepthAfterChange(rows[..n], i, o, market, side, p);
    }
  }

  lemma PairFilledDepth(rows: seq<Order>, rows': seq<Order>, market: Market, b: nat, a: nat, fill: int, p: int)
    requires PairFilled(rows, rows', market, b, a, fill)
    requires rows[b].filled <= rows[b].desired && rows[a].filled <= rows[a].desired
    ensures Depth(rows', market, Buy, p) == Depth(rows, market, Buy, p) - if rows[b].ticks >= p then fill else 0
    ensures Depth(rows', market, Sell, p) == Depth(rows, market, Sell, p) - if rows[a].ticks <= p then fill else 0
    ensures BookSize(rows', market) < BookSize(rows, market)
  {
    hide Depth, BookSize, Offer, Accepts, IsBest;
    PickIsEligible(rows, b, a, market);
    var rows1 := rows[b := rows'[b]];
    assert rows' == rows1[a := rows'[a]];
    forall side: Side
      ensures Depth(rows', market, side, p) == Depth(rows, market, side, p)
        - (if Buy == side && Accepts(rows[b].ticks, side, p) then fill else 0)
        - (if Sell == side && Accepts(rows[a].ticks, side, p) then fill else 0)
      ensures BookSize(rows', market) < BookSize(rows, market)
    {
      DepthAfterChange(rows, b, rows'[b], market, side, p);
      DepthAfterChange(rows1, a, rows'[a], market, side, p);
      FilledOffer(rows[b], fill, market, side, p);
      FilledOffer(rows[a], fill, market, side, p);
    }
    AcceptsMeans(rows[b].ticks, rows[a].ticks, p);
    assert Depth(rows', market, Buy, p) == Depth(rows, market, Buy, p) - if Accepts(rows[b].ticks, Buy, p) then fill else 0;
    assert Depth(rows', market, Sell, p) == Depth(rows, market, Sell, p) - if Accepts(rows[a].ticks, Sell, p) then fill else 0;
  }

  lemma PickIsEligible(rows: seq<Order>, b: nat, a: nat, market: Market)
    requires IsBest(rows, b, market, Buy) && IsBest(rows, a, market, Sell)
    ensures b < |rows| && a < |rows| && Eligible(rows[b], market, Buy) && Eligible(rows[a], market, Sell)
  {
  }

  lemma AcceptsMeans(bid: int, ask: int, p: int)
    ensures Accepts(bid, Buy, p) <==> bid >= p
    ensures Accepts(ask, Sell, p) <==> ask <= p
  {
  }

  lemma PairFilledConditions(rows: seq<Order>, rows': seq<Order>, market: Market, b: nat, a: nat, fill: int,
                             ticks: seq<TickInput>)
    requires PairFilled(rows, rows', market, b, a, fill) && Tradable(rows, market) && CalmThroughout(rows, market, ticks)
    ensures Tradable(rows', market) && CalmThroughout(rows', market, ticks)
    ensures forall i, side | 0 <= i < |rows| && Eligible(rows'[i], market, side) ::
      Eligible(rows[i], market, side) && rows'[i].ticks == rows[i].ticks
  {
    hide SignedAction, SignedProperly, ShouldFinalize, Better;
    forall i | 0 <= i < |rows|
      ensures SameTerms(rows[i], rows'[i])
      ensures InBook(rows'[i], market) ==> InBook(rows[i], market) && rows'[i].filled < rows'[i].desired
    {
    }
    forall i, j | 0 <= i < |rows| && 0 <= j < |rows| && Eligible(rows'[i], market, Buy) && Eligible(rows'[j], market, Sell)
      ensures SignedAlike(rows'[i], rows'[j]) && SignedAlike(rows'[j], rows'[i])
    {
      assert SignedAlike(rows[i], rows[j]) && SignedAlike(rows[j], rows[i]);
      TermsFixScales(rows[i], rows'[i]);
      TermsFixScales(rows[j], rows'[j]);
    }
    forall k | 0 <= k < |ticks|
      ensures Calm(rows', market, ticks[k])
    {
      assert Calm(rows, market, ticks[k]);
    }
  }

  // ----- One tick

  /** On this market the tick either leaves the book alone and trades nothing, or fills its best pair. */
  ghost predicate BookStep(t: Table, t': Table, market: Market, trades: bool, e: seq<Order>, b: nat, a: nat, fill: int) {
    && SameBook(t.rows, e, market)
    && if trades then
        && PairFilled(e, t'.rows, market, b, a, fill)
        && Volume(t'.trades, market) == Volume(t.trades, market) + fill
        && Matches(t'.trades, market) == Matches(t.trades, market) + 1
      else
        && t'.rows == e
        && Volume(t'.trades, market) == Volume(t.trades, market)
        && Matches(t'.trades, market) == Matches(t.trades, market)
  }

  lemma TickOnBook(t: Table, tick: TickInput, market: Market)
    returns (trades: bool, e: seq<Order>, b: nat, a: nat, fill: int)
    requires TableOk(t.rows) && TickEnabled(t.rows, tick) && Unexpired(t.rows, market, tick)
    ensures trades == (tick.market == market && TickTrades(t.rows, tick))
    ensures BookStep(t, Tick(t, tick), market, trades, e, b, a, fill) && TableOk(e)
  {
    hide Decide, Tick, Expire, TextLess, IsBest, FillRow, Volume, Matches, WellFormed, ShouldFinalize;
    PicksInRange(t.rows, tick);
    var rows := Expire(t.rows, tick.at);
    TickEffect(t, tick);
    TickKeepsTable(t, tick);
    ExpiryKeepsBook(t.rows, market, tick);
    ExpireKeepsTable(t.rows, tick.at);
    trades := tick.market == market && TickTrades(t.rows, tick);
    e, b, a, fill := Tick(t, tick).rows, 0, 0, 0;
    if TickTrades(t.rows, tick) {
      var c := TickClaim(t.rows, tick);
      var trade := Tick(t, tick).trades[|t.trades|];
      TradeCounts(t.trades, trade, market);
      b, a, fill := tick.bid.value, tick.ask.value, Decide(c).fill;
      if tick.market == market {
        e := rows;
        SubmitMeansCrossed(c);
        CrossesMeansBidAtAsk(rows[b], rows[a]);
      } else {
        OtherMarketFilled(rows, c.t, c.m, fill, market);
        SameBookIsTransitive(t.rows, rows, e, market);
      }
    }
  }

  lemma SubmitMeansCrossed(c: Claim)
    requires Decide(c).Submit?
    ensures Crosses(c.taker, c.maker)
  {
  }

  lemma TradeCounts(trades: seq<Trade>, trade: Trade, market: Market)
    ensures Volume(trades + [trade], market) == Volume(trades, market) + if trade.market == market then trade.size else 0
    ensures Matches(trades + [trade], market) == Matches(trades, market) + if trade.market == market then 1 else 0
  {
    assert (trades + [trade])[..|trades|] == trades;
  }

  lemma OtherMarketFilled(rows: seq<Order>, t: nat, m: nat, fill: int, market: Market)
    requires t < |rows| && m < |rows| && rows[t].market != market && rows[m].market != market
    ensures SameBook(rows, rows[t := FillRow(rows[t], fill)][m := FillRow(rows[m], fill)], market)
  {
  }

  lemma SameBookIsTransitive(rows: seq<Order>, rows1: seq<Order>, rows2: seq<Order>, market: Market)
    requires SameBook(rows, rows1, market) && SameBook(rows1, rows2, market)
    ensures SameBook(rows, rows2, market)
  {
  }

  /** A tick of a crossed, tradable market always trades. */
  lemma CrossedBookTrades(t: Table, tick: TickInput, market: Market)
    requires TableOk(t.rows) && TickEnabled(t.rows, tick) && Calm(t.rows, market, tick) && tick.market == market
    requires Tradable(t.rows, market)
    ensures TickTrades(t.rows, tick) <==> !Uncrossed(t.rows, market)
  {
    hide TextLess, ComputeExecutionUnits, SignedAlike, ShouldFinalize, Expire, WellFormed;
    var rows := Expire(t.rows, tick.at);
    ExpiryKeepsBook(t.rows, market, tick);
    ExpireKeepsTable(t.rows, tick.at);
    SameBookSameConditions(t.rows, rows, market, []);
    if !Uncrossed(rows, market) {
      var i, j :| 0 <= i < |rows| && 0 <= j < |rows| && Eligible(rows[i], market, Buy) && Eligible(rows[j], market, Sell)
                  && rows[i].ticks >= rows[j].ticks;
      var b, a := tick.bid.value, tick.ask.value;
      NoMissedCross(rows, market, b, a, i, j);
      CrossesMeansBidAtAsk(rows[b], rows[a]);
      BestPairIsSubmitted(rows, market, tick.at, b, a);
    } else if tick.bid.Some? && tick.ask.Some? {
      CrossesMeansBidAtAsk(rows[tick.bid.value], rows[tick.ask.value]);
    }
  }

  lemma BestPairIsSubmitted(rows: seq<Order>, market: Market, at: int, b: nat, a: nat)
    requires TableOk(rows) && Tradable(rows, market) && b < |rows| && a < |rows|
    requires Eligible(rows[b], market, Buy) && Eligible(rows[a], market, Sell) && rows[b].ticks >= rows[a].ticks
    requires !IsExpired(rows[b], at) && !IsExpired(rows[a], at)
    ensures Decide(ClaimOf(rows, at, b, a, 0)).Submit?
  {
    hide TextLess, ComputeExecutionUnits, SignedAlike;
    var c := ClaimOf(rows, at, b, a, 0);
    CrossesMeansBidAtAsk(rows[b], rows[a]);
    CrossingPairConverts(c.taker, c.maker);
  }

  // ----- Depth is never negative, and comes from somewhere

  lemma {:induction false} DepthHasSource(rows: seq<Order>, market: Market, side: Side, p: int)
    ensures Depth(rows, market, side, p) >= 0
    ensures Depth(rows, market, side, p) > 0 ==>
      exists i | 0 <= i < |rows| :: Eligible(rows[i], market, side) && Accepts(rows[i].ticks, side, p)
    decreases |rows|
  {
    if rows != [] {
      var n := |rows| - 1;
      DepthHasSource(rows[..n], market, side, p);
      if Depth(rows[..n], market, side, p) > 0 {
        var i :| 0 <= i < n && Eligible(rows[..n][i], market, side) && Accepts(rows[..n][i].ticks, side, p);
        assert rows[i] == rows[..n][i];
      }
    }
  }

  lemma UncrossedHasNoOverlap(rows: seq<Order>, market: Market, p: int)
    requires Uncrossed(rows, market)
    ensures Min(Depth(rows, market, Buy, p), Depth(rows, market, Sell, p)) <= 0
  {
    hide Depth;
    DepthHasSource(rows, market, Buy, p);
    DepthHasSource(rows, market, Sell, p);
  }

  /** Beyond the best price of a side there is no depth. */
  lemma NoDepthBeyondBest(rows: seq<Order>, market: Market, b: nat, a: nat, p: int)
    requires IsBest(rows, b, market, Buy) && IsBest(rows, a, market, Sell)
    ensures p > rows[b].ticks ==> Depth(rows, market, Buy, p) == 0
    ensures p < rows[a].ticks ==> Depth(rows, market, Sell, p) == 0
  {
    hide Depth;
    DepthHasSource(rows, market, Buy, p);
    DepthHasSource(rows, market, Sell, p);
    assert forall i | 0 <= i < |rows| && Eligible(rows[i], market, Buy) :: !Better(rows[i], rows[b]);
    assert forall i | 0 <= i < |rows| && Eligible(rows[i], market, Sell) :: !Better(rows[i], rows[a]);
  }

  // ----- The cleared volume

  /** v is the most that one price could clear: no price clears more, and some price clears v. */
  ghost predicate IsMaximalVolume(rows: seq<Order>, market: Market, v: int) {
    && (forall p: int :: Min(Depth(rows, market, Buy, p), Depth(rows, market, Sell, p)) <= v)
    && exists p: int :: v == Min(Depth(rows, market, Buy, p), Depth(rows, market, Sell, p))
  }

  lemma MaximalVolumeOfUncrossed(rows: seq<Order>, market: Market)
    requires Uncrossed(rows, market)
    ensures IsMaximalVolume(rows, market, 0)
  {
    hide Depth;
    forall p: int
      ensures Min(Depth(rows, market, Buy, p), Depth(rows, market, Sell, p)) == 0
    {
      UncrossedHasNoOverlap(rows, market, p);
      DepthHasSource(rows, market, Buy, p);
      DepthHasSource(rows, market, Sell, p);
    }
    assert 0 == Min(Depth(rows, market, Buy, 0), Depth(rows, market, Sell, 0));
  }

  lemma MaximalVolumeOfSameBook(rows: seq<Order>, rows': seq<Order>, market: Market, v: int)
    requires SameBook(rows, rows', market) && IsMaximalVolume(rows', market, v)
    ensures IsMaximalVolume(rows, market, v)
  {
    hide Depth;
    forall p: int, side: Side
      ensures Depth(rows', market, side, p) == Depth(rows, market, side, p)
    {
      SameBookSameDepth(rows, rows', market, side, p);
    }
    var p :| v == Min(Depth(rows', market, Buy, p), Depth(rows', market, Sell, p));
    assert v == Min(Depth(rows, market, Buy, p), Depth(rows, market, Sell, p));
  }

  /** What the filled pair clears adds to what the rest can clear. */
  lemma MaximalVolumeOfFilled(rows: seq<Order>, rows': seq<Order>, market: Market, b: nat, a: nat, fill: int, v: int)
    requires TableOk(rows) && PairFilled(rows, rows', market, b, a, fill) && IsMaximalVolume(rows', market, v)
    ensures IsMaximalVolume(rows, market, v + fill)
  {
    hide Depth, FillRow;
    forall p: int
      ensures Depth(rows', market, Buy, p) == Depth(rows, market, Buy, p) - if rows[b].ticks >= p then fill else 0
      ensures Depth(rows', market, Sell, p) == Depth(rows, market, Sell, p) - if rows[a].ticks <= p then fill else 0
      ensures Min(Depth(rows, market, Buy, p), Depth(rows, market, Sell, p)) <= v + fill
      ensures Depth(rows', market, Buy, p) >= 0 && Depth(rows', market, Sell, p) >= 0
    {
      PairFilledDepth(rows, rows', market, b, a, fill, p);
      NoDepthBeyondBest(rows, market, b, a, p);
      DepthHasSource(rows', market, Buy, p);
      DepthHasSource(rows', market, Sell, p);
    }
    var p :| v == Min(Depth(rows', market, Buy, p), Depth(rows', market, Sell, p));
    var q := if v > 0 then p else rows[b].ticks;
    if v > 0 {
      NoDepthBeyondBest(rows, market, b, a, p);
    }
    assert v + fill == Min(Depth(rows, market, Buy, q), Depth(rows, market, Sell, q));
  }

  lemma {:induction false} SessionClears(t: Table, ticks: seq<TickInput>, market: Market)
    requires TableOk(t.rows) && Session(t, ticks) && Tradable(t.rows, market) && CalmThroughout(t.rows, market, ticks)
    requires Uncrossed(After(t, ticks).rows, market)
    ensures IsMaximalVolume(t.rows, market, Volume(After(t, ticks).trades, market) - Volume(t.trades, market))
    decreases |ticks|
  {
    hide TableOk, Tick, TickEnabled, Unexpired, IsMaximalVolume, Tradable, Volume, Uncrossed, SameBook, PairFilled, TickTrades;
    if ticks == [] {
      MaximalVolumeOfUncrossed(t.rows, market);
    } else {
      PicksInRange(t.rows, ticks[0]);
      var t' := Tick(t, ticks[0]);
      var trades, e, b, a, fill := TickOnBook(t, ticks[0], market);
      TickCarriesOn(t, ticks, market, trades, e, b, a, fill);
      SessionClears(t', ticks[1..], market);
      var v := Volume(After(t, ticks).trades, market) - Volume(t'.trades, market);
      if trades {
        MaximalVolumeOfFilled(e, t'.rows, market, b, a, fill, v);
        MaximalVolumeOfSameBook(t.rows, e, market, v + fill);
      } else {
        MaximalVolumeOfSameBook(t.rows, e, market, v);
      }
    }
  }

  /** The conditions of a session outlast its first tick. */
  lemma TickCarriesOn(t: Table, ticks: seq<TickInput>, market: Market, trades: bool, e: seq<Order>, b: nat, a: nat, fill: int)
    requires TableOk(t.rows) && Session(t, ticks) && ticks != []
    requires Tradable(t.rows, market) && CalmThroughout(t.rows, market, ticks)
    requires BookStep(t, Tick(t, ticks[0]), market, trades, e, b, a, fill)
    ensures var t' := Tick(t, ticks[0]);
      && TableOk(t'.rows) && Session(t', ticks[1..])
      && Tradable(t'.rows, market) && CalmThroughout(t'.rows, market, ticks[1..])
      && Tradable(e, market)
  {
    hide TableOk, Tick, TickEnabled, Calm, Tradable, Volume, SameBook, PairFilled;
    PicksInRange(t.rows, ticks[0]);
    TickKeepsTable(t, ticks[0]);
    SameBookSameConditions(t.rows, e, market, ticks[1..]);
    if trades {
      PairFilledConditions(e, Tick(t, ticks[0]).rows, market, b, a, fill, ticks[1..]);
    }
  }

  // ----- Termination

  function TicksOn(ticks: seq<TickInput>, market: Market): nat {
    if ticks == [] then 0 else (if ticks[0].market == market then 1 else 0) + TicksOn(ticks[1..], market)
  }

  lemma {:induction false} TwoInBook(rows: seq<Order>, market: Market, i: nat, j: nat)
    requires i < j < |rows| && InBook(rows[i], market) && InBook(rows[j], market)
    ensures BookSize(rows, market) >= 2
    decreases |rows|
  {
    var n := |rows| - 1;
    if j < n {
      TwoInBook(rows[..n], market, i, j);
    } else {
      OneInBook(rows[..n], market, i);
    }
  }

  lemma {:induction false} OneInBook(rows: seq<Order>, market: Market, i: nat)
    requires i < |rows| && InBook(rows[i], market)
    ensures BookSize(rows, market) >= 1
    decreases |rows|
  {
    if i < |rows| - 1 {
      OneInBook(rows[..|rows| - 1], market, i);
    }
  }

  lemma CrossedNeedsTwo(rows: seq<Order>, market: Market)
    requires !Uncrossed(rows, market)
    ensures BookSize(rows, market) >= 2
  {
    hide BookSize;
    var i, j :| 0 <= i < |rows| && 0 <= j < |rows| && Eligible(rows[i], market, Buy) && Eligible(rows[j], market, Sell);
    if i < j {
      TwoInBook(rows, market, i, j);
    } else {
      TwoInBook(rows, market, j, i);
    }
  }

  /**
   With n active orders, n - 1 ticks of the market are enough to uncross it, and no session of any length
   makes more than n - 1 matches in it.
   */
  lemma {:induction false} SessionTerminates(t: Table, ticks: seq<TickInput>, market: Market)
    requires TableOk(t.rows) && Session(t, ticks) && Tradable(t.rows, market) && CalmThroughout(t.rows, market, ticks)
    ensures var n, done := BookSize(t.rows, market), After(t, ticks);
      && (Uncrossed(t.rows, market) || TicksOn(ticks, market) >= n - 1 ==> Uncrossed(done.rows, market))
      && Matches(done.trades, market) - Matches(t.trades, market) <= (if n == 0 then 0 else n - 1)
    decreases |ticks|
  {
    hide TableOk, Tick, TickEnabled, Tradable, Volume, Matches, Uncrossed, SameBook, PairFilled, BookSize, TickTrades;
    if !Uncrossed(t.rows, market) {
      CrossedNeedsTwo(t.rows, market);
    }
    if ticks != [] {
      PicksInRange(t.rows, ticks[0]);
      var t' := Tick(t, ticks[0]);
      var trades, e, b, a, fill := TickOnBook(t, ticks[0], market);
      TickCarriesOn(t, ticks, market, trades, e, b, a, fill);
      SessionTerminates(t', ticks[1..], market);
      SameBookSameDepth(t.rows, e, market, Buy, 0);
      SameBookSameConditions(t.rows, e, market, []);
      if ticks[0].market == market {
        assert Calm(t.rows, market, ticks[0]);
        CrossedBookTrades(t, ticks[0], market);
      }
      if trades {
        FilledShrinks(e, t'.rows, market, b, a, fill);
      }
    }
  }

  lemma FilledShrinks(rows: seq<Order>, rows': seq<Order>, market: Market, b: nat, a: nat, fill: int)
    requires PairFilled(rows, rows', market, b, a, fill)
    ensures BookSize(rows', market) < BookSize(rows, market)
  {
    hide FillRow;
    RemainingInRange(rows[b]);
    RemainingInRange(rows[a]);
    PairFilledDepth(rows, rows', market, b, a, fill, 0);
  }

  lemma RemainingInRange(o: Order)
    ensures Remaining(o) > 0 ==> o.filled <= o.desired
  {
  }

  // ----- The two together

  /**
   Enough undisturbed ticks of a market leave it uncrossed and trade exactly the maximum over all prices p
   of the smaller of the bid quantity at p or higher and the ask quantity at p or lower.
   */
  lemma EnoughTicksClearTheMarket(t: Table, ticks: seq<TickInput>, market: Market)
    requires TableOk(t.rows) && Session(t, ticks) && Tradable(t.rows, market) && CalmThroughout(t.rows, market, ticks)
    requires TicksOn(ticks, market) + 1 >= BookSize(t.rows, market)
    ensures Uncrossed(After(t, ticks).rows, market)
    ensures IsMaximalVolume(t.rows, market, Volume(After(t, ticks).trades, market) - Volume(t.trades, market))
  {
    hide TableOk, Session, After, Tradable, CalmThroughout, Volume, Uncrossed, BookSize, IsMaximalVolume;
    SessionTerminates(t, ticks, market);
    SessionClears(t, ticks, market);
  }

  // ----- Any session, calm or not

  /** Rows keep their terms, and no row becomes active. */
  ghost predicate NoneActivated(rows: seq<Order>, rows': seq<Order>) {
    && |rows'| == |rows|
    && forall i | 0 <= i < |rows| :: SameTerms(rows[i], rows'[i]) && (rows'[i].status == Active ==> rows[i].status == Active)
  }

  lemma ExpiryActivatesNone(rows: seq<Order>, now: int)
    ensures NoneActivated(rows, Expire(rows, now))
  {
  }

  /** What is active after a tick was active, and not expired, when it made its picks. */
  lemma TickActivatesNone(t: Table, tick: TickInput)
    requires TableOk(t.rows) && TickEnabled(t.rows, tick)
    ensures NoneActivated(Expire(t.rows, tick.at), Tick(t, tick).rows)
  {
    hide Decide, Tick, Expire, TextLess, IsBest, WellFormed, Better;
    PicksInRange(t.rows, tick);
    TickEffect(t, tick);
  }

  /** Whatever expires, is refused or stalls: a row active after a session was active before it, on the same terms. */
  lemma {:induction false} NoNewActiveOrders(t: Table, ticks: seq<TickInput>)
    requires TableOk(t.rows) && Session(t, ticks)
    ensures NoneActivated(t.rows, After(t, ticks).rows)
    decreases |ticks|
  {
    hide TableOk, Tick, TickEnabled, Expire;
    if ticks != [] {
      PicksInRange(t.rows, ticks[0]);
      TickKeepsTable(t, ticks[0]);
      ExpiryActivatesNone(t.rows, ticks[0].at);
      TickActivatesNone(t, ticks[0]);
      NoNewActiveOrders(Tick(t, ticks[0]), ticks[1..]);
    }
  }

  /** A session is its beginning, and the rest from where that leads. */
  lemma {:induction false} SessionSplits(t: Table, ticks: seq<TickInput>, k: nat)
    requires TableOk(t.rows) && Session(t, ticks) && k <= |ticks|
    ensures Session(t, ticks[..k]) && TableOk(After(t, ticks[..k]).rows)
    ensures Session(After(t, ticks[..k]), ticks[k..])
    ensures After(t, ticks) == After(After(t, ticks[..k]), ticks[k..])
    decreases k
  {
    hide TableOk, Tick, TickEnabled;
    if k == 0 {
      assert ticks[0..] == ticks;
    } else {
      PicksInRange(t.rows, ticks[0]);
      TickKeepsTable(t, ticks[0]);
      SessionSplits(Tick(t, ticks[0]), ticks[1..], k - 1);
      assert ticks[..k][0] == ticks[0] && ticks[..k][1..] == ticks[1..][..k - 1];
      assert ticks[1..][k - 1..] == ticks[k..];
    }
  }

  /** The rows on which tick k of a session makes its picks. */
  ghost function RowsAt(t: Table, ticks: seq<TickInput>, k: nat): seq<Order>
    requires TableOk(t.rows) && Session(t, ticks) && k < |ticks|
  {
    SessionSplits(t, ticks, k);
    Expire(After(t, ticks[..k]).rows, ticks[k].at)
  }

  lemma PicksOfSession(t: Table, ticks: seq<TickInput>, k: nat)
    requires TableOk(t.rows) && Session(t, ticks) && k < |ticks|
    ensures IsPick(RowsAt(t, ticks, k), ticks[k].bid, ticks[k].market, Buy)
    ensures IsPick(RowsAt(t, ticks, k), ticks[k].ask, ticks[k].market, Sell)
  {
    SessionSplits(t, ticks, k);
    assert ticks[k..][0] == ticks[k];
  }

  /**
   Matched prices only retreat. Of two ticks of one market in any session, the later one picks no bid
   above the earlier one's and no ask below it.
   */
  lemma MatchedPricesRetreat(t: Table, ticks: seq<TickInput>, i: nat, j: nat)
    requires TableOk(t.rows) && Session(t, ticks) && i < j < |ticks| && ticks[i].market == ticks[j].market
    ensures var first, later := RowsAt(t, ticks, i), RowsAt(t, ticks, j);
      && |first| == |later|
      && (ticks[j].bid.Some? ==>
            && ticks[i].bid.Some? && ticks[i].bid.value < |first| && ticks[j].bid.value < |later|
            && later[ticks[j].bid.value].ticks <= first[ticks[i].bid.value].ticks)
      && (ticks[j].ask.Some? ==>
            && ticks[i].ask.Some? && ticks[i].ask.value < |first| && ticks[j].ask.value < |later|
            && later[ticks[j].ask.value].ticks >= first[ticks[i].ask.value].ticks)
  {
    hide TableOk, Session, After, Expire, Tick, RowsAt;
    PicksOfSession(t, ticks, i);
    PicksOfSession(t, ticks, j);
    NoneActivatedBetween(t, ticks, i, j);
  }

  lemma NoneActivatedBetween(t: Table, ticks: seq<TickInput>, i: nat, j: nat)
    requires TableOk(t.rows) && Session(t, ticks) && i < j < |ticks|
    ensures NoneActivated(RowsAt(t, ticks, i), RowsAt(t, ticks, j))
  {
    hide TableOk, Expire, Tick, NoneActivated, TickEnabled;
    SessionSplits(t, ticks, i);
    var at, rest := After(t, ticks[..i]), ticks[i..];
    PicksInRange(at.rows, rest[0]);
    TickActivatesNone(at, rest[0]);
    TickKeepsTable(at, rest[0]);
    SessionSplits(Tick(at, rest[0]), rest[1..], j - i - 1);
    NoNewActiveOrders(Tick(at, rest[0]), rest[1..][..j - i - 1]);
    AfterPrefix(t, ticks, i, j);
    ExpiryActivatesNone(After(t, ticks[..j]).rows, ticks[j].at);
    NoneActivatedIsTransitive(RowsAt(t, ticks, i), Tick(at, rest[0]).rows, After(t, ticks[..j]).rows);
    NoneActivatedIsTransitive(RowsAt(t, ticks, i), After(t, ticks[..j]).rows, RowsAt(t, ticks, j));
  }

  lemma AfterPrefix(t: Table, ticks: seq<TickInput>, i: nat, j: nat)
    requires TableOk(t.rows) && Session(t, ticks) && i < j <= |ticks|
    ensures Session(t, ticks[..i]) && Session(t, ticks[..j]) && Session(After(t, ticks[..i]), ticks[i..j])
    ensures After(t, ticks[..j]) == After(After(t, ticks[..i]), ticks[i..j])
    ensures ticks[i..j][0] == ticks[i] && ticks[i..j][1..] == ticks[i..][1..][..j - i - 1]
  {
    hide TableOk, Session, After;
    SessionSplits(t, ticks, j);
    SessionSplits(t, ticks[..j], i);
    assert ticks[..j][..i] == ticks[..i] && ticks[..j][i..] == ticks[i..j];
  }

  lemma NoneActivatedIsTransitive(rows: seq<Order>, rows1: seq<Order>, rows2: seq<Order>)
    requires NoneActivated(rows, rows1) && NoneActivated(rows1, rows2)
    ensures NoneActivated(rows, rows2)
  {
    forall i | 0 <= i < |rows|
      ensures SameTerms(rows[i], rows2[i])
    {
      assert SameTerms(rows[i], rows1[i]) && SameTerms(rows1[i], rows2[i]);
    }
  }

  // ----- Markets that stand still

  /** No pair of heads could trade: they do not cross, or one is complete, or they are not signed alike. */
  ghost predicate Stalled(rows: seq<Order>, market: Market) {
    forall b, a | 0 <= b < |rows| && 0 <= a < |rows| && IsBest(rows, b, market, Buy) && IsBest(rows, a, market, Sell) ::
      !(rows[b].ticks >= rows[a].ticks && rows[b].filled < rows[b].desired && rows[a].filled < rows[a].desired
        && SignaturesAgree(rows[b], rows[a]))
  }

  lemma SameBookSameHeads(rows: seq<Order>, rows': seq<Order>, market: Market, i: nat, side: Side)
    requires SameBook(rows, rows', market)
    ensures IsBest(rows', i, market, side) <==> IsBest(rows, i, market, side)
    ensures IsBest(rows, i, market, side) ==> i < |rows| && rows'[i] == rows[i]
  {
    hide Better;
    assert forall j | 0 <= j < |rows| :: Eligible(rows'[j], market, side) <==> Eligible(rows[j], market, side);
  }

  lemma SameBookSameStall(rows: seq<Order>, rows': seq<Order>, market: Market)
    requires SameBook(rows, rows', market) && Stalled(rows, market)
    ensures Stalled(rows', market)
  {
    hide IsBest, SignaturesAgree;
    forall i: nat, side
      ensures IsBest(rows', i, market, side) <==> IsBest(rows, i, market, side)
      ensures IsBest(rows, i, market, side) ==> i < |rows| && rows'[i] == rows[i]
    {
      SameBookSameHeads(rows, rows', market, i, side);
    }
  }

  /** The tick may run on these rows, and trades. */
  ghost predicate RunsAndTrades(rows: seq<Order>, tick: TickInput) {
    && TickEnabled(rows, tick)
    && (tick.bid.Some? ==> tick.bid.value < |rows|) && (tick.ask.Some? ==> tick.ask.value < |rows|)
    && TickTrades(rows, tick)
  }

  lemma StalledNeverTrades(rows: seq<Order>, tick: TickInput, market: Market)
    requires TableOk(rows) && TickEnabled(rows, tick) && Unexpired(rows, market, tick) && tick.market == market
    requires Stalled(rows, market)
    ensures !RunsAndTrades(rows, tick)
  {
    hide SignaturesAgree, Decide, Expire, IsBest;
    PicksInRange(rows, tick);
    ExpiryKeepsBook(rows, market, tick);
    SameBookSameStall(rows, Expire(rows, tick.at), market);
    if tick.bid.Some? && tick.ask.Some? {
      TickTradesExactly(Table(rows, []), tick);
    }
  }

  lemma UnstalledTrades(rows: seq<Order>, market: Market, at: int) returns (tick: TickInput)
    requires TableOk(rows) && !Stalled(rows, market)
    requires forall i | 0 <= i < |rows| && InBook(rows[i], market) :: !IsExpired(rows[i], at)
    ensures tick.market == market && tick.at == at && RunsAndTrades(rows, tick)
  {
    hide SignaturesAgree, Decide, Expire, IsBest;
    var b, a :| 0 <= b < |rows| && 0 <= a < |rows| && IsBest(rows, b, market, Buy) && IsBest(rows, a, market, Sell)
                && rows[b].ticks >= rows[a].ticks && rows[b].filled < rows[b].desired && rows[a].filled < rows[a].desired
                && SignaturesAgree(rows[b], rows[a]);
    tick := TickInput(market, at, Some(b), Some(a), Accepted, Stamp(1, at));
    ExpiryKeepsBook(rows, market, tick);
    SameBookSameHeads(rows, Expire(rows, at), market, b, Buy);
    SameBookSameHeads(rows, Expire(rows, at), market, a, Sell);
    TickTradesExactly(Table(rows, []), tick);
  }

  /** A market is stalled exactly when none of its possible ticks trades, whatever heads it picks and however the executor answers. */
  lemma StalledExactly(rows: seq<Order>, market: Market, at: int)
    requires TableOk(rows)
    requires forall i | 0 <= i < |rows| && InBook(rows[i], market) :: !IsExpired(rows[i], at)
    ensures Stalled(rows, market) <==> !exists tick: TickInput :: tick.market == market && tick.at == at && RunsAndTrades(rows, tick)
  {
    hide Stalled, TickTrades, TickEnabled, TableOk;
    if Stalled(rows, market) {
      forall tick: TickInput | tick.market == market && tick.at == at
        ensures !RunsAndTrades(rows, tick)
      {
        if TickEnabled(rows, tick) {
          StalledNeverTrades(rows, tick, market);
        }
      }
    } else {
      var tick := UnstalledTrades(rows, market, at);
    }
  }

  lemma TradesElsewhere(t: Table, tick: TickInput, market: Market)
    requires TableOk(t.rows) && TickEnabled(t.rows, tick)
    ensures tick.bid.Some? ==> tick.bid.value < |t.rows|
    ensures tick.ask.Some? ==> tick.ask.value < |t.rows|
    ensures tick.market != market || !TickTrades(t.rows, tick) ==>
      t.trades <= Tick(t, tick).trades && forall k | |t.trades| <= k < |Tick(t, tick).trades| :: Tick(t, tick).trades[k].market != market
  {
    hide Decide, Tick, Expire, TextLess, IsBest, FillRow, WellFormed;
    PicksInRange(t.rows, tick);
    TickEffect(t, tick);
  }

  /**
   A stall is forever. As long as none of its orders expires, every session, of whatever length, ticks and
   answers, leaves the book of a stalled market as it was and records no trade in it.
   */
  lemma {:induction false} StallIsForever(t: Table, ticks: seq<TickInput>, market: Market)
    requires TableOk(t.rows) && Session(t, ticks) && Stalled(t.rows, market)
    requires forall k | 0 <= k < |ticks| :: Unexpired(t.rows, market, ticks[k])
    ensures var done := After(t, ticks);
      && SameBook(t.rows, done.rows, market) && t.trades <= done.trades
      && forall k | |t.trades| <= k < |done.trades| :: done.trades[k].market != market
    decreases |ticks|
  {
    hide TableOk, Tick, TickEnabled, SameBook, PairFilled, Stalled, TickTrades, Unexpired, Volume, Matches;
    if ticks == [] {
      SameBookIsReflexive(t.rows, market);
    } else {
      PicksInRange(t.rows, ticks[0]);
      var t' := Tick(t, ticks[0]);
      if ticks[0].market == market {
        StalledNeverTrades(t.rows, ticks[0], market);
      }
      var trades, e, b, a, fill := TickOnBook(t, ticks[0], market);
      TradesElsewhere(t, ticks[0], market);
      TickKeepsTable(t, ticks[0]);
      SameBookSameStall(t.rows, t'.rows, market);
      forall k | 0 <= k < |ticks[1..]|
        ensures Unexpired(t'.rows, market, ticks[1..][k])
      {
        SameBookStaysUnexpired(t.rows, t'.rows, market, ticks[k + 1]);
      }
      StallIsForever(t', ticks[1..], market);
      SameBookIsTransitive(t.rows, t'.rows, After(t, ticks).rows, market);
    }
  }

  lemma SameBookIsReflexive(rows: seq<Order>, market: Market)
    ensures SameBook(rows, rows, market)
  {
  }

  lemma SameBookStaysUnexpired(rows: seq<Order>, rows': seq<Order>, market: Market, tick: TickInput)
    requires SameBook(rows, rows', market) && Unexpired(rows, market, tick)
    ensures Unexpired(rows', market, tick)
  {
  }
}
