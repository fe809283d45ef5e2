/**
 One tick of the matcher for one market, run without interruption (tickInstrument in
 internal/matching/engine.go).
 */
module Engine {
  import opened Wrappers
  import opened Orders
  import opened Tables
  import opened ExecutionUnits
  import opened Protocol
  import opened Safety
  import opened Repository

  /** What a tick is given: market, clock, the rows the database picked, the executor's answer, the trade's stamp. */
  datatype TickInput = TickInput(market: Market, at: int, bid: Option<nat>, ask: Option<nat>, reply: Reply, stamp: Stamp)

  ghost predicate TickEnabled(rows: seq<Order>, tick: TickInput) {
    && IsPick(Expire(rows, tick.at), tick.bid, tick.market, Buy)
    && IsPick(Expire(rows, tick.at), tick.ask, tick.market, Sell)
  }

  /** The tables after a tick. A failed match is released twice, a dropped one once. */
  function Tick(t: Table, tick: TickInput): Table
    requires tick.bid.Some? ==> tick.bid.value < |t.rows|
    requires tick.ask.Some? ==> tick.ask.value < |t.rows|
  {
    var expired := Expire(t.rows, tick.at);
    if tick.bid.None? || tick.ask.None? then Table(expired, t.trades)
    else
      var c := ClaimOf(expired, tick.at, tick.bid.value, tick.ask.value, 0);
      var reserved := Reserve(expired, ClaimIds(c));
      var releasedOnce := Release(reserved, ClaimIds(c));
      var releasedTwice := Release(releasedOnce, ClaimIds(c));
      match Decide(c)
      case Drop => Table(releasedOnce, t.trades)
      case Reject => Table(releasedTwice, t.trades)
      case Submit(fill, units) =>
        if ShouldFinalize(tick.reply) then
          match Finalize(Table(reserved, t.trades), c.taker.id, c.maker.id, c.maker.limitPrice, fill, tick.stamp)
          case Ok(done) => done
          case Err(_) => Table(releasedOnce, t.trades)
        else Table(releasedTwice, t.trades)
  }

  /** The claim that a tick with both picks makes. */
  function TickClaim(rows: seq<Order>, tick: TickInput): Claim
    requires tick.bid.Some? && tick.ask.Some? && tick.bid.value < |rows| && tick.ask.value < |rows|
  {
    ClaimOf(Expire(rows, tick.at), tick.at, tick.bid.value, tick.ask.value, 0)
  }

  /** What the executor is sent, if anything. */
  function SubmittedUnits(rows: seq<Order>, tick: TickInput): Option<Units>
    requires tick.bid.Some? ==> tick.bid.value < |rows|
    requires tick.ask.Some? ==> tick.ask.value < |rows|
  {
    if tick.bid.Some? && tick.ask.Some? && Decide(TickClaim(rows, tick)).Submit? then
      Some(Decide(TickClaim(rows, tick)).units)
    else None
  }

  /** The tick as the engine runs it: a release flag decides, on every way out, whether the pair is given back. */
  method TickInstrument(table: OrderTable, market: Market, now: int, reply: Reply, stamp: Stamp)
    returns (submitted: Option<Units>, bid: Option<nat>, ask: Option<nat>)
    requires UniqueKeys(table.rows)
    modifies table
    ensures var tick := TickInput(market, now, bid, ask, reply, stamp);
      && TickEnabled(old(table.rows), tick)
      && table.Value() == Tick(old(table.Value()), tick)
      && submitted == SubmittedUnits(old(table.rows), tick)
    ensures reply == Failed ==> table.trades == old(table.trades)
  {
    hide ComputeExecutionUnits, TextLess, Finalize, Move;
    submitted := None;
    var candidate;
    candidate, bid, ask := table.AcquireMatchCandidate(market, now);
    if candidate.None? {
      return;
    }
    var taker, maker := candidate.value.taker, candidate.value.maker;
    var ids := {taker.id, maker.id};
    var release := true;
    label matching: {
      if IsExpired(taker, now) || IsExpired(maker, now) {
        break matching;
      }
      if !Crosses(taker, maker) {
        break matching;
      }
      var fillPrice, logPrice := maker.ticks, maker.limitPrice;
      var fillAmount := Min(Remaining(taker), Remaining(maker));
      if fillAmount == 0 {
        break matching;
      }
      var execution := ComputeExecutionUnits(taker, maker, fillPrice, fillAmount);
      if execution.Err? {
        table.ReleaseMatch(ids);
        break matching;
      }
      submitted := Some(execution.value);
      if !ShouldFinalize(reply) {
        table.ReleaseMatch(ids);
        break matching;
      }
      var ok := table.FinalizeMatchWithPrice(taker.id, maker.id, logPrice, fillAmount, stamp);
      if !ok {
        break matching;
      }
      release := false;
    }
    if release {
      table.ReleaseMatch(ids);
    }
  }

  // ----- What a tick amounts to

  ghost predicate TableOk(rows: seq<Order>) {
    UniqueKeys(rows) && forall i | 0 <= i < |rows| :: WellFormed(rows[i])
  }

  /** Giving back what was just reserved restores the rows. */
  lemma ReleaseUndoesReserve(rows: seq<Order>, t: nat, m: nat)
    requires UniqueKeys(rows) && t < |rows| && m < |rows|
    requires rows[t].status == Active && rows[m].status == Active
    ensures var ids := {rows[t].id, rows[m].id};
      Release(Reserve(rows, ids), ids) == rows && Release(rows, ids) == rows
  {
    var ids := {rows[t].id, rows[m].id};
    var back := Release(Reserve(rows, ids), ids);
    forall i | 0 <= i < |rows|
      ensures back[i] == rows[i] && Release(rows, ids)[i] == rows[i]
    {
      assert rows[i].id in ids <==> i == t || i == m;
    }
  }

  /** The rows after a fill of the pair, as seen from the rows before the reservation. */
  lemma FinalizeReserved(rows: seq<Order>, trades: seq<Trade>, c: Claim, fill: int, units: Units, stamp: Stamp)
    requires TableOk(rows) && c.t < |rows| && c.m < |rows| && c.t != c.m
    requires c.taker == rows[c.t] && c.maker == rows[c.m]
    requires c.taker.status == Active && c.maker.status == Active
    requires Decide(c) == Submit(fill, units)
    ensures var done := Finalize(Table(Reserve(rows, ClaimIds(c)), trades), c.taker.id, c.maker.id, c.maker.limitPrice, fill, stamp);
      && done.Ok?
      && done.value.rows == rows[c.t := FillRow(rows[c.t], fill)][c.m := FillRow(rows[c.m], fill)]
      && done.value.trades == trades + [Trade(stamp.id, c.taker.market, c.maker.limitPrice, fill, c.taker.side,
                                              c.taker.id, c.maker.id, stamp.at)]
  {
    hide ComputeExecutionUnits, TextLess;
    var reserved := Reserve(rows, ClaimIds(c));
    forall i | 0 <= i < |rows|
      ensures reserved[i] == if i == c.t || i == c.m then rows[i].(status := Matching) else rows[i]
    {
      assert rows[i].id in ClaimIds(c) <==> i == c.t || i == c.m;
    }
    FillFits(c, fill, units);
    OnlyRow(reserved, c.taker.id, c.t);
    var rows1 := reserved[c.t := FillRow(reserved[c.t], fill)];
    assert Tables.ApplyFill(reserved, c.taker.id, fill) == Ok(rows1);
    OnlyRow(rows1, c.maker.id, c.m);
    assert rows1[c.m := FillRow(rows1[c.m], fill)]
        == rows[c.t := FillRow(rows[c.t], fill)][c.m := FillRow(rows[c.m], fill)];
  }

  lemma ExpireKeepsTable(rows: seq<Order>, now: int)
    requires TableOk(rows)
    ensures TableOk(Expire(rows, now))
  {
    forall i | 0 <= i < |rows|
      ensures WellFormed(Expire(rows, now)[i]) && SameTerms(rows[i], Expire(rows, now)[i])
    {
    }
  }

  /** The tick's pair is priced and the executor lets the fill be booked. */
  predicate TickTrades(rows: seq<Order>, tick: TickInput)
    requires tick.bid.Some? ==> tick.bid.value < |rows|
    requires tick.ask.Some? ==> tick.ask.value < |rows|
  {
    && tick.bid.Some? && tick.ask.Some?
    && Decide(TickClaim(rows, tick)).Submit?
    && ShouldFinalize(tick.reply)
  }

  /**
   Besides expiry, a tick does one of two things: nothing, or fill its pair by the smaller remainder and
   record one trade of that size.
   */
  lemma TickEffect(t: Table, tick: TickInput)
    requires TableOk(t.rows) && TickEnabled(t.rows, tick)
    ensures var rows := Expire(t.rows, tick.at);
      if TickTrades(t.rows, tick) then
        var c := TickClaim(t.rows, tick);
        var fill := Decide(c).fill;
        && c.taker == rows[c.t] && c.maker == rows[c.m] && {c.t, c.m} == {tick.bid.value, tick.ask.value}
        && fill == Min(Remaining(c.taker), Remaining(c.maker)) > 0
        && Tick(t, tick).rows == rows[c.t := FillRow(rows[c.t], fill)][c.m := FillRow(rows[c.m], fill)]
        && Tick(t, tick).trades == t.trades + [Trade(tick.stamp.id, tick.market, c.maker.limitPrice, fill, c.taker.side,
                                                     c.taker.id, c.maker.id, tick.stamp.at)]
      else Tick(t, tick) == Table(rows, t.trades)
  {
    hide ComputeExecutionUnits, TextLess, Finalize, Move, Decide, Expire;
    var rows := Expire(t.rows, tick.at);
    ExpireKeepsTable(t.rows, tick.at);
    if tick.bid.Some? && tick.ask.Some? {
      var c := TickClaim(t.rows, tick);
      CrossesMeansBidAtAsk(rows[tick.bid.value], rows[tick.ask.value]);
      ReleaseUndoesReserve(rows, c.t, c.m);
      if Decide(c).Submit? {
        FillFits(c, Decide(c).fill, Decide(c).units);
        FinalizeReserved(rows, t.trades, c, Decide(c).fill, Decide(c).units, tick.stamp);
      }
    }
  }

  /**
   Exactly when a tick that found both sides trades: the book crosses, both orders still want something,
   their signatures agree, and the executor allows it. An order already complete heads its side for
   nothing: it is never filled and never leaves.
   */
  lemma TickTradesExactly(t: Table, tick: TickInput)
    requires TableOk(t.rows) && TickEnabled(t.rows, tick) && tick.bid.Some? && tick.ask.Some?
    ensures var rows := Expire(t.rows, tick.at);
      var bid, ask := rows[tick.bid.value], rows[tick.ask.value];
      TickTrades(t.rows, tick) <==>
        && bid.ticks >= ask.ticks && bid.filled < bid.desired && ask.filled < ask.desired
        && SignaturesAgree(bid, ask) && (tick.reply == Accepted || tick.reply == FillLimitCrossed)
  {
    hide ComputeExecutionUnits, TextLess, SignaturesAgree;
    var rows := Expire(t.rows, tick.at);
    var bid, ask := rows[tick.bid.value], rows[tick.ask.value];
    ExpireKeepsTable(t.rows, tick.at);
    CrossesMeansBidAtAsk(bid, ask);
    AgreementIsMutual(bid, ask);
    var c := TickClaim(t.rows, tick);
    if Crosses(c.taker, c.maker) && Min(Remaining(c.taker), Remaining(c.maker)) > 0 {
      CrossingPairConverts(c.taker, c.maker);
    }
  }

  lemma AgreementIsMutual(a: Order, b: Order)
    ensures SignaturesAgree(a, b) <==> SignaturesAgree(b, a)
  {
    hide SignatureFits;
  }

  lemma PicksInRange(rows: seq<Order>, tick: TickInput)
    requires TickEnabled(rows, tick)
    ensures tick.bid.Some? ==> tick.bid.value < |rows| && Eligible(Expire(rows, tick.at)[tick.bid.value], tick.market, Buy)
    ensures tick.ask.Some? ==> tick.ask.value < |rows| && Eligible(Expire(rows, tick.at)[tick.ask.value], tick.market, Sell)
  {
  }

  /** A match that the executor failed books nothing: both orders are given back as they were. */
  lemma FailedReplyBooksNothing(t: Table, tick: TickInput)
    requires TableOk(t.rows) && TickEnabled(t.rows, tick) && tick.reply == Failed
    ensures tick.bid.Some? ==> tick.bid.value < |t.rows|
    ensures tick.ask.Some? ==> tick.ask.value < |t.rows|
    ensures Tick(t, tick).trades == t.trades && |Tick(t, tick).rows| == |t.rows|
    ensures forall i | 0 <= i < |t.rows| ::
      Tick(t, tick).rows[i] == if t.rows[i].status == Active && t.rows[i].expiry <= tick.at
                               then t.rows[i].(status := Expired) else t.rows[i]
  {
    hide TextLess, Tick, Decide, IsBest, Expire;
    PicksInRange(t.rows, tick);
    TickEffect(t, tick);
    forall i | 0 <= i < |t.rows|
      ensures Expire(t.rows, tick.at)[i]
           == if t.rows[i].status == Active && t.rows[i].expiry <= tick.at then t.rows[i].(status := Expired) else t.rows[i]
    {
      ExpiryMeaning(t.rows, tick.at, i);
    }
  }

  /**
   A match that was accepted, or that the contract reports as filled before, is booked whenever the pair could
   be submitted: both orders gain the smaller of what they had left, and one trade of that size is recorded.
   */
  lemma AnsweredMatchIsBooked(t: Table, tick: TickInput)
    requires TableOk(t.rows) && TickEnabled(t.rows, tick) && tick.bid.Some? && tick.ask.Some?
    requires tick.reply == Accepted || tick.reply == FillLimitCrossed
    ensures tick.bid.value < |t.rows| && tick.ask.value < |t.rows|
    ensures var bid, ask := t.rows[tick.bid.value], t.rows[tick.ask.value];
      bid.ticks >= ask.ticks && bid.filled < bid.desired && ask.filled < ask.desired && SignaturesAgree(bid, ask) ==>
        var left, right := bid.desired - bid.filled, ask.desired - ask.filled;
        var fill := if left <= right then left else right;
        && |Tick(t, tick).rows| == |t.rows|
        && Tick(t, tick).rows[tick.bid.value]
           == bid.(filled := bid.filled + fill, status := if fill == left then Filled else Active)
        && Tick(t, tick).rows[tick.ask.value]
           == ask.(filled := ask.filled + fill, status := if fill == right then Filled else Active)
        && |Tick(t, tick).trades| == |t.trades| + 1 && Tick(t, tick).trades[..|t.trades|] == t.trades
        && Tick(t, tick).trades[|t.trades|].size == fill
  {
    hide TextLess, SignaturesAgree, Tick, Decide, IsBest, Expire, ClaimOf;
    HeadsAreAlive(t.rows, tick);
    ExpireKeepsTable(t.rows, tick.at);
    TickEffect(t, tick);
    TickTradesExactly(t, tick);
  }

  /** The heads picked after expiry are rows that expiry did not touch. */
  lemma HeadsAreAlive(rows: seq<Order>, tick: TickInput)
    requires TickEnabled(rows, tick) && tick.bid.Some? && tick.ask.Some?
    ensures tick.bid.value < |rows| && tick.ask.value < |rows| && tick.bid.value != tick.ask.value
    ensures Expire(rows, tick.at)[tick.bid.value] == rows[tick.bid.value]
    ensures Expire(rows, tick.at)[tick.ask.value] == rows[tick.ask.value]
    ensures rows[tick.bid.value].side == Buy && rows[tick.ask.value].side == Sell
  {
    hide Better;
    PicksInRange(rows, tick);
    ExpiryMeaning(rows, tick.at, tick.bid.value);
    ExpiryMeaning(rows, tick.at, tick.ask.value);
  }

  /** Ticks keep keys unique and amounts in range. */
  lemma TickKeepsTable(t: Table, tick: TickInput)
    requires TableOk(t.rows) && TickEnabled(t.rows, tick)
    ensures TableOk(Tick(t, tick).rows) && |Tick(t, tick).rows| == |t.rows|
  {
    hide Decide, Tick, Expire, TextLess;
    var rows := Expire(t.rows, tick.at);
    ExpireKeepsTable(t.rows, tick.at);
    TickEffect(t, tick);
    if TickTrades(t.rows, tick) {
      var c := TickClaim(t.rows, tick);
      FillRowIsFine(rows[c.t], Decide(c).fill);
      FillRowIsFine(rows[c.m], Decide(c).fill);
    }
  }

  // ----- A tick is a run of the protocol

  /** The matcher's steps in one undisturbed tick. */
  function TickSteps(rows: seq<Order>, tick: TickInput): seq<Step>
    requires tick.bid.Some? ==> tick.bid.value < |rows|
    requires tick.ask.Some? ==> tick.ask.value < |rows|
  {
    var acquire := Acquire(tick.market, tick.at, tick.bid, tick.ask, Committed);
    if tick.bid.None? || tick.ask.None? then [acquire]
    else
      match Decide(TickClaim(rows, tick))
      case Drop => [acquire, Examine, ReleaseMatch(Committed)]
      case Reject => [acquire, Examine, MarkFailed(Committed), ReleaseMatch(Committed)]
      case Submit(_, _) =>
        if ShouldFinalize(tick.reply) then [acquire, Examine, Execute(tick.reply), FinalizeMatch(tick.stamp, Committed)]
        else [acquire, Examine, Execute(tick.reply), MarkFailed(Committed), ReleaseMatch(Committed)]
  }

  lemma RunOne(s: System, step: Step)
    requires Enabled(s, step)
    ensures Legal(s, [step]) && Run(s, [step]) == Next(s, step)
  {
    assert [step][1..] == [];
  }

  /** Undisturbed, the protocol's matcher does exactly what Tick says, and ends idle. */
  lemma TickIsRun(s: System, tick: TickInput)
    requires Inv(s) && s.phase.Idle? && TickEnabled(s.rows, tick) && LaterStamp(s.trades, tick.stamp)
    ensures var steps := TickSteps(s.rows, tick);
      && Legal(s, steps)
      && Table(Run(s, steps).rows, Run(s, steps).trades) == Tick(Table(s.rows, s.trades), tick)
      && Run(s, steps).phase.Idle?
  {
    hide ComputeExecutionUnits, TextLess, Finalize, Move, Expire, Decide, Run, Legal, Inv;
    var acquire := Acquire(tick.market, tick.at, tick.bid, tick.ask, Committed);
    if tick.bid.None? || tick.ask.None? {
      RunOne(s, acquire);
    } else {
      var s1 := Next(s, acquire);
      assert Decide(s1.phase.c) == Decide(TickClaim(s.rows, tick)) by {
        PlaceDoesNotMatter(s1.phase.c, TickClaim(s.rows, tick));
      }
      StepKeepsInv(s, acquire);
      TailRuns(s1, tick);
      var tail := TailSteps(s1.phase.c, tick);
      RunPrepend(s, acquire, tail);
      assert TickSteps(s.rows, tick) == [acquire] + tail;
    }
  }

  lemma PlaceDoesNotMatter(c: Claim, c': Claim)
    requires c.now == c'.now && c.taker == c'.taker && c.maker == c'.maker
    ensures Decide(c) == Decide(c')
  {
  }

  /** The steps after the pair is reserved. */
  function TailSteps(c: Claim, tick: TickInput): seq<Step> {
    match Decide(c)
    case Drop => [Examine, ReleaseMatch(Committed)]
    case Reject => [Examine, MarkFailed(Committed), ReleaseMatch(Committed)]
    case Submit(_, _) =>
      if ShouldFinalize(tick.reply) then [Examine, Execute(tick.reply), FinalizeMatch(tick.stamp, Committed)]
      else [Examine, Execute(tick.reply), MarkFailed(Committed), ReleaseMatch(Committed)]
  }

  /** The tables after the pair is reserved and the rest of the tick has run. */
  function TailTable(s: System, tick: TickInput): Table
    requires s.phase.Acquired?
  {
    var c := s.phase.c;
    var once := Release(s.rows, ClaimIds(c));
    match Decide(c)
    case Drop => Table(once, s.trades)
    case Reject => Table(Release(once, ClaimIds(c)), s.trades)
    case Submit(fill, units) =>
      if ShouldFinalize(tick.reply) then
        match Finalize(Table(s.rows, s.trades), c.taker.id, c.maker.id, c.maker.limitPrice, fill, tick.stamp)
        case Ok(done) => done
        case Err(_) => Table(once, s.trades)
      else Table(Release(once, ClaimIds(c)), s.trades)
  }

  lemma TailRuns(s: System, tick: TickInput)
    requires Inv(s) && s.phase.Acquired? && LaterStamp(s.trades, tick.stamp)
    ensures var steps := TailSteps(s.phase.c, tick);
      && Legal(s, steps)
      && Table(Run(s, steps).rows, Run(s, steps).trades) == TailTable(s, tick)
      && Run(s, steps).phase.Idle?
  {
    hide Finalize, Move, Decide, Run, Legal, Inv;
    var release, mark := ReleaseMatch(Committed), MarkFailed(Committed);
    var s1 := Next(s, Examine);
    match Decide(s.phase.c)
    case Drop =>
      RunOne(s1, release);
      RunPrepend(s, Examine, [release]);
      assert [Examine] + [release] == [Examine, release];
    case Reject =>
      FailureRuns(s1);
      RunPrepend(s, Examine, [mark, release]);
      assert [Examine] + [mark, release] == [Examine, mark, release];
    case Submit(fill, units) =>
      var execute, finalize := Execute(tick.reply), FinalizeMatch(tick.stamp, Committed);
      var s2 := Next(s1, execute);
      if ShouldFinalize(tick.reply) {
        StepKeepsInv(s, Examine);
        StepKeepsInv(s1, execute);
        TradeCommits(s2, tick.stamp);
        RunOne(s2, finalize);
        RunPrepend(s1, execute, [finalize]);
        RunPrepend(s, Examine, [execute, finalize]);
        assert [execute] + [finalize] == [execute, finalize];
        assert [Examine] + [execute, finalize] == [Examine, execute, finalize];
      } else {
        FailureRuns(s2);
        RunPrepend(s1, execute, [mark, release]);
        RunPrepend(s, Examine, [execute, mark, release]);
        assert [execute] + [mark, release] == [execute, mark, release];
        assert [Examine] + [execute, mark, release] == [Examine, execute, mark, release];
      }
  }

  lemma FailureRuns(s: System)
    requires s.phase.Failing?
    ensures var steps := [MarkFailed(Committed), ReleaseMatch(Committed)];
      && Legal(s, steps)
      && Run(s, steps).rows == Release(Release(s.rows, ClaimIds(s.phase.c)), ClaimIds(s.phase.c))
      && Run(s, steps).trades == s.trades && Run(s, steps).phase.Idle?
  {
    hide Move, Run, Legal;
    var mark, release := MarkFailed(Committed), ReleaseMatch(Committed);
    RunOne(Next(s, mark), release);
    RunPrepend(s, mark, [release]);
    assert [mark] + [release] == [mark, release];
  }
}
