/**
 What every step of the protocol keeps: well-formed rows, unique keys, and exclusive reservation.
 */
module Safety {
  import opened Wrappers
  import opened Orders
  import opened Tables
  import opened ExecutionUnits
  import opened Protocol

  // ----- The invariant

  ghost predicate RowsOk(s: System) {
    && UniqueKeys(s.rows)
    && |s.initial| == |s.rows|
    && (forall i | 0 <= i < |s.rows| :: WellFormed(s.rows[i]) && s.initial[i] >= 0)
    && (forall i | 0 <= i < |s.rows| :: s.rows[i].status == Filled ==> s.rows[i].filled == s.rows[i].desired)
  }

  /**
   The claim names two rows of one market, on opposite sides, by the terms they still have. The older one
   is the maker, and neither was expired when they were read.
   */
  ghost predicate ClaimFits(rows: seq<Order>, c: Claim) {
    && c.t < |rows| && c.m < |rows| && c.t != c.m
    && SameTerms(rows[c.t], c.taker) && SameTerms(rows[c.m], c.maker)
    && c.taker.side != c.maker.side && c.taker.market == c.maker.market
    && WellFormed(c.taker) && WellFormed(c.maker)
    && Older(c.maker, c.taker) && !IsExpired(c.taker, c.now) && !IsExpired(c.maker, c.now)
  }

  /** While it is held, the claimed rows are reserved and as filled as when they were read. */
  ghost predicate ClaimHeld(rows: seq<Order>, c: Claim)
    requires ClaimFits(rows, c)
  {
    && rows[c.t].status == Matching && rows[c.m].status == Matching
    && rows[c.t].filled == c.taker.filled && rows[c.m].filled == c.maker.filled
  }

  /** What was worked out before submitting still stands. */
  predicate Priced(c: Claim, fill: int, units: Units) {
    Decide(c) == Submit(fill, units)
  }

  ghost predicate PhaseOk(s: System) {
    !s.phase.Idle? ==>
      && ClaimFits(s.rows, s.phase.c)
      && (Holds(s.phase) ==> ClaimHeld(s.rows, s.phase.c))
      && s.phase.c.r + 1 == |s.log|
      && s.log[s.phase.c.r].t == s.phase.c.t && s.log[s.phase.c.r].m == s.phase.c.m
      && (s.phase.Submitting? || s.phase.Finalizing? ==> Priced(s.phase.c, s.phase.fill, s.phase.units))
  }

  /** The reserved orders are exactly the matcher's claim and the orphans. */
  ghost predicate Owned(s: System) {
    && (forall i | 0 <= i < |s.rows| ::
          s.rows[i].status == Matching <==> s.rows[i].id in HeldIds(s.phase) + s.orphans)
    && (!s.phase.Idle? ==> ClaimIds(s.phase.c) !! s.orphans)
    && (forall id | id in s.orphans :: exists i | 0 <= i < |s.rows| :: s.rows[i].id == id)
  }

  ghost predicate Inv(s: System) {
    RowsOk(s) && PhaseOk(s) && Owned(s)
  }

  // ----- How rows may change in one step

  /** Terms stay, finished orders stay as they are, orphans stay reserved, nothing is unfilled. */
  ghost predicate RowEvolves(s: System, a: Order, b: Order) {
    && SameTerms(a, b)
    && a.filled <= b.filled
    && (Terminal(a.status) ==> b == a)
    && (a.id in s.orphans && a.status == Matching ==> b == a)
  }

  /** What one step may do to the system. */
  ghost predicate Evolves(s: System, s': System) {
    && |s.rows| <= |s'.rows|
    && (forall i | 0 <= i < |s.rows| :: RowEvolves(s, s.rows[i], s'.rows[i]))
    && s.initial <= s'.initial && s.trades <= s'.trades && s.log <= s'.log && s.fills <= s'.fills
    && s.orphans <= s'.orphans
  }

  /** A step that trades nothing: amounts stay, and new rows start at their initial amount. */
  ghost predicate NoTrade(s: System, s': System) {
    && |s.rows| <= |s'.rows| && |s'.rows| == |s'.initial|
    && s'.trades == s.trades && s'.fills == s.fills
    && (forall i | 0 <= i < |s.rows| :: s'.rows[i].filled == s.rows[i].filled)
    && (forall i | |s.rows| <= i < |s'.rows| :: s'.rows[i].filled == s'.initial[i])
  }

  /** A step that commits the matcher's trade. */
  ghost predicate OneTrade(s: System, s': System) {
    && s.phase.Finalizing? && ClaimFits(s.rows, s.phase.c)
    && var c := s.phase.c;
      && |s'.rows| == |s.rows| && s'.initial == s.initial && s'.log == s.log
      && |s'.trades| == |s.trades| + 1 && s'.trades[..|s.trades|] == s.trades
      && s'.fills == s.fills + [Fill(c.r, s.phase.units)]
      && var trade := s'.trades[|s.trades|];
        && trade.market == c.taker.market && trade.aggressor == c.taker.side
        && trade.taker == c.taker.id && trade.maker == c.maker.id && trade.size == s.phase.fill
        && trade.price == c.maker.limitPrice
        && (forall k | 0 <= k < |s.trades| :: s.trades[k].id < trade.id)
        && s'.rows == s.rows[c.t := FillRow(s.rows[c.t], s.phase.fill)][c.m := FillRow(s.rows[c.m], s.phase.fill)]
        && (s'.phase.Idle? || (s'.phase.Releasing? && !s'.phase.held))
  }

  // ----- Row-by-row changes

  /** rows' withdraws some active rows of rows: they end cancelled or expired. */
  ghost predicate Withdrawn(rows: seq<Order>, rows': seq<Order>) {
    && |rows'| == |rows|
    && forall i | 0 <= i < |rows| ::
        rows'[i] == rows[i] || (rows[i].status == Active
          && (rows'[i] == rows[i].(status := Cancelled) || rows'[i] == rows[i].(status := Expired)))
  }

  lemma WithdrawKeepsInv(s: System, rows': seq<Order>)
    requires Inv(s) && Withdrawn(s.rows, rows')
    ensures var s' := s.(rows := rows');
      Inv(s') && Evolves(s, s') && NoTrade(s, s')
  {
    hide Decide;
    var s' := s.(rows := rows');
    assert forall i | 0 <= i < |rows'| :: SameTerms(s.rows[i], rows'[i]);
  }

  lemma CreateKeepsInv(s: System, o: Order)
    requires Inv(s) && Creatable(s.rows, o)
    ensures var s' := Next(s, CreateOrder(o));
      Inv(s') && Evolves(s, s') && NoTrade(s, s')
  {
    hide Decide;
    var s' := Next(s, CreateOrder(o));
    assert forall i | 0 <= i < |s.rows| :: s'.rows[i] == s.rows[i];
  }

  /** What a claim on the two heads of a book looks like. */
  lemma ClaimOfPair(rows: seq<Order>, at: int, b: nat, a: nat, r: nat, market: Market)
    requires UniqueKeys(rows) && IsBest(rows, b, market, Buy) && IsBest(rows, a, market, Sell)
    ensures var c := ClaimOf(rows, at, b, a, r);
      && c.now == at && c.r == r && {c.t, c.m} == {b, a} && c.t != c.m
      && c.taker == rows[c.t] && c.maker == rows[c.m] && Older(c.maker, c.taker)
      && c.taker.side != c.maker.side
  {
    hide Older;
    OlderMakes(rows[b], rows[a]);
  }

  lemma ReserveKeepsInv(s: System, at: int, market: Market, b: nat, a: nat)
    requires Inv(s) && s.phase.Idle?
    requires IsBest(s.rows, b, market, Buy) && IsBest(s.rows, a, market, Sell)
    requires !IsExpired(s.rows[b], at) && !IsExpired(s.rows[a], at)
    ensures var s' := Reserved(s, at, b, a);
      Inv(s') && Evolves(s, s') && NoTrade(s, s')
  {
    hide Decide, Older, IsExpired;
    var s' := Reserved(s, at, b, a);
    var c := s'.phase.c;
    ClaimOfPair(s.rows, at, b, a, |s.log|, market);
    forall i | 0 <= i < |s.rows|
      ensures s'.rows[i] == if i == b || i == a then s.rows[i].(status := Matching) else s.rows[i]
    {
      assert s.rows[i].id in ClaimIds(c) <==> i == b || i == a;
    }
  }

  lemma AbandonKeepsInv(s: System)
    requires Inv(s)
    ensures var s' := Abandoned(s);
      Inv(s') && Evolves(s, s') && NoTrade(s, s')
  {
    hide Decide;
  }

  /** Giving back the claim touches the claimed rows only while they are held. */
  lemma ReleaseKeepsInv(s: System, next: Phase)
    requires Inv(s) && !s.phase.Idle? && !s.phase.Submitting? && !s.phase.Finalizing?
    requires next.Idle? || next == Releasing(s.phase.c, false)
    ensures var s' := Released(s, next);
      Inv(s') && Evolves(s, s') && NoTrade(s, s')
    ensures !Holds(s.phase) ==> Released(s, next).rows == s.rows
  {
    hide Decide;
    var s' := Released(s, next);
    var c := s.phase.c;
    forall i | 0 <= i < |s.rows|
      ensures s'.rows[i] == if Holds(s.phase) && (i == c.t || i == c.m) then s.rows[i].(status := Active) else s.rows[i]
    {
      assert s.rows[i].id in ClaimIds(c) <==> i == c.t || i == c.m;
    }
  }

  /** Moving between phases that all hold the same claim. */
  lemma PhaseChangeKeepsInv(s: System, next: Phase)
    requires Inv(s) && Holds(s.phase) && Holds(next) && next.c == s.phase.c
    requires next.Submitting? || next.Finalizing? ==> Priced(next.c, next.fill, next.units)
    ensures var s' := s.(phase := next);
      Inv(s') && Evolves(s, s') && NoTrade(s, s')
  {
    hide Decide;
  }

  // ----- The trade

  /** Taker and maker are found where the claim says, and the fill fits both. */
  lemma TradeCommits(s: System, stamp: Stamp)
    requires Inv(s) && s.phase.Finalizing?
    ensures var c, fill := s.phase.c, s.phase.fill;
      && Traded(s, stamp).Ok?
      && var t := Traded(s, stamp).value;
        && t.rows == s.rows[c.t := FillRow(s.rows[c.t], fill)][c.m := FillRow(s.rows[c.m], fill)]
        && |t.trades| == |s.trades| + 1 && t.trades[..|s.trades|] == s.trades
        && var trade := t.trades[|s.trades|];
          && trade.id == stamp.id && trade.market == c.taker.market && trade.aggressor == c.taker.side
          && trade.taker == c.taker.id && trade.maker == c.maker.id && trade.size == fill
          && trade.price == c.maker.limitPrice
  {
    hide ComputeExecutionUnits, TextLess;
    var c, fill := s.phase.c, s.phase.fill;
    FillFits(c, fill, s.phase.units);
    OnlyRow(s.rows, c.taker.id, c.t);
    var rows1 := s.rows[c.t := FillRow(s.rows[c.t], fill)];
    assert Tables.ApplyFill(s.rows, c.taker.id, fill) == Ok(rows1);
    OnlyRow(rows1, c.maker.id, c.m);
  }

  /** Under unique ids, a lookup finds the one row there is. */
  lemma OnlyRow(rows: seq<Order>, id: string, i: nat)
    requires i < |rows| && rows[i].id == id && rows[i].status == Matching
    requires forall j | 0 <= j < |rows| && j != i :: rows[j].id != id
    ensures Find(rows, id, Matching) == Some(i)
  {
  }

  lemma FillFits(c: Claim, fill: int, units: Units)
    requires Priced(c, fill, units) && WellFormed(c.taker) && WellFormed(c.maker)
    ensures fill == Min(Remaining(c.taker), Remaining(c.maker)) > 0
    ensures c.taker.filled + fill <= c.taker.desired && c.maker.filled + fill <= c.maker.desired
    ensures Crosses(c.taker, c.maker)
    ensures ComputeExecutionUnits(c.taker, c.maker, c.maker.ticks, fill) == Ok(units)
  {
    hide ComputeExecutionUnits;
  }

  lemma FillRowIsFine(o: Order, amount: int)
    requires WellFormed(o) && amount > 0 && o.filled + amount <= o.desired
    ensures var o' := FillRow(o, amount);
      && WellFormed(o') && SameTerms(o, o') && o'.filled == o.filled + amount
      && o'.status == if o'.filled == o.desired then Filled else Active
  {
  }

  /** The rows after the claim's fill: two rows further filled, no longer reserved. */
  ghost predicate ClaimFilled(rows: seq<Order>, c: Claim, fill: int, rows': seq<Order>) {
    && |rows'| == |rows|
    && forall i | 0 <= i < |rows| ::
        if i == c.t || i == c.m then
          && SameTerms(rows[i], rows'[i]) && WellFormed(rows'[i]) && rows'[i].filled == rows[i].filled + fill
          && rows'[i].status == (if rows'[i].filled == rows'[i].desired then Filled else Active)
        else rows'[i] == rows[i]
  }

  lemma CommitKeepsInv(s: System, stamp: Stamp, io: Outcome)
    requires Inv(s) && Enabled(s, FinalizeMatch(stamp, io)) && !io.RolledBack?
    ensures var s' := Next(s, FinalizeMatch(stamp, io));
      Inv(s') && Evolves(s, s') && OneTrade(s, s')
  {
    hide Decide, Finalize, TextLess, FillRow, RowsOk, Owned;
    var c, fill := s.phase.c, s.phase.fill;
    var s' := Next(s, FinalizeMatch(stamp, io));
    TradeCommits(s, stamp);
    CommitFills(s, s');
    FilledKeepsRows(s, s');
    FilledKeepsOwned(s, s');
  }

  lemma CommitFills(s: System, s': System)
    requires Inv(s) && s.phase.Finalizing?
    requires var c, fill := s.phase.c, s.phase.fill;
      s'.rows == s.rows[c.t := FillRow(s.rows[c.t], fill)][c.m := FillRow(s.rows[c.m], fill)]
    ensures ClaimFilled(s.rows, s.phase.c, s.phase.fill, s'.rows) && s.phase.fill > 0
  {
    hide Decide, Owned;
    var c, fill := s.phase.c, s.phase.fill;
    FillFits(c, fill, s.phase.units);
    FillRowIsFine(s.rows[c.t], fill);
    FillRowIsFine(s.rows[c.m], fill);
  }

  lemma FilledKeepsRows(s: System, s': System)
    requires Inv(s) && s.phase.Finalizing?
    requires ClaimFilled(s.rows, s.phase.c, s.phase.fill, s'.rows) && s.phase.fill > 0
    requires s'.initial == s.initial
    ensures RowsOk(s')
    ensures forall i | 0 <= i < |s.rows| :: RowEvolves(s, s.rows[i], s'.rows[i])
  {
    hide Decide;
    forall i | 0 <= i < |s.rows|
      ensures SameTerms(s.rows[i], s'.rows[i]) && WellFormed(s'.rows[i])
      ensures RowEvolves(s, s.rows[i], s'.rows[i])
    {
    }
  }

  lemma FilledKeepsOwned(s: System, s': System)
    requires Inv(s) && s.phase.Finalizing?
    requires ClaimFilled(s.rows, s.phase.c, s.phase.fill, s'.rows)
    requires s'.orphans == s.orphans && (s'.phase.Idle? || s'.phase == Releasing(s.phase.c, false))
    ensures Owned(s')
  {
    hide Decide, WellFormed;
    var c := s.phase.c;
    forall i | 0 <= i < |s.rows|
      ensures s.rows[i].id in ClaimIds(c) <==> i == c.t || i == c.m
    {
    }
  }

  // ----- Every step, every run

  predicate Trades(step: Step) {
    step.FinalizeMatch? && !step.io.RolledBack?
  }

  lemma StepKeepsInv(s: System, step: Step)
    requires Inv(s) && Enabled(s, step)
    ensures Inv(Next(s, step)) && Evolves(s, Next(s, step))
    ensures if Trades(step) then OneTrade(s, Next(s, step)) else NoTrade(s, Next(s, step))
  {
    hide Inv, Evolves, OneTrade, NoTrade, Decide, Finalize;
    match step
    case CreateOrder(o) => CreateKeepsInv(s, o);
    case CancelOrder(owner, nonce) => WithdrawKeepsInv(s, Cancel(s.rows, owner, nonce));
    case ExpireOrders(now) => WithdrawKeepsInv(s, Expire(s.rows, now));
    case Acquire(market, at, bid, ask, io) => AcquireKeepsInv(s, market, at, bid, ask, io);
    case Examine => ExamineKeepsInv(s);
    case Execute(reply) => ExecuteKeepsInv(s, reply);
    case FinalizeMatch(stamp, io) =>
      if io.RolledBack? {
        RollbackKeepsInv(s, stamp);
      } else {
        CommitKeepsInv(s, stamp, io);
      }
    case MarkFailed(io) => MarkKeepsInv(s, io);
    case ReleaseMatch(io) =>
      if io.RolledBack? {
        AbandonKeepsInv(s);
      } else {
        ReleaseKeepsInv(s, Idle);
      }
    case Stop => AbandonKeepsInv(s);
  }

  lemma AcquireKeepsInv(s: System, market: Market, at: int, bid: Option<nat>, ask: Option<nat>, io: Outcome)
    requires Inv(s) && Enabled(s, Acquire(market, at, bid, ask, io))
    ensures var s' := Next(s, Acquire(market, at, bid, ask, io));
      Inv(s') && Evolves(s, s') && NoTrade(s, s')
  {
    hide Inv, Evolves, NoTrade, Reserved, Abandoned;
    if io.RolledBack? {
      Unchanged(s);
    } else {
      var e := s.(rows := Expire(s.rows, at));
      WithdrawKeepsInv(s, e.rows);
      if bid.Some? && ask.Some? {
        var r := Reserved(e, at, bid.value, ask.value);
        ExpiryMeaning(s.rows, at, bid.value);
        ExpiryMeaning(s.rows, at, ask.value);
        ReserveKeepsInv(e, at, market, bid.value, ask.value);
        Compose(s, e, r);
        if io.Unacknowledged? {
          AbandonKeepsInv(r);
          Compose(s, r, Abandoned(r));
        }
      }
    }
  }

  lemma ExamineKeepsInv(s: System)
    requires Inv(s) && Enabled(s, Examine)
    ensures var s' := Next(s, Examine);
      Inv(s') && Evolves(s, s') && NoTrade(s, s')
  {
    hide Inv, Evolves, NoTrade, Decide;
    PhaseChangeKeepsInv(s, Next(s, Examine).phase);
  }

  lemma ExecuteKeepsInv(s: System, reply: Reply)
    requires Inv(s) && Enabled(s, Execute(reply))
    ensures var s' := Next(s, Execute(reply));
      Inv(s') && Evolves(s, s') && NoTrade(s, s')
  {
    hide Evolves, NoTrade, Decide, RowsOk, Owned;
    PhaseChangeKeepsInv(s, Next(s, Execute(reply)).phase);
  }

  lemma RollbackKeepsInv(s: System, stamp: Stamp)
    requires Inv(s) && Enabled(s, FinalizeMatch(stamp, RolledBack))
    ensures var s' := Next(s, FinalizeMatch(stamp, RolledBack));
      Inv(s') && Evolves(s, s') && NoTrade(s, s')
  {
    hide Inv, Evolves, NoTrade, Decide, Finalize;
    PhaseChangeKeepsInv(s, Releasing(s.phase.c, true));
  }

  lemma MarkKeepsInv(s: System, io: Outcome)
    requires Inv(s) && Enabled(s, MarkFailed(io))
    ensures var s' := Next(s, MarkFailed(io));
      Inv(s') && Evolves(s, s') && NoTrade(s, s')
  {
    hide Inv, Evolves, NoTrade, Decide;
    if io.RolledBack? {
      PhaseChangeKeepsInv(s, Releasing(s.phase.c, true));
    } else {
      ReleaseKeepsInv(s, Releasing(s.phase.c, false));
    }
  }

  lemma Unchanged(s: System)
    requires Inv(s)
    ensures Evolves(s, s) && NoTrade(s, s)
  {
  }

  lemma Compose(s: System, s1: System, s2: System)
    requires Evolves(s, s1) && Evolves(s1, s2) && NoTrade(s, s1) && NoTrade(s1, s2)
    ensures Evolves(s, s2) && NoTrade(s, s2)
  {
    hide RowEvolves;
    EvolvesIsTransitive(s, s1, s2);
  }

  lemma EvolvesIsTransitive(s: System, s1: System, s2: System)
    requires Evolves(s, s1) && Evolves(s1, s2)
    ensures Evolves(s, s2)
  {
    forall i | 0 <= i < |s.rows|
      ensures RowEvolves(s, s.rows[i], s2.rows[i])
    {
      assert RowEvolves(s, s.rows[i], s1.rows[i]) && RowEvolves(s1, s1.rows[i], s2.rows[i]);
    }
  }
}
