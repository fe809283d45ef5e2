/**
 Price-time priority and one trade per reservation, over whole runs.
 */
module Priority {
  import opened Wrappers
  import opened Orders
  import opened Tables
  import opened Protocol
  import opened Safety
  import Reservations

  /** Out of the way for good: finished, or stuck in a reservation whose release was lost. */
  predicate Settled(s: System, i: nat)
    requires i < |s.rows|
  {
    Terminal(s.rows[i].status) || s.rows[i].id in s.orphans
  }

  predicate Ahead(a: Order, b: Order) {
    a.market == b.market && a.side == b.side && Better(a, b)
  }

  /** Of the rows that existed when row x was reserved, all that were strictly ahead of it are settled. */
  ghost predicate NothingAhead(s: System, population: nat, x: nat)
    requires x < population <= |s.rows|
  {
    forall i | 0 <= i < population && Ahead(s.rows[i], s.rows[x]) :: Settled(s, i)
  }

  ghost predicate Fair(s: System, r: Reservation) {
    && r.t < r.population <= |s.rows| && r.m < r.population && r.t != r.m
    && s.rows[r.t].market == s.rows[r.m].market && s.rows[r.t].side != s.rows[r.m].side
    && NothingAhead(s, r.population, r.t) && NothingAhead(s, r.population, r.m)
  }

  ghost predicate LogOk(s: System) {
    forall r | 0 <= r < |s.log| :: Fair(s, s.log[r])
  }

  /**
   Trade k carries out its reservation: it names the reserved pair, taker and maker in place, at the
   limit price of the older order.
   */
  ghost predicate CarriesOut(s: System, k: nat)
    requires k < |s.trades| && k < |s.fills|
  {
    var trade, r := s.trades[k], s.fills[k].reservation;
    && r < |s.log| && s.log[r].t < |s.rows| && s.log[r].m < |s.rows|
    && trade.taker == s.rows[s.log[r].t].id && trade.maker == s.rows[s.log[r].m].id
    && trade.market == s.rows[s.log[r].t].market && trade.aggressor == s.rows[s.log[r].t].side
    && trade.price == s.rows[s.log[r].m].limitPrice && Older(s.rows[s.log[r].m], s.rows[s.log[r].t])
  }

  /** No reservation has two trades, and the one in hand has none yet. */
  ghost predicate FillsOk(s: System) {
    && |s.fills| == |s.trades|
    && (forall k | 0 <= k < |s.trades| :: CarriesOut(s, k))
    && (forall j, k | 0 <= j < k < |s.fills| :: s.fills[j].reservation < s.fills[k].reservation)
    && (forall j, k | 0 <= j < k < |s.trades| :: s.trades[j].id < s.trades[k].id)
    && (Holds(s.phase) ==> forall k | 0 <= k < |s.fills| :: s.fills[k].reservation + 1 < |s.log|)
  }

  /** Fairness spelled out: who has a better price, or the same price and an earlier time, is finished or stuck. */
  lemma FairMeaning(s: System, r: Reservation)
    requires Fair(s, r)
    ensures r.t < r.population <= |s.rows| && r.m < r.population && r.t != r.m
    ensures s.rows[r.t].market == s.rows[r.m].market && s.rows[r.t].side != s.rows[r.m].side
    ensures forall i, x | 0 <= i < r.population && x in {r.t, r.m}
                          && s.rows[i].market == s.rows[x].market && s.rows[i].side == s.rows[x].side
                          && ((if s.rows[x].side == Buy then s.rows[i].ticks > s.rows[x].ticks else s.rows[i].ticks < s.rows[x].ticks)
                              || (s.rows[i].ticks == s.rows[x].ticks && s.rows[i].createdAt < s.rows[x].createdAt)) ::
      s.rows[i].status in {Filled, Cancelled, Expired} || s.rows[i].id in s.orphans
  {
    forall i, x | 0 <= i < r.population && x in {r.t, r.m} && Ahead(s.rows[i], s.rows[x])
      ensures Settled(s, i)
    {
    }
  }

  // ----- One step

  lemma SettledStays(s: System, s': System, population: nat, x: nat)
    requires Evolves(s, s') && x < population <= |s.rows| && NothingAhead(s, population, x)
    ensures NothingAhead(s', population, x)
  {
    forall i | 0 <= i < population && Ahead(s'.rows[i], s'.rows[x])
      ensures Settled(s', i)
    {
      assert RowEvolves(s, s.rows[i], s'.rows[i]) && RowEvolves(s, s.rows[x], s'.rows[x]);
      assert Settled(s, i);
    }
  }

  lemma FairStays(s: System, s': System, r: Reservation)
    requires Evolves(s, s') && Fair(s, r)
    ensures Fair(s', r)
  {
    SettledStays(s, s', r.population, r.t);
    SettledStays(s, s', r.population, r.m);
    assert RowEvolves(s, s.rows[r.t], s'.rows[r.t]) && RowEvolves(s, s.rows[r.m], s'.rows[r.m]);
  }

  /** The head of a side, taken when the matcher held nothing: whoever is ahead is settled. */
  lemma HeadIsFair(s: System, x: nat, market: Market, side: Side)
    requires Inv(s) && s.phase.Idle? && IsBest(s.rows, x, market, side)
    ensures NothingAhead(s, |s.rows|, x)
  {
    hide RowsOk, PhaseOk, Better;
    forall i | 0 <= i < |s.rows| && Ahead(s.rows[i], s.rows[x])
      ensures Settled(s, i)
    {
      assert !Eligible(s.rows[i], market, side);
      assert s.rows[i].status == Matching ==> s.rows[i].id in s.orphans;
    }
  }

  lemma ReservedIsFair(s: System, at: int, market: Market, b: nat, a: nat)
    requires Inv(s) && s.phase.Idle?
    requires IsBest(s.rows, b, market, Buy) && IsBest(s.rows, a, market, Sell)
    requires !IsExpired(s.rows[b], at) && !IsExpired(s.rows[a], at)
    ensures var s' := Reserved(s, at, b, a);
      |s'.log| == |s.log| + 1 && Evolves(s, s') && Fair(s', s'.log[|s.log|])
  {
    hide Inv, NothingAhead, Evolves, RowEvolves;
    var s' := Reserved(s, at, b, a);
    HeadIsFair(s, b, market, Buy);
    HeadIsFair(s, a, market, Sell);
    CrossesMeansBidAtAsk(s.rows[b], s.rows[a]);
    ReserveKeepsInv(s, at, market, b, a);
    FairStays(s, s', s'.log[|s.log|]);
  }

  lemma ExpiryWithdraws(rows: seq<Order>, now: int)
    ensures Withdrawn(rows, Expire(rows, now))
  {
  }

  ghost predicate Grows(s: System, s': System) {
    && |s'.log| == |s.log| + 1 && s'.log[..|s.log|] == s.log
    && s'.log[|s.log|].population == |s.rows| && Fair(s', s'.log[|s.log|])
  }

  lemma AcquireGrows(s: System, market: Market, at: int, b: nat, a: nat, io: Outcome)
    requires Inv(s) && Enabled(s, Acquire(market, at, Some(b), Some(a), io)) && !io.RolledBack?
    ensures Grows(s, Next(s, Acquire(market, at, Some(b), Some(a), io)))
  {
    hide Inv, Fair, RowEvolves, Evolves, NoTrade, Expire;
    var e := s.(rows := Expire(s.rows, at));
    ExpiryWithdraws(s.rows, at);
    WithdrawKeepsInv(s, e.rows);
    var r := Reserved(e, at, b, a);
    ExpiryMeaning(s.rows, at, b);
    ExpiryMeaning(s.rows, at, a);
    ReservedIsFair(e, at, market, b, a);
    if io.Unacknowledged? {
      ReserveKeepsInv(e, at, market, b, a);
      AbandonKeepsInv(r);
      FairStays(r, Abandoned(r), r.log[|s.log|]);
    }
  }

  /** A step makes at most one reservation, and only by that does the matcher start to hold anything. */
  lemma StepLog(s: System, step: Step)
    requires Inv(s) && Enabled(s, step)
    ensures var s' := Next(s, step);
      && (s'.log == s.log || Grows(s, s'))
      && (Holds(s'.phase) && !Holds(s.phase) ==> Grows(s, s'))
  {
    hide Inv, Grows, Decide, Finalize, Expire, Reserved;
    if step.Acquire? && !step.io.RolledBack? && step.bid.Some? && step.ask.Some? {
      AcquireGrows(s, step.market, step.at, step.bid.value, step.ask.value, step.io);
    }
  }

  lemma StepKeepsLog(s: System, step: Step)
    requires Inv(s) && LogOk(s) && Enabled(s, step)
    ensures LogOk(Next(s, step))
  {
    hide Inv, Next, Fair, OneTrade, NoTrade;
    var s' := Next(s, step);
    StepKeepsInv(s, step);
    StepLog(s, step);
    forall r | 0 <= r < |s'.log|
      ensures Fair(s', s'.log[r])
    {
      if r < |s.log| {
        FairStays(s, s', s.log[r]);
      }
    }
  }

  lemma TradeStays(s: System, s': System, k: nat)
    requires Evolves(s, s') && k < |s.trades| && k < |s.fills| && CarriesOut(s, k)
    ensures CarriesOut(s', k)
  {
    var r := s.fills[k].reservation;
    assert RowEvolves(s, s.rows[s.log[r].t], s'.rows[s.log[r].t]);
    assert RowEvolves(s, s.rows[s.log[r].m], s'.rows[s.log[r].m]);
  }

  lemma StepKeepsFills(s: System, step: Step)
    requires Inv(s) && FillsOk(s) && Enabled(s, step)
    ensures FillsOk(Next(s, step))
  {
    hide Inv, Next, CarriesOut, Fair;
    var s' := Next(s, step);
    StepKeepsInv(s, step);
    StepLog(s, step);
    forall k | 0 <= k < |s.trades|
      ensures CarriesOut(s', k) && s.fills[k].reservation < |s.log|
    {
      TradeStays(s, s', k);
      var _ := ReservationOf(s, k);
    }
    if Trades(step) {
      NewTradeCarriesOut(s, s');
      assert forall j | 0 <= j < |s.trades| :: s'.trades[j] == s'.trades[..|s.trades|][j];
    }
  }

  lemma NewTradeCarriesOut(s: System, s': System)
    requires Inv(s) && Evolves(s, s') && OneTrade(s, s') && |s.fills| == |s.trades|
    ensures CarriesOut(s', |s.trades|)
    ensures s'.fills[|s.fills|].reservation + 1 == |s.log|
    ensures s'.trades[..|s.trades|] == s.trades && !Holds(s'.phase) && Holds(s.phase)
  {
    hide RowsOk, Owned, Decide, FillRow;
    var c := s.phase.c;
    assert RowEvolves(s, s.rows[c.t], s'.rows[c.t]) && RowEvolves(s, s.rows[c.m], s'.rows[c.m]);
  }

  // ----- Whole runs

  lemma {:induction false} RunKeepsOrder(s: System, steps: seq<Step>)
    requires Inv(s) && LogOk(s) && FillsOk(s) && Legal(s, steps)
    ensures LogOk(Run(s, steps)) && FillsOk(Run(s, steps))
    decreases |steps|
  {
    hide Inv, Enabled, Next, LogOk, FillsOk;
    if steps != [] {
      StepKeepsInv(s, steps[0]);
      StepKeepsLog(s, steps[0]);
      StepKeepsFills(s, steps[0]);
      RunKeepsOrder(Next(s, steps[0]), steps[1..]);
    }
  }

  /**
   Price-time priority. In every reachable state, for every trade and both of its orders: each order of
   the same market and side that existed at the reservation and has a better price, or the same price and an
   earlier time, is filled, cancelled or expired, or stuck in a lost reservation. The maker is the older of
   the two, and no reservation has more than one trade.
   */
  lemma PriceTimePriority(steps: seq<Step>, k: nat)
    requires Legal(EMPTY, steps) && k < |Run(EMPTY, steps).trades|
    ensures var s := Run(EMPTY, steps);
      && |s.fills| == |s.trades| && CarriesOut(s, k)
      && var r := s.log[s.fills[k].reservation];
        && r.t < r.population <= |s.rows| && r.m < r.population && r.t != r.m
        && s.rows[r.t].market == s.rows[r.m].market && s.rows[r.t].side != s.rows[r.m].side
        && s.rows[r.m].createdAt <= s.rows[r.t].createdAt
        && (forall i, x | 0 <= i < r.population && x in {r.t, r.m}
                          && s.rows[i].market == s.rows[x].market && s.rows[i].side == s.rows[x].side
                          && ((if s.rows[x].side == Buy then s.rows[i].ticks > s.rows[x].ticks else s.rows[i].ticks < s.rows[x].ticks)
                              || (s.rows[i].ticks == s.rows[x].ticks && s.rows[i].createdAt < s.rows[x].createdAt)) ::
              s.rows[i].status in {Filled, Cancelled, Expired} || s.rows[i].id in s.orphans)
        && (forall j | 0 <= j < |s.fills| && j != k :: s.fills[j].reservation != s.fills[k].reservation)
  {
    hide Inv, Legal, Run, Fair, Terminal;
    Reservations.EmptyIsSafe();
    RunKeepsOrder(EMPTY, steps);
    var s := Run(EMPTY, steps);
    var r := ReservationOf(s, k);
    FairMeaning(s, s.log[r]);
    assert CarriesOut(s, k);
  }

  lemma ReservationOf(s: System, k: nat) returns (r: nat)
    requires FillsOk(s) && k < |s.trades|
    ensures r == s.fills[k].reservation < |s.log|
  {
    r := s.fills[k].reservation;
    assert CarriesOut(s, k);
  }

  /** The same holds at the moment of reserving, before anything is filled: the pair heads its book. */
  lemma ReservedPairLeads(steps: seq<Step>)
    requires Legal(EMPTY, steps) && Holds(Run(EMPTY, steps).phase)
    ensures var s := Run(EMPTY, steps);
      && s.phase.c.r < |s.log|
      && var r := s.log[s.phase.c.r];
        && r.t == s.phase.c.t && r.m == s.phase.c.m && r.t < r.population <= |s.rows| && r.m < r.population
        && forall i, x | 0 <= i < r.population && x in {r.t, r.m}
                         && s.rows[i].market == s.rows[x].market && s.rows[i].side == s.rows[x].side
                         && ((if s.rows[x].side == Buy then s.rows[i].ticks > s.rows[x].ticks else s.rows[i].ticks < s.rows[x].ticks)
                             || (s.rows[i].ticks == s.rows[x].ticks && s.rows[i].createdAt < s.rows[x].createdAt)) ::
            s.rows[i].status in {Filled, Cancelled, Expired} || s.rows[i].id in s.orphans
  {
    hide Legal, Run, Fair, RowsOk, Owned, Decide;
    Reservations.EmptyIsSafe();
    Reservations.RunKeepsInv(EMPTY, steps);
    RunKeepsOrder(EMPTY, steps);
    FairMeaning(Run(EMPTY, steps), Run(EMPTY, steps).log[Run(EMPTY, steps).phase.c.r]);
  }

  // ----- No arrivals

  /** What has happened since s0: rows reserved since then were chosen among at least the rows of s0. */
  ghost predicate Since(s0: System, s: System) {
    && |s0.log| <= |s.log| && |s0.fills| <= |s.fills| && |s0.rows| <= |s.rows|
    && (forall r | |s0.log| <= r < |s.log| :: s.log[r].population >= |s0.rows|)
    && (forall k | |s0.fills| <= k < |s.fills| :: s.fills[k].reservation >= |s0.log|)
    && (Holds(s.phase) ==> |s.log| > |s0.log|)
  }

  lemma StepKeepsSince(s0: System, s: System, step: Step)
    requires Inv(s) && Since(s0, s) && Enabled(s, step)
    ensures Since(s0, Next(s, step))
  {
    hide RowsOk, Owned, Next, Fair, Decide;
    StepKeepsInv(s, step);
    StepLog(s, step);
  }

  lemma {:induction false} RunKeepsSince(s0: System, s: System, steps: seq<Step>)
    requires Inv(s) && Since(s0, s) && Legal(s, steps)
    ensures Since(s0, Run(s, steps))
    decreases |steps|
  {
    hide Inv, Enabled, Next, Since;
    if steps != [] {
      StepKeepsInv(s, steps[0]);
      StepKeepsSince(s0, s, steps[0]);
      RunKeepsSince(s0, Next(s, steps[0]), steps[1..]);
    }
  }

  predicate NoArrivals(steps: seq<Step>) {
    forall k | 0 <= k < |steps| :: !steps[k].CreateOrder?
  }

  lemma {:induction false} NoArrivalsNoRows(s: System, steps: seq<Step>)
    requires Inv(s) && Legal(s, steps) && NoArrivals(steps)
    ensures |Run(s, steps).rows| == |s.rows|
    decreases |steps|
  {
    hide Inv, Legal, Decide, Finalize;
    if steps != [] {
      Reservations.LegalHead(s, steps);
      StepKeepsInv(s, steps[0]);
      NoArrivalsNoRows(Next(s, steps[0]), steps[1..]);
    }
  }

  /**
   With no arrivals after an idle moment, every trade made since then left no strictly better order of
   either side behind, among all orders there are.
   */
  lemma NoArrivalsNoOvertaking(before: seq<Step>, steps: seq<Step>, k: nat)
    requires Legal(EMPTY, before) && Run(EMPTY, before).phase.Idle?
    requires Legal(Run(EMPTY, before), steps) && NoArrivals(steps)
    requires |Run(EMPTY, before).trades| <= k < |Run(Run(EMPTY, before), steps).trades|
    ensures var s := Run(Run(EMPTY, before), steps);
      && k < |s.fills| && CarriesOut(s, k)
      && var r := s.log[s.fills[k].reservation];
        forall i, x | 0 <= i < |s.rows| && x in {r.t, r.m}
                      && s.rows[i].market == s.rows[x].market && s.rows[i].side == s.rows[x].side
                      && ((if s.rows[x].side == Buy then s.rows[i].ticks > s.rows[x].ticks else s.rows[i].ticks < s.rows[x].ticks)
                          || (s.rows[i].ticks == s.rows[x].ticks && s.rows[i].createdAt < s.rows[x].createdAt)) ::
          s.rows[i].status in {Filled, Cancelled, Expired} || s.rows[i].id in s.orphans
  {
    hide Inv, Legal, Run, Better, Terminal;
    var s0 := Run(EMPTY, before);
    var s := Run(s0, steps);
    Reservations.EmptyIsSafe();
    Reservations.RunKeepsInv(EMPTY, before);
    RunKeepsOrder(EMPTY, before);
    RunKeepsOrder(s0, steps);
    RunKeepsSince(s0, s0, steps);
    NoArrivalsNoRows(s0, steps);
    assert CarriesOut(s, k);
    FairMeaning(s, s.log[s.fills[k].reservation]);
  }

  /** A partial fill keeps an order's place: who is ahead of whom never changes. */
  lemma PlaceIsKept(s: System, steps: seq<Step>, i: nat, j: nat)
    requires Inv(s) && Legal(s, steps) && i < |s.rows| && j < |s.rows|
    ensures var s' := Run(s, steps);
      && |s.rows| <= |s'.rows|
      && (Ahead(s'.rows[i], s'.rows[j]) <==> Ahead(s.rows[i], s.rows[j]))
  {
    hide Inv, Legal, Run;
    Reservations.RunKeepsInv(s, steps);
    var s' := Run(s, steps);
    assert RowEvolves(s, s.rows[i], s'.rows[i]) && RowEvolves(s, s.rows[j], s'.rows[j]);
  }
}
