/**
 Reservation safety over whole runs: who holds what, what can no longer change, and what the second
 release after a failure does.
 */
module Reservations {
  import opened Wrappers
  import opened Numerals
  import AmountText
  import opened Orders
  import opened Tables
  import opened ExecutionUnits
  import opened Protocol
  import opened Safety

  lemma EmptyIsSafe()
    ensures Inv(EMPTY)
  {
  }

  lemma {:induction false} RunKeepsInv(s: System, steps: seq<Step>)
    requires Inv(s) && Legal(s, steps)
    ensures Inv(Run(s, steps)) && Evolves(s, Run(s, steps))
    decreases |steps|
  {
    hide Inv, Evolves, Enabled, Next;
    if steps == [] {
      Unchanged(s);
    } else {
      var s1 := Next(s, steps[0]);
      StepKeepsInv(s, steps[0]);
      RunKeepsInv(s1, steps[1..]);
      EvolvesIsTransitive(s, s1, Run(s, steps));
    }
  }

  ghost function MatchingIds(s: System): set<string> {
    set i | 0 <= i < |s.rows| && s.rows[i].status == Matching :: s.rows[i].id
  }

  /**
   In every reachable state the reserved orders are exactly the matcher's claim and the orphans, and
   nothing is in both; the claim, while held, is one buy and one sell of one market, neither expired by
   the tick's clock.
   */
  lemma ReservationIsExclusive(steps: seq<Step>)
    requires Legal(EMPTY, steps)
    ensures var s := Run(EMPTY, steps);
      && MatchingIds(s) == HeldIds(s.phase) + s.orphans
      && HeldIds(s.phase) !! s.orphans
      && (Holds(s.phase) ==>
            && |HeldIds(s.phase)| == 2
            && s.phase.c.taker.market == s.phase.c.maker.market && s.phase.c.taker.side != s.phase.c.maker.side
            && s.phase.c.taker.expiry > s.phase.c.now && s.phase.c.maker.expiry > s.phase.c.now)
  {
    hide Enabled, Next;
    EmptyIsSafe();
    RunKeepsInv(EMPTY, steps);
    var s := Run(EMPTY, steps);
    HeldRowsExist(s);
    forall id | id in HeldIds(s.phase) + s.orphans
      ensures id in MatchingIds(s)
    {
      var i :| 0 <= i < |s.rows| && s.rows[i].id == id;
      assert s.rows[i].status == Matching;
    }
  }

  lemma HeldRowsExist(s: System)
    requires Inv(s)
    ensures forall id | id in HeldIds(s.phase) :: exists i | 0 <= i < |s.rows| :: s.rows[i].id == id
    ensures Holds(s.phase) ==> |HeldIds(s.phase)| == 2
  {
    hide Owned, Priced;
    if Holds(s.phase) {
      ClaimNamesTwo(s.rows, s.phase.c);
    }
  }

  lemma ClaimNamesTwo(rows: seq<Order>, c: Claim)
    requires UniqueKeys(rows) && ClaimFits(rows, c)
    ensures c.taker.id != c.maker.id
    ensures forall id | id in ClaimIds(c) :: exists i | 0 <= i < |rows| :: rows[i].id == id
  {
    assert rows[c.t].id == c.taker.id && rows[c.m].id == c.maker.id;
  }

  /** Filled, cancelled and expired are final: no run changes such a row in any column. */
  lemma TerminalIsFinal(s: System, steps: seq<Step>, i: nat)
    requires Inv(s) && Legal(s, steps) && i < |s.rows| && Terminal(s.rows[i].status)
    ensures i < |Run(s, steps).rows| && Run(s, steps).rows[i] == s.rows[i]
  {
    hide Enabled, Next, Inv;
    RunKeepsInv(s, steps);
    assert RowEvolves(s, s.rows[i], Run(s, steps).rows[i]);
  }

  /** An order whose release was lost stays reserved, and as filled as it was, through every run. */
  lemma OrphansNeverMove(s: System, steps: seq<Step>, i: nat)
    requires Inv(s) && Legal(s, steps) && i < |s.rows| && s.rows[i].id in s.orphans
    ensures s.rows[i].status == Matching
    ensures i < |Run(s, steps).rows| && Run(s, steps).rows[i] == s.rows[i] && s.rows[i].id in Run(s, steps).orphans
  {
    hide Enabled, Next;
    assert Owned(s);
    RunKeepsInv(s, steps);
    assert RowEvolves(s, s.rows[i], Run(s, steps).rows[i]);
  }

  // ----- When a reservation is lost

  /** The step leaves rows reserved that no part of the matcher will ever give back. */
  predicate LosesClaim(s: System, step: Step) {
    match step
    case Acquire(_, _, bid, ask, io) => io.Unacknowledged? && bid.Some? && ask.Some?
    case ReleaseMatch(io) => io.RolledBack? && Holds(s.phase)
    case Stop => Holds(s.phase)
    case _ => false
  }

  /**
   Exactly three things strand a pair: a reservation committed without the matcher hearing of it, the
   deferred release failing while the pair is still reserved, and the matcher stopping with a pair in hand.
   */
  lemma StrandedExactly(s: System, step: Step)
    requires Inv(s) && Enabled(s, step)
    ensures Next(s, step).orphans != s.orphans <==> LosesClaim(s, step)
    ensures s.orphans <= Next(s, step).orphans
    ensures |Next(s, step).orphans| == |s.orphans| + if LosesClaim(s, step) then 2 else 0
  {
    hide Inv, Evolves, Decide, Finalize, ClaimOf, Expire;
    if step.Acquire? && step.io.Unacknowledged? && step.bid.Some? && step.ask.Some? {
      UnheardReservation(s, step.market, step.at, step.bid.value, step.ask.value);
    } else if LosesClaim(s, step) {
      AbandonedPair(s);
    } else {
      assert s.orphans + {} == s.orphans;
    }
  }

  /** Losing its place while it holds a pair costs the matcher two orders. */
  lemma AbandonedPair(s: System)
    requires Inv(s) && Holds(s.phase)
    ensures Abandoned(s).orphans > s.orphans && |Abandoned(s).orphans| == |s.orphans| + 2
  {
    hide RowsOk, PhaseOk, Decide;
    HeldRowsExist(s);
    assert s.orphans * HeldIds(s.phase) == {};
  }

  lemma UnheardReservation(s: System, market: Market, at: int, b: nat, a: nat)
    requires Inv(s) && Enabled(s, Acquire(market, at, Some(b), Some(a), Unacknowledged))
    ensures var s' := Next(s, Acquire(market, at, Some(b), Some(a), Unacknowledged));
      s'.orphans > s.orphans && |s'.orphans| == |s.orphans| + 2
  {
    hide Inv, Evolves, NoTrade, Expire;
    var e := s.(rows := Expire(s.rows, at));
    StepKeepsInv(s, Acquire(market, at, Some(b), Some(a), Committed));
    AbandonedPair(Reserved(e, at, b, a));
  }

  /** How many steps of a run lose a pair. */
  ghost function Losses(s: System, steps: seq<Step>): nat
    requires Legal(s, steps)
    decreases |steps|
  {
    if steps == [] then 0
    else (if LosesClaim(s, steps[0]) then 1 else 0) + Losses(Next(s, steps[0]), steps[1..])
  }

  /** Over a whole run, two orders are stranded for each losing step, and none otherwise. */
  lemma {:induction false} OrphansCount(s: System, steps: seq<Step>)
    requires Inv(s) && Legal(s, steps)
    ensures |Run(s, steps).orphans| == |s.orphans| + 2 * Losses(s, steps)
    decreases |steps|
  {
    hide Inv, Enabled, Next, LosesClaim;
    if steps != [] {
      StepKeepsInv(s, steps[0]);
      StrandedExactly(s, steps[0]);
      OrphansCount(Next(s, steps[0]), steps[1..]);
    }
  }

  /** The reserved orders are the matcher's pair and nothing else exactly in the runs that lose no pair. */
  lemma NothingStranded(steps: seq<Step>)
    requires Legal(EMPTY, steps)
    ensures var s := Run(EMPTY, steps);
      MatchingIds(s) == HeldIds(s.phase) <==> Losses(EMPTY, steps) == 0
  {
    hide Legal, Run, Losses;
    EmptyIsSafe();
    OrphansCount(EMPTY, steps);
    ReservationIsExclusive(steps);
  }

  /**
   No failure of the match is needed. Two orders that do not even cross are reserved and dropped, and one
   lost release strands both.
   */
  lemma UncrossedPairIsStranded(bid: Order, ask: Order, at: int)
    requires WellFormed(bid) && WellFormed(ask) && bid.status == Active && ask.status == Active
    requires bid.side == Buy && ask.side == Sell && bid.market == ask.market && bid.ticks < ask.ticks
    requires FreshKeys([bid], ask) && !IsExpired(bid, at) && !IsExpired(ask, at)
    ensures var steps := [CreateOrder(bid), CreateOrder(ask),
                          Acquire(bid.market, at, Some(0), Some(1), Committed), Examine, ReleaseMatch(RolledBack)];
      && Legal(EMPTY, steps)
      && Run(EMPTY, steps).orphans == {bid.id, ask.id} && Run(EMPTY, steps).phase.Idle?
  {
    hide Decide, TextLess, Move, Expire;
    var create, also := CreateOrder(bid), CreateOrder(ask);
    var acquire, release := Acquire(bid.market, at, Some(0), Some(1), Committed), ReleaseMatch(RolledBack);
    var s1 := Next(EMPTY, create);
    var s2 := Next(s1, also);
    assert s2.rows == [bid, ask];
    NothingExpires(s2.rows, at);
    CrossesMeansBidAtAsk(bid, ask);
    var s3 := Next(s2, acquire);
    UncrossedIsDropped(s3.phase.c);
    var s4 := Next(s3, Examine);
    RunPrepend(s4, release, []);
    RunPrepend(s3, Examine, [release]);
    RunPrepend(s2, acquire, [Examine, release]);
    RunPrepend(s1, also, [acquire, Examine, release]);
    RunPrepend(EMPTY, create, [also, acquire, Examine, release]);
  }

  lemma NothingExpires(rows: seq<Order>, now: int)
    requires forall i | 0 <= i < |rows| :: !IsExpired(rows[i], now)
    ensures Expire(rows, now) == rows
  {
  }

  lemma UncrossedIsDropped(c: Claim)
    requires !Crosses(c.taker, c.maker)
    ensures Decide(c).Drop?
  {
  }

  /**
   The matcher is never stuck: wherever it stands, its next transaction can run, with any outcome or answer.
   Cancels, expiries and stops can always come in between.
   */
  lemma MatcherNeverStuck(s: System, market: Market, at: int, io: Outcome, reply: Reply) returns (step: Step)
    ensures Enabled(s, step) && !IsApi(step) && !step.Stop?
    ensures step.Execute? ==> step.reply == reply
    ensures step.Acquire? ==> step.market == market && step.at == at
    ensures step.Acquire? || step.FinalizeMatch? || step.MarkFailed? || step.ReleaseMatch? ==> step.io == io
    ensures forall other: Step | other.CancelOrder? || other.ExpireOrders? || other.Stop? :: Enabled(s, other)
  {
    hide Expire, IsPick;
    forall other: Step | other.CancelOrder? || other.ExpireOrders? || other.Stop?
      ensures Enabled(s, other)
    {
    }
    match s.phase
    case Idle =>
      var bid := PickExists(Expire(s.rows, at), market, Buy);
      var ask := PickExists(Expire(s.rows, at), market, Sell);
      step := Acquire(market, at, bid, ask, io);
    case Acquired(_) => step := Examine;
    case Submitting(_, _, _) => step := Execute(reply);
    case Finalizing(_, _, _) =>
      var id := HigherId(s.trades);
      step := FinalizeMatch(Stamp(id, at), io);
    case Failing(_) => step := MarkFailed(io);
    case Releasing(_, _) => step := ReleaseMatch(io);
  }

  lemma {:induction false} HigherId(trades: seq<Trade>) returns (id: nat)
    ensures LaterStamp(trades, Stamp(id, 0)) && forall at :: LaterStamp(trades, Stamp(id, at))
    decreases |trades|
  {
    id := 0;
    if trades != [] {
      var n := |trades| - 1;
      id := HigherId(trades[..n]);
      assert trades == trades[..n] + [trades[n]];
      id := if id > trades[n].id then id else trades[n].id + 1;
    }
  }

  predicate IsApi(step: Step) {
    step.CreateOrder? || step.CancelOrder? || step.ExpireOrders?
  }

  predicate AllApi(steps: seq<Step>) {
    forall k | 0 <= k < |steps| :: IsApi(steps[k])
  }

  /** API steps move no reserved order and do not move the matcher. */
  lemma {:induction false} ApiLeavesReservedAlone(s: System, steps: seq<Step>)
    requires Inv(s) && Legal(s, steps) && AllApi(steps)
    ensures var s' := Run(s, steps);
      && s'.phase == s.phase && s'.orphans == s.orphans && s'.trades == s.trades && s'.log == s.log
      && |s.rows| <= |s'.rows|
      && forall i | 0 <= i < |s.rows| && s.rows[i].status == Matching :: s'.rows[i] == s.rows[i]
    decreases |steps|
  {
    hide Inv, Legal;
    if steps != [] {
      LegalHead(s, steps);
      StepKeepsInv(s, steps[0]);
      ApiLeavesReservedAlone(Next(s, steps[0]), steps[1..]);
    }
  }

  lemma LegalHead(s: System, steps: seq<Step>)
    requires Legal(s, steps) && steps != []
    ensures Enabled(s, steps[0]) && Legal(Next(s, steps[0]), steps[1..])
    ensures Run(s, steps) == Run(Next(s, steps[0]), steps[1..])
  {
  }

  /**
   After a failed match the claim is given back twice. Whatever API steps come between, the second
   release changes no row, even if the first one's acknowledgement was lost.
   */
  lemma SecondReleaseIsIdle(s: System, first: Outcome, between: seq<Step>, second: Outcome)
    requires Inv(s) && s.phase.Failing? && !first.RolledBack?
    requires Legal(Next(s, MarkFailed(first)), between) && AllApi(between)
    ensures var s1 := Run(Next(s, MarkFailed(first)), between);
      && Enabled(s1, ReleaseMatch(second))
      && Next(s1, ReleaseMatch(second)) == s1.(phase := Idle)
  {
    hide Inv, Legal, Run;
    var s0 := Next(s, MarkFailed(first));
    StepKeepsInv(s, MarkFailed(first));
    ApiLeavesReservedAlone(s0, between);
    RunKeepsInv(s0, between);
    var s1 := Run(s0, between);
    ReleaseKeepsInv(s1, Idle);
    assert s1.orphans + {} == s1.orphans;
  }

  /**
   A finalize that committed without the matcher hearing of it is followed by the deferred release. The trade
   stands, and the release changes no row, whatever API steps come between.
   */
  lemma UnheardTradeStands(s: System, stamp: Stamp, between: seq<Step>, release: Outcome)
    requires Inv(s) && Enabled(s, FinalizeMatch(stamp, Unacknowledged))
    requires Legal(Next(s, FinalizeMatch(stamp, Unacknowledged)), between) && AllApi(between)
    ensures var s1 := Run(Next(s, FinalizeMatch(stamp, Unacknowledged)), between);
      && |s1.trades| == |s.trades| + 1
      && Enabled(s1, ReleaseMatch(release))
      && Next(s1, ReleaseMatch(release)) == s1.(phase := Idle)
  {
    hide Inv, Legal, Run, Traded, Decide, FillRow;
    var finalize := FinalizeMatch(stamp, Unacknowledged);
    var s0 := Next(s, finalize);
    StepKeepsInv(s, finalize);
    ReleaseFollows(s, stamp);
    ApiLeavesReservedAlone(s0, between);
    RunKeepsInv(s0, between);
    var s1 := Run(s0, between);
    ReleaseKeepsInv(s1, Idle);
    assert s1.orphans + {} == s1.orphans;
  }

  lemma ReleaseFollows(s: System, stamp: Stamp)
    requires Inv(s) && Enabled(s, FinalizeMatch(stamp, Unacknowledged))
    ensures Next(s, FinalizeMatch(stamp, Unacknowledged)).phase == Releasing(s.phase.c, false)
  {
    hide Traded, Inv, FillRow, Decide, ClaimOf, Expire, Move;
    TradeCommits(s, stamp);
  }

  /** A finalize the database carries out never fails on the rows: both orders are still reserved and still have room. */
  lemma FinalizeNeverRefused(steps: seq<Step>, stamp: Stamp)
    requires Legal(EMPTY, steps) && Run(EMPTY, steps).phase.Finalizing?
    ensures Traded(Run(EMPTY, steps), stamp).Ok?
  {
    hide Inv, Legal, Run, Traded;
    EmptyIsSafe();
    RunKeepsInv(EMPTY, steps);
    TradeCommits(Run(EMPTY, steps), stamp);
  }

  /** Every order in every reachable state: amounts in range, positive ticks, and status filled only when complete. */
  lemma ReachableRowsAreWellFormed(steps: seq<Step>, i: nat)
    requires Legal(EMPTY, steps) && i < |Run(EMPTY, steps).rows|
    ensures var o := Run(EMPTY, steps).rows[i];
      && o.desired > 0 && 0 <= o.filled <= o.desired && o.ticks > 0
      && (o.status == Filled ==> o.filled == o.desired)
  {
    hide Legal, Run;
    EmptyIsSafe();
    RunKeepsInv(EMPTY, steps);
  }

  /** The status endpoint can always tell what is left of an order, and it is what the matcher would compute. */
  lemma RemainingIsAlwaysKnown(steps: seq<Step>, i: nat)
    requires Legal(EMPTY, steps) && i < |Run(EMPTY, steps).rows|
    ensures var o := Run(EMPTY, steps).rows[i];
      && AmountText.RemainingAmount(IntText(o.desired), IntText(o.filled)) == Ok(IntText(Remaining(o)))
      && AmountText.Subtract(IntText(o.desired), IntText(o.filled)) == Ok(IntText(Remaining(o)))
  {
    hide Legal, Run, IntText, ReadInt, TrimSpace;
    ReachableRowsAreWellFormed(steps, i);
    var o := Run(EMPTY, steps).rows[i];
    AmountText.TextIsArithmetic(o.desired, o.filled);
    ReadIntOfText(o.desired);
    ReadIntOfText(o.filled);
  }
}
