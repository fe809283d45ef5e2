/**
 Nothing is booked without the executor's word: every trade of every run goes back to one execution step
 that was accepted, or answered with the one error that means the fill already happened.
 */
module Answers {
  import opened Orders
  import opened ExecutionUnits
  import opened Protocol
  import opened Safety
  import Reservations

  /** Step i of the run put this claim to the executor with this fill and these units, and got such an answer. */
  ghost predicate Answered(s: System, steps: seq<Step>, i: nat, c: Claim, fill: int, units: Units) {
    && i < |steps| && Legal(s, steps[..i])
    && Run(s, steps[..i]).phase == Submitting(c, fill, units)
    && (steps[i] == Execute(Accepted) || steps[i] == Execute(FillLimitCrossed))
  }

  /** The trade carries out the claim. */
  ghost predicate Books(trade: Trade, f: Fill, c: Claim, fill: int) {
    && f.reservation == c.r && trade.market == c.taker.market && trade.aggressor == c.taker.side
    && trade.taker == c.taker.id && trade.maker == c.maker.id && trade.size == fill && trade.price == c.maker.limitPrice
  }

  ghost predicate TradeAnswered(s: System, steps: seq<Step>, trade: Trade, f: Fill) {
    exists i: nat, c, fill :: Answered(s, steps, i, c, fill, f.units) && Books(trade, f, c, fill)
  }

  /** So it is for all trades made so far, and for the one about to be booked. */
  ghost predicate AllAnswered(s: System, steps: seq<Step>, s': System) {
    && |s'.fills| == |s'.trades|
    && (s'.phase.Finalizing? ==> exists i: nat :: Answered(s, steps, i, s'.phase.c, s'.phase.fill, s'.phase.units))
    && forall k | 0 <= k < |s'.trades| :: TradeAnswered(s, steps, s'.trades[k], s'.fills[k])
  }

  lemma {:induction false} LastStep(s: System, steps: seq<Step>)
    requires Legal(s, steps) && steps != []
    ensures var n := |steps| - 1;
      && Legal(s, steps[..n]) && Enabled(Run(s, steps[..n]), steps[n])
      && Run(s, steps) == Next(Run(s, steps[..n]), steps[n])
    decreases |steps|
  {
    hide Enabled, Next;
    var n := |steps| - 1;
    if n > 0 {
      LastStep(Next(s, steps[0]), steps[1..]);
      assert steps[..n][1..] == steps[1..][..n - 1];
    }
  }

  lemma AnsweredStays(s: System, steps: seq<Step>, n: nat, i: nat, c: Claim, fill: int, units: Units)
    requires n <= |steps| && Answered(s, steps[..n], i, c, fill, units)
    ensures Answered(s, steps, i, c, fill, units)
  {
    hide Legal, Run;
    assert steps[..n][..i] == steps[..i];
  }

  /** The matcher gets ready to book only by such an answer. */
  lemma ReadyByAnswer(s: System, step: Step)
    requires Enabled(s, step) && Next(s, step).phase.Finalizing?
    ensures s.phase == Next(s, step).phase
      || (&& (step == Execute(Accepted) || step == Execute(FillLimitCrossed))
          && var p := Next(s, step).phase; s.phase == Submitting(p.c, p.fill, p.units))
  {
    hide Decide, Traded, Reserved;
    assert forall e: System, at, b: nat, a: nat | b < |e.rows| && a < |e.rows| :: Reserved(e, at, b, a).phase.Acquired? by {
      ReservedIsAcquired();
    }
  }

  lemma ReservedIsAcquired()
    ensures forall e: System, at, b: nat, a: nat | b < |e.rows| && a < |e.rows| :: Reserved(e, at, b, a).phase.Acquired?
  {
  }

  lemma {:induction false} RunIsAnswered(s: System, steps: seq<Step>)
    requires Inv(s) && s.phase.Idle? && s.trades == [] && s.fills == [] && Legal(s, steps)
    ensures AllAnswered(s, steps, Run(s, steps))
    decreases |steps|
  {
    hide Inv, Enabled, Next, Answered, Books;
    if steps != [] {
      var n := |steps| - 1;
      LastStep(s, steps);
      RunIsAnswered(s, steps[..n]);
      Reservations.RunKeepsInv(s, steps[..n]);
      StepIsAnswered(s, steps, Run(s, steps[..n]));
    }
  }

  lemma StepIsAnswered(s: System, steps: seq<Step>, s1: System)
    requires steps != [] && Legal(s, steps[..|steps| - 1]) && s1 == Run(s, steps[..|steps| - 1])
    requires Inv(s1) && Enabled(s1, steps[|steps| - 1]) && AllAnswered(s, steps[..|steps| - 1], s1)
    ensures AllAnswered(s, steps, Next(s1, steps[|steps| - 1]))
  {
    hide Inv, Legal, Run, Enabled, Next;
    var n := |steps| - 1;
    var s' := Next(s1, steps[n]);
    StepKeepsInv(s1, steps[n]);
    if s'.phase.Finalizing? {
      ReadyByAnswer(s1, steps[n]);
      if s1.phase == s'.phase {
        var i: nat :| Answered(s, steps[..n], i, s1.phase.c, s1.phase.fill, s1.phase.units);
        AnsweredStays(s, steps, n, i, s1.phase.c, s1.phase.fill, s1.phase.units);
      } else {
        assert Answered(s, steps, n, s'.phase.c, s'.phase.fill, s'.phase.units);
      }
    }
    forall k | 0 <= k < |s'.trades|
      ensures k < |s'.fills| && TradeAnswered(s, steps, s'.trades[k], s'.fills[k])
    {
      if k < |s1.trades| {
        assert TradeAnswered(s, steps[..n], s1.trades[k], s1.fills[k]);
        var i: nat, c, fill :| Answered(s, steps[..n], i, c, fill, s1.fills[k].units) && Books(s1.trades[k], s1.fills[k], c, fill);
        AnsweredStays(s, steps, n, i, c, fill, s1.fills[k].units);
        assert s'.trades[k] == s1.trades[k] && s'.fills[k] == s1.fills[k];
      } else {
        var i: nat :| Answered(s, steps[..n], i, s1.phase.c, s1.phase.fill, s1.phase.units);
        AnsweredStays(s, steps, n, i, s1.phase.c, s1.phase.fill, s1.phase.units);
        assert Books(s'.trades[k], s'.fills[k], s1.phase.c, s1.phase.fill);
      }
    }
  }

  /**
   Every trade of every run has an execution step behind it, with the trade's own claim, size and units, that
   the executor accepted or reported as filled before.
   */
  lemma EveryTradeWasAnswered(steps: seq<Step>, k: nat)
    returns (i: nat, c: Claim, fill: int)
    requires Legal(EMPTY, steps) && k < |Run(EMPTY, steps).trades|
    ensures var s := Run(EMPTY, steps);
      && k < |s.fills| && i < |steps| && Legal(EMPTY, steps[..i])
      && Run(EMPTY, steps[..i]).phase == Submitting(c, fill, s.fills[k].units)
      && (steps[i] == Execute(Accepted) || steps[i] == Execute(FillLimitCrossed))
      && s.fills[k].reservation == c.r && s.trades[k].size == fill
      && s.trades[k].taker == c.taker.id && s.trades[k].maker == c.maker.id && s.trades[k].price == c.maker.limitPrice
  {
    hide Legal, Run;
    Reservations.EmptyIsSafe();
    RunIsAnswered(EMPTY, steps);
    var s := Run(EMPTY, steps);
    assert TradeAnswered(EMPTY, steps, s.trades[k], s.fills[k]);
    i, c, fill :| Answered(EMPTY, steps, i, c, fill, s.fills[k].units) && Books(s.trades[k], s.fills[k], c, fill);
  }
}
