/**
 One matcher against the shared order table (internal/matching/engine.go, internal/orders/repository.go).
 API transactions may run between any two transactions of the matcher; every database call may commit,
 roll back, or commit without the caller hearing of it; the executor may answer anything; the matcher
 may stop at any point.
 */
module Protocol {
  import opened Wrappers
  import opened Orders
  import opened Tables
  import opened ExecutionUnits

  // ----- State

  /** The pair in the matcher's hands: both orders as read when reserved, their row numbers, and the reservation's number. */
  datatype Claim = Claim(now: int, taker: Order, maker: Order, t: nat, m: nat, r: nat)

  /** Where tickInstrument stands. In Releasing, held tells whether the claim is still reserved; the code does not know. */
  datatype Phase =
    | Idle
    | Acquired(c: Claim)
    | Submitting(c: Claim, fill: int, units: Units)
    | Finalizing(c: Claim, fill: int, units: Units)
    | Failing(c: Claim)
    | Releasing(c: Claim, held: bool)

  /** History: how many rows there were when rows t and m were reserved. */
  datatype Reservation = Reservation(population: nat, t: nat, m: nat)

  /** History: which reservation a trade came from, and the units the executor was given. */
  datatype Fill = Fill(reservation: nat, units: Units)

  /**
   The tables, the matcher, and history: the filled amount each row was created with, the ids whose
   reservation was lost, every reservation made, and one Fill per trade.
   */
  datatype System = System(
    rows: seq<Order>,
    trades: seq<Trade>,
    phase: Phase,
    initial: seq<int>,
    orphans: set<string>,
    log: seq<Reservation>,
    fills: seq<Fill>)

  const EMPTY := System([], [], Idle, [], {}, [], [])

  datatype Outcome = Committed | RolledBack | Unacknowledged

  datatype Reply = Accepted | FillLimitCrossed | Failed

  datatype Step =
    | CreateOrder(order: Order)
    | CancelOrder(owner: string, nonce: int)
    | ExpireOrders(now: int)
    | Acquire(market: Market, at: int, bid: Option<nat>, ask: Option<nat>, io: Outcome)
    | Examine
    | Execute(reply: Reply)
    | FinalizeMatch(stamp: Stamp, io: Outcome)
    | MarkFailed(io: Outcome)
    | ReleaseMatch(io: Outcome)
    | Stop

  function ClaimIds(c: Claim): set<string> {
    {c.taker.id, c.maker.id}
  }

  /** The matcher has reserved its claim and not given it back. */
  predicate Holds(p: Phase) {
    p.Acquired? || p.Submitting? || p.Finalizing? || p.Failing? || (p.Releasing? && p.held)
  }

  function HeldIds(p: Phase): set<string> {
    if Holds(p) then ClaimIds(p.c) else {}
  }

  // ----- The checks between reserving and submitting

  datatype Verdict = Drop | Reject | Submit(fill: int, units: Units)

  function Decide(c: Claim): Verdict {
    if IsExpired(c.taker, c.now) || IsExpired(c.maker, c.now) then Drop
    else if !Crosses(c.taker, c.maker) then Drop
    else
      var fill := Min(Remaining(c.taker), Remaining(c.maker));
      if fill == 0 then Drop
      else
        match ComputeExecutionUnits(c.taker, c.maker, c.maker.ticks, fill)
        case Err(_) => Reject
        case Ok(units) => Submit(fill, units)
  }

  /** The checks in plain comparisons: a pair is dropped, rejected or submitted, and nothing else comes in between. */
  lemma DecideExactly(c: Claim)
    requires WellFormed(c.taker) && WellFormed(c.maker) && c.taker.side != c.maker.side
    ensures var bid, ask := if c.taker.side == Buy then c.taker else c.maker, if c.taker.side == Buy then c.maker else c.taker;
      var left, right := c.taker.desired - c.taker.filled, c.maker.desired - c.maker.filled;
      var fill := if left <= right then left else right;
      var units := ComputeExecutionUnits(c.taker, c.maker, c.maker.ticks, fill);
      if c.taker.expiry <= c.now || c.maker.expiry <= c.now || bid.ticks < ask.ticks || fill == 0 then Decide(c) == Drop
      else if units.Err? then Decide(c) == Reject
      else Decide(c) == Submit(fill, units.value)
  {
    hide ComputeExecutionUnits;
  }

  /** Success, and the one executor error that means the fill already happened. */
  predicate ShouldFinalize(reply: Reply) {
    reply.Accepted? || reply.FillLimitCrossed?
  }

  // ----- Steps

  /** A new order as toParams lets it through. */
  predicate Creatable(rows: seq<Order>, o: Order) {
    WellFormed(o) && o.status == Active && FreshKeys(rows, o)
  }

  predicate LaterStamp(trades: seq<Trade>, stamp: Stamp) {
    forall k | 0 <= k < |trades| :: trades[k].id < stamp.id
  }

  ghost predicate Enabled(s: System, step: Step) {
    match step
    case CreateOrder(o) => Creatable(s.rows, o)
    case CancelOrder(_, _) => true
    case ExpireOrders(_) => true
    case Acquire(market, at, bid, ask, _) =>
      s.phase.Idle? && IsPick(Expire(s.rows, at), bid, market, Buy) && IsPick(Expire(s.rows, at), ask, market, Sell)
    case Examine => s.phase.Acquired?
    case Execute(_) => s.phase.Submitting?
    case FinalizeMatch(stamp, _) => s.phase.Finalizing? && LaterStamp(s.trades, stamp)
    case MarkFailed(_) => s.phase.Failing?
    case ReleaseMatch(_) => s.phase.Releasing?
    case Stop => true
  }

  /** The claim on rows b (the bid) and a (the ask), and the rows with both reserved. */
  function ClaimOf(rows: seq<Order>, at: int, b: nat, a: nat, r: nat): Claim
    requires b < |rows| && a < |rows|
  {
    var (taker, maker) := ChooseTakerMaker(rows[b], rows[a]);
    if taker == rows[b] then Claim(at, taker, maker, b, a, r) else Claim(at, taker, maker, a, b, r)
  }

  function Reserved(s: System, at: int, b: nat, a: nat): System
    requires b < |s.rows| && a < |s.rows|
  {
    var c := ClaimOf(s.rows, at, b, a, |s.log|);
    s.(rows := Reserve(s.rows, ClaimIds(c)),
       phase := Acquired(c),
       log := s.log + [Reservation(|s.rows|, c.t, c.m)])
  }

  /** The matcher loses its place: whatever it held stays reserved for good. */
  function Abandoned(s: System): System {
    s.(phase := Idle, orphans := s.orphans + HeldIds(s.phase))
  }

  function Released(s: System, next: Phase): System
    requires !s.phase.Idle?
  {
    s.(rows := Release(s.rows, ClaimIds(s.phase.c)), phase := next)
  }

  function Traded(s: System, stamp: Stamp): Result<Table, TableError>
    requires s.phase.Finalizing?
  {
    var c := s.phase.c;
    Finalize(Table(s.rows, s.trades), c.taker.id, c.maker.id, c.maker.limitPrice, s.phase.fill, stamp)
  }

  function Next(s: System, step: Step): System
    requires Enabled(s, step)
  {
    match step
    case CreateOrder(o) => s.(rows := s.rows + [o], initial := s.initial + [o.filled])
    case CancelOrder(owner, nonce) => s.(rows := Cancel(s.rows, owner, nonce))
    case ExpireOrders(now) => s.(rows := Expire(s.rows, now))
    case Acquire(market, at, bid, ask, io) =>
      if io.RolledBack? then s
      else
        var e := s.(rows := Expire(s.rows, at));
        if bid.None? || ask.None? then e
        else if io.Committed? then Reserved(e, at, bid.value, ask.value)
        else Abandoned(Reserved(e, at, bid.value, ask.value))
    case Examine =>
      var c := s.phase.c;
      (match Decide(c)
       case Drop => s.(phase := Releasing(c, true))
       case Reject => s.(phase := Failing(c))
       case Submit(fill, units) => s.(phase := Submitting(c, fill, units)))
    case Execute(reply) =>
      if ShouldFinalize(reply) then s.(phase := Finalizing(s.phase.c, s.phase.fill, s.phase.units))
      else s.(phase := Failing(s.phase.c))
    case FinalizeMatch(stamp, io) =>
      var c := s.phase.c;
      (match Traded(s, stamp)
       case Ok(t) =>
         if io.RolledBack? then s.(phase := Releasing(c, true))
         else
           s.(rows := t.rows, trades := t.trades,
              fills := s.fills + [Fill(c.r, s.phase.units)],
              phase := if io.Committed? then Idle else Releasing(c, false))
       case Err(_) => s.(phase := Releasing(c, true)))
    case MarkFailed(io) =>
      if io.RolledBack? then s.(phase := Releasing(s.phase.c, true))
      else Released(s, Releasing(s.phase.c, false))
    case ReleaseMatch(io) =>
      if io.RolledBack? then Abandoned(s) else Released(s, Idle)
    case Stop => Abandoned(s)
  }

  ghost predicate Legal(s: System, steps: seq<Step>)
    decreases |steps|
  {
    steps == [] || (Enabled(s, steps[0]) && Legal(Next(s, steps[0]), steps[1..]))
  }

  /** The state after a legal sequence of steps. */
  ghost function Run(s: System, steps: seq<Step>): System
    requires Legal(s, steps)
    decreases |steps|
  {
    if steps == [] then s else Run(Next(s, steps[0]), steps[1..])
  }

  lemma RunPrepend(s: System, step: Step, rest: seq<Step>)
    requires Enabled(s, step) && Legal(Next(s, step), rest)
    ensures Legal(s, [step] + rest) && Run(s, [step] + rest) == Run(Next(s, step), rest)
  {
    assert ([step] + rest)[1..] == rest;
  }
}
