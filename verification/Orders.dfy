/**
 Orders, trades and the choices made between orders (internal/orders/order.go, trade_fill.go and the
 pure helpers of repository.go and matching/engine.go).
 */
module Orders {
  import opened Wrappers

  datatype Side = Buy | Sell

  datatype Status = Active | Matching | Filled | Cancelled | Expired

  /** An instrument's key: lower-case asset address and sub id. */
  datatype Market = Market(asset: string, subId: nat)

  /** A row of active_orders. data is the action's data field, None when the action cannot be read. */
  datatype Order = Order(
    id: string,
    owner: string,
    nonce: int,
    market: Market,
    side: Side,
    desired: int,
    filled: int,
    ticks: int,
    limitPrice: string,
    expiry: int,
    data: Option<string>,
    status: Status,
    createdAt: int)

  /** A row of trade_fills. */
  datatype Trade = Trade(
    id: nat,
    market: Market,
    price: string,
    size: int,
    aggressor: Side,
    taker: string,
    maker: string,
    createdAt: int)

  /** Everything about an order that no transaction ever changes. */
  predicate SameTerms(a: Order, b: Order) {
    a == b.(status := a.status, filled := a.filled)
  }

  predicate Terminal(status: Status) {
    status in {Filled, Cancelled, Expired}
  }

  predicate IsExpired(o: Order, now: int) {
    o.expiry <= now
  }

  /** matching.remainingAmount: an overfilled order counts as having nothing left. */
  function Remaining(o: Order): int {
    if o.filled <= o.desired then o.desired - o.filled else 0
  }

  function Min(a: int, b: int): int {
    if a <= b then a else b
  }

  // ----- Price-time order

  /** a comes strictly before b in the book of their side. */
  predicate Better(a: Order, b: Order) {
    match b.side
    case Buy => a.ticks > b.ticks || (a.ticks == b.ticks && a.createdAt < b.createdAt)
    case Sell => a.ticks < b.ticks || (a.ticks == b.ticks && a.createdAt < b.createdAt)
  }

  predicate Eligible(o: Order, market: Market, side: Side) {
    o.market == market && o.side == side && o.status == Active
  }

  /** Row i heads the book of its side; rows that tie on price and time are interchangeable. */
  ghost predicate IsBest(rows: seq<Order>, i: nat, market: Market, side: Side) {
    && i < |rows| && Eligible(rows[i], market, side)
    && forall j | 0 <= j < |rows| && Eligible(rows[j], market, side) :: !Better(rows[j], rows[i])
  }

  /** What "order by ... limit 1" may return. */
  ghost predicate IsPick(rows: seq<Order>, pick: Option<nat>, market: Market, side: Side) {
    match pick
    case Some(i) => IsBest(rows, i, market, side)
    case None => forall j | 0 <= j < |rows| :: !Eligible(rows[j], market, side)
  }

  /** Heading the book, spelled out: nobody offers a better price, and at the same price nobody was there before. */
  lemma BestMeaning(rows: seq<Order>, i: nat, market: Market, side: Side)
    ensures IsBest(rows, i, market, side) <==>
      && i < |rows| && rows[i].market == market && rows[i].side == side && rows[i].status == Active
      && forall j | 0 <= j < |rows| && rows[j].market == market && rows[j].side == side && rows[j].status == Active ::
          && (if side == Buy then rows[j].ticks <= rows[i].ticks else rows[j].ticks >= rows[i].ticks)
          && (rows[j].ticks == rows[i].ticks ==> rows[j].createdAt >= rows[i].createdAt)
  {
  }

  /** Every side of every book has a head, unless it is empty. */
  lemma {:induction false} PickExists(rows: seq<Order>, market: Market, side: Side) returns (pick: Option<nat>)
    ensures IsPick(rows, pick, market, side)
    decreases |rows|
  {
    pick := None;
    if rows != [] {
      var n := |rows| - 1;
      pick := PickExists(rows[..n], market, side);
      assert rows == rows[..n] + [rows[n]];
      if Eligible(rows[n], market, side) && (pick.None? || Better(rows[n], rows[pick.value])) {
        pick := Some(n);
      }
    }
  }

  // ----- Taker and maker

  /** Go's order on strings. */
  predicate TextLess(a: string, b: string) {
    b != "" && (a == "" || a[0] < b[0] || (a[0] == b[0] && TextLess(a[1..], b[1..])))
  }

  lemma {:induction false} TextLessIsTotal(a: string, b: string)
    ensures a == b || TextLess(a, b) || TextLess(b, a)
    ensures !(TextLess(a, b) && TextLess(b, a))
    ensures !TextLess(a, a)
  {
    if a != "" {
      TextLessIsTotal(a[1..], a[1..]);
      if b != "" {
        TextLessIsTotal(a[1..], b[1..]);
        if a[0] == b[0] && a[1..] == b[1..] {
          assert a == [a[0]] + a[1..] == [b[0]] + b[1..] == b;
        }
      }
    }
  }

  /** The later order is the taker; the larger id breaks a tie in time. */
  function ChooseTakerMaker(left: Order, right: Order): (Order, Order) {
    if left.createdAt > right.createdAt then (left, right)
    else if right.createdAt > left.createdAt then (right, left)
    else if TextLess(right.id, left.id) then (left, right)
    else (right, left)
  }

  /** a was there before b; the smaller id counts as earlier when the clock cannot tell. */
  predicate Older(a: Order, b: Order) {
    a.createdAt < b.createdAt || (a.createdAt == b.createdAt && TextLess(a.id, b.id))
  }

  /** Go's order on strings: the first character that differs decides, and a proper prefix comes first. */
  lemma {:induction false} TextLessMeaning(a: string, b: string, k: nat)
    requires k <= |a| && k <= |b| && a[..k] == b[..k]
    requires k == |a| || k == |b| || a[k] != b[k]
    ensures TextLess(a, b) <==> k < |b| && (k == |a| || a[k] < b[k])
  {
    if k > 0 {
      assert a[0] == a[..k][0] == b[..k][0] == b[0];
      assert a[1..][..k - 1] == a[..k][1..] && b[1..][..k - 1] == b[..k][1..];
      TextLessMeaning(a[1..], b[1..], k - 1);
    }
  }

  /**
   The maker is always the older of the two, so the older order sets the price: the one created first, or
   the one with the smaller id when the clock cannot tell.
   */
  lemma OlderMakes(left: Order, right: Order)
    requires left.id != right.id
    ensures var (taker, maker) := ChooseTakerMaker(left, right);
      && Older(maker, taker) && !Older(taker, maker) && {taker, maker} == {left, right}
      && maker.createdAt <= taker.createdAt && (maker.createdAt == taker.createdAt ==> TextLess(maker.id, taker.id))
  {
    TextLessIsTotal(left.id, right.id);
  }

  /** Who is taker does not depend on the order in which the two are given. */
  lemma ChoiceIsSymmetric(a: Order, b: Order)
    requires a.id != b.id
    ensures ChooseTakerMaker(a, b) == ChooseTakerMaker(b, a)
  {
    TextLessIsTotal(a.id, b.id);
  }

  predicate Crosses(taker: Order, maker: Order) {
    match taker.side
    case Buy => taker.ticks >= maker.ticks
    case Sell => taker.ticks <= maker.ticks
  }

  /** Whichever of the two is taker, the test is bid at or above ask. */
  lemma CrossesMeansBidAtAsk(bid: Order, ask: Order)
    requires bid.side == Buy && ask.side == Sell
    ensures var (taker, maker) := ChooseTakerMaker(bid, ask);
      && {taker, maker} == {bid, ask}
      && (Crosses(taker, maker) <==> bid.ticks >= ask.ticks)
  {
  }

  /** The best pair decides for the whole book: when it does not cross, no active pair does. */
  lemma NoMissedCross(rows: seq<Order>, market: Market, b: nat, a: nat, i: nat, j: nat)
    requires IsBest(rows, b, market, Buy) && IsBest(rows, a, market, Sell)
    requires i < |rows| && Eligible(rows[i], market, Buy)
    requires j < |rows| && Eligible(rows[j], market, Sell)
    ensures var (taker, maker) := ChooseTakerMaker(rows[b], rows[a]);
      rows[i].ticks >= rows[j].ticks ==> Crosses(taker, maker)
  {
    assert !Better(rows[i], rows[b]) && !Better(rows[j], rows[a]);
  }
}
