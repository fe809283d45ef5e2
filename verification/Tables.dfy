/**
 What each transaction of internal/orders/repository.go does to the two tables, as functions on values.
 Rows are kept in insertion order and are never deleted.
 */
module Tables {
  import opened Wrappers
  import opened Orders

  datatype Table = Table(rows: seq<Order>, trades: seq<Trade>)

  /** What the database assigns to a new trade. */
  datatype Stamp = Stamp(id: nat, at: int)

  datatype TableError = NotFound | Duplicate | NotAllReserved | FillExceedsDesired

  // ----- Row updates

  function ExpireRow(o: Order, now: int): Order {
    if o.status == Active && IsExpired(o, now) then o.(status := Expired) else o
  }

  function CancelRow(o: Order, owner: string, nonce: int): Order {
    if o.owner == owner && o.nonce == nonce && o.status == Active then o.(status := Cancelled) else o
  }

  function MoveRow(o: Order, ids: set<string>, from: Status, to: Status): Order {
    if o.id in ids && o.status == from then o.(status := to) else o
  }

  function FillRow(o: Order, amount: int): Order {
    var filled := o.filled + amount;
    o.(filled := filled, status := if filled == o.desired then Filled else Active)
  }

  // ----- Statements

  function Expire(rows: seq<Order>, now: int): (r: seq<Order>)
    ensures |r| == |rows|
  {
    seq(|rows|, i requires 0 <= i < |rows| => ExpireRow(rows[i], now))
  }

  function Cancel(rows: seq<Order>, owner: string, nonce: int): (r: seq<Order>)
    ensures |r| == |rows|
  {
    seq(|rows|, i requires 0 <= i < |rows| => CancelRow(rows[i], owner, nonce))
  }

  function Move(rows: seq<Order>, ids: set<string>, from: Status, to: Status): (r: seq<Order>)
    ensures |r| == |rows|
  {
    seq(|rows|, i requires 0 <= i < |rows| => MoveRow(rows[i], ids, from, to))
  }

  function Reserve(rows: seq<Order>, ids: set<string>): (r: seq<Order>)
    ensures |r| == |rows|
  {
    Move(rows, ids, Active, Matching)
  }

  function Release(rows: seq<Order>, ids: set<string>): (r: seq<Order>)
    ensures |r| == |rows|
  {
    Move(rows, ids, Matching, Active)
  }

  /** The first row with the given id and status. */
  function FindFrom(rows: seq<Order>, id: string, status: Status, from: nat): (r: Option<nat>)
    requires from <= |rows|
    ensures r.Some? ==> from <= r.value < |rows| && rows[r.value].id == id && rows[r.value].status == status
    ensures r.Some? ==> forall j | from <= j < r.value :: !(rows[j].id == id && rows[j].status == status)
    ensures r.None? ==> forall j | from <= j < |rows| :: !(rows[j].id == id && rows[j].status == status)
    decreases |rows| - from
  {
    if from == |rows| then None
    else if rows[from].id == id && rows[from].status == status then Some(from)
    else FindFrom(rows, id, status, from + 1)
  }

  function Find(rows: seq<Order>, id: string, status: Status): (r: Option<nat>)
    ensures r.Some? ==> r.value < |rows| && rows[r.value].id == id && rows[r.value].status == status
    ensures r.None? ==> forall j | 0 <= j < |rows| :: !(rows[j].id == id && rows[j].status == status)
  {
    FindFrom(rows, id, status, 0)
  }

  /** Expiry leaves no live order past its time, and touches nothing else. */
  lemma ExpiryMeaning(rows: seq<Order>, now: int, i: nat)
    requires i < |rows|
    ensures Expire(rows, now)[i]
         == if rows[i].status == Active && rows[i].expiry <= now then rows[i].(status := Expired) else rows[i]
    ensures Expire(rows, now)[i].status == Active ==> !IsExpired(rows[i], now)
    ensures Expire(rows, now)[i] == rows[i] || Expire(rows, now)[i] == rows[i].(status := Expired)
    ensures rows[i].status == Active && !IsExpired(rows[i], now) ==> Expire(rows, now)[i] == rows[i]
    ensures rows[i].status != Active ==> Expire(rows, now)[i] == rows[i]
  {
  }

  // ----- Transactions

  function ApplyFill(rows: seq<Order>, id: string, amount: int): Result<seq<Order>, TableError> {
    match Find(rows, id, Matching)
    case None => Err(NotFound)
    case Some(i) =>
      if rows[i].filled + amount > rows[i].desired then Err(FillExceedsDesired)
      else Ok(rows[i := FillRow(rows[i], amount)])
  }

  /** Both fills and the trade, or nothing. An empty price stands for the maker's limit price. */
  function Finalize(t: Table, taker: string, maker: string, price: string, amount: int, stamp: Stamp): Result<Table, TableError> {
    match ApplyFill(t.rows, taker, amount)
    case Err(e) => Err(e)
    case Ok(rows1) =>
      match ApplyFill(rows1, maker, amount)
      case Err(e) => Err(e)
      case Ok(rows2) =>
        var takerOrder := t.rows[Find(t.rows, taker, Matching).value];
        var makerOrder := rows1[Find(rows1, maker, Matching).value];
        var trade := Trade(stamp.id, takerOrder.market, if price == "" then makerOrder.limitPrice else price, amount,
                           takerOrder.side, taker, maker, stamp.at);
        Ok(Table(rows2, t.trades + [trade]))
  }

  // ----- Keys

  ghost predicate UniqueKeys(rows: seq<Order>) {
    forall i, j | 0 <= i < j < |rows| ::
      rows[i].id != rows[j].id && (rows[i].owner, rows[i].nonce) != (rows[j].owner, rows[j].nonce)
  }

  predicate FreshKeys(rows: seq<Order>, o: Order) {
    forall i | 0 <= i < |rows| :: rows[i].id != o.id && (rows[i].owner, rows[i].nonce) != (o.owner, o.nonce)
  }
}
