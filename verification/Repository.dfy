/**
 The order table as the service changes it: one method per transaction of
 internal/orders/repository.go, each an atomic step that commits or leaves the tables alone.
 */
module Repository {
  import opened Wrappers
  import opened Orders
  import opened Tables

  datatype Candidate = Candidate(taker: Order, maker: Order)

  /**
   The pick for one side among the orders still alive at now, in plain comparisons: an active order of the
   market and side with time left, and none such at a better price, or earlier at the same price.
   */
  ghost predicate Leads(rows: seq<Order>, now: int, pick: Option<nat>, market: Market, side: Side) {
    match pick
    case None =>
      forall j | 0 <= j < |rows| && rows[j].market == market && rows[j].side == side && rows[j].status == Active ::
        rows[j].expiry <= now
    case Some(i) =>
      && i < |rows| && rows[i].market == market && rows[i].side == side && rows[i].status == Active && rows[i].expiry > now
      && forall j | 0 <= j < |rows| && rows[j].market == market && rows[j].side == side
                    && rows[j].status == Active && rows[j].expiry > now ::
          && (if side == Buy then rows[j].ticks <= rows[i].ticks else rows[j].ticks >= rows[i].ticks)
          && (rows[j].ticks == rows[i].ticks ==> rows[j].createdAt >= rows[i].createdAt)
  }

  class OrderTable {
    var rows: seq<Order>
    var trades: seq<Trade>

    ghost function Value(): Table
      reads this
    {
      Table(rows, trades)
    }

    constructor ()
      ensures Value() == Table([], [])
    {
      rows, trades := [], [];
    }

    /** Insert, refused by either unique key. */
    method Create(o: Order) returns (r: Result<Order, TableError>)
      modifies this
      ensures r.Ok? <==> forall i | 0 <= i < |old(rows)| ::
        old(rows)[i].id != o.id && !(old(rows)[i].owner == o.owner && old(rows)[i].nonce == o.nonce)
      ensures r.Ok? <==> FreshKeys(old(rows), o)
      ensures r.Ok? ==> r.value == o.(status := Active) && Value() == Table(old(rows) + [o.(status := Active)], old(trades))
      ensures r.Err? ==> r.error == Duplicate && Value() == old(Value())
    {
      for i := 0 to |rows|
        invariant rows == old(rows) && trades == old(trades)
        invariant forall j | 0 <= j < i :: rows[j].id != o.id && (rows[j].owner, rows[j].nonce) != (o.owner, o.nonce)
      {
        if rows[i].id == o.id || (rows[i].owner == o.owner && rows[i].nonce == o.nonce) {
          return Err(Duplicate);
        }
      }
      var active := o.(status := Active);
      rows := rows + [active];
      r := Ok(active);
    }

    method FindActiveByOwnerNonce(owner: string, nonce: int) returns (r: Result<Order, TableError>)
      ensures r.Ok? ==> exists i | 0 <= i < |rows| :: rows[i] == r.value
      ensures r.Ok? ==> r.value.owner == owner && r.value.nonce == nonce && r.value.status == Active
      ensures r.Err? ==> r == Err(NotFound)
      ensures r.Err? ==> forall i | 0 <= i < |rows| :: !(rows[i].owner == owner && rows[i].nonce == nonce && rows[i].status == Active)
    {
      for i := 0 to |rows|
        invariant forall j | 0 <= j < i :: !(rows[j].owner == owner && rows[j].nonce == nonce && rows[j].status == Active)
      {
        if rows[i].owner == owner && rows[i].nonce == nonce && rows[i].status == Active {
          return Ok(rows[i]);
        }
      }
      return Err(NotFound);
    }

    method CancelByOwnerNonce(owner: string, nonce: int) returns (r: Result<Order, TableError>)
      modifies this
      ensures Value() == Table(Cancel(old(rows), owner, nonce), old(trades)) && |rows| == |old(rows)|
      ensures forall i | 0 <= i < |rows| ::
        rows[i] == if old(rows)[i].owner == owner && old(rows)[i].nonce == nonce && old(rows)[i].status == Active
                   then old(rows)[i].(status := Cancelled) else old(rows)[i]
      ensures r.Ok? ==> r.value.owner == owner && r.value.nonce == nonce && r.value.status == Cancelled && r.value in rows
      ensures r.Err? <==> Cancel(old(rows), owner, nonce) == old(rows)
    {
      r := Err(NotFound);
      for i := 0 to |rows|
        invariant trades == old(trades) && |rows| == |old(rows)|
        invariant forall j | 0 <= j < i :: rows[j] == CancelRow(old(rows)[j], owner, nonce)
        invariant forall j | i <= j < |rows| :: rows[j] == old(rows)[j]
        invariant r.Ok? ==> r.value.owner == owner && r.value.nonce == nonce && r.value.status == Cancelled
        invariant r.Ok? ==> exists j | 0 <= j < i :: rows[j] == r.value && rows[j] != old(rows)[j]
        invariant r.Err? ==> forall j | 0 <= j < i :: rows[j] == old(rows)[j]
      {
        if rows[i].owner == owner && rows[i].nonce == nonce && rows[i].status == Active {
          var cancelled := rows[i].(status := Cancelled);
          rows := rows[i := cancelled];
          r := Ok(cancelled);
          assert rows[i] == r.value && rows[i] != old(rows)[i];
        }
      }
      assert rows == Cancel(old(rows), owner, nonce);
    }

    method ExpireOrders(now: int)
      modifies this
      ensures Value() == Table(Expire(old(rows), now), old(trades)) && |rows| == |old(rows)|
      ensures forall i | 0 <= i < |rows| ::
        rows[i] == if old(rows)[i].status == Active && old(rows)[i].expiry <= now
                   then old(rows)[i].(status := Expired) else old(rows)[i]
    {
      for i := 0 to |rows|
        invariant trades == old(trades) && |rows| == |old(rows)|
        invariant forall j | 0 <= j < i :: rows[j] == ExpireRow(old(rows)[j], now)
        invariant forall j | i <= j < |rows| :: rows[j] == old(rows)[j]
      {
        if rows[i].status == Active && IsExpired(rows[i], now) {
          rows := rows[i := rows[i].(status := Expired)];
        }
      }
      assert rows == Expire(old(rows), now);
    }

    /** The head of one side of the book, by one pass over the rows. */
    method LockBestBySide(market: Market, side: Side) returns (pick: Option<nat>)
      ensures IsPick(rows, pick, market, side)
      ensures pick.None? <==> forall j | 0 <= j < |rows| ::
        !(rows[j].market == market && rows[j].side == side && rows[j].status == Active)
      ensures pick.Some? ==>
        && pick.value < |rows|
        && var best := rows[pick.value];
          && best.market == market && best.side == side && best.status == Active
          && forall j | 0 <= j < |rows| && rows[j].market == market && rows[j].side == side && rows[j].status == Active ::
              && (if side == Buy then rows[j].ticks <= best.ticks else rows[j].ticks >= best.ticks)
              && (rows[j].ticks == best.ticks ==> rows[j].createdAt >= best.createdAt)
    {
      pick := None;
      for i := 0 to |rows|
        invariant IsPick(rows[..i], pick, market, side)
      {
        var before := rows[..i];
        assert rows[..i + 1] == before + [rows[i]];
        if Eligible(rows[i], market, side) && (pick.None? || Better(rows[i], rows[pick.value])) {
          pick := Some(i);
        }
      }
      assert rows[..|rows|] == rows;
      if pick.Some? {
        BestMeaning(rows, pick.value, market, side);
      }
    }

    /** All of the orders go from active to matching, or none does. */
    method ReserveOrders(ids: set<string>) returns (ok: bool)
      modifies this
      ensures ok <==> |Changed(old(rows), ids)| == |ids|
      ensures Value() == Table(if ok then Reserve(old(rows), ids) else old(rows), old(trades)) && |rows| == |old(rows)|
      ensures ok ==> forall i | 0 <= i < |rows| ::
        rows[i] == if old(rows)[i].id in ids && old(rows)[i].status == Active
                   then old(rows)[i].(status := Matching) else old(rows)[i]
    {
      var saved := rows;
      var affected := 0;
      for i := 0 to |rows|
        invariant trades == old(trades) && |rows| == |old(rows)|
        invariant forall j | 0 <= j < i :: rows[j] == MoveRow(old(rows)[j], ids, Active, Matching)
        invariant forall j | i <= j < |rows| :: rows[j] == old(rows)[j]
        invariant affected == |Changed(old(rows)[..i], ids)|
      {
        assert old(rows)[..i + 1] == old(rows)[..i] + [old(rows)[i]];
        ChangedNext(old(rows)[..i], old(rows)[i], ids);
        if rows[i].id in ids && rows[i].status == Active {
          rows := rows[i := rows[i].(status := Matching)];
          affected := affected + 1;
        }
      }
      assert old(rows)[..|rows|] == old(rows);
      ok := affected == |ids|;
      if ok {
        assert rows == Reserve(old(rows), ids);
      } else {
        rows := saved;
      }
    }

    method ReleaseMatch(ids: set<string>)
      modifies this
      ensures Value() == Table(Release(old(rows), ids), old(trades)) && |rows| == |old(rows)|
      ensures forall i | 0 <= i < |rows| ::
        rows[i] == if old(rows)[i].id in ids && old(rows)[i].status == Matching
                   then old(rows)[i].(status := Active) else old(rows)[i]
    {
      for i := 0 to |rows|
        invariant trades == old(trades) && |rows| == |old(rows)|
        invariant forall j | 0 <= j < i :: rows[j] == MoveRow(old(rows)[j], ids, Matching, Active)
        invariant forall j | i <= j < |rows| :: rows[j] == old(rows)[j]
      {
        if rows[i].id in ids && rows[i].status == Matching {
          rows := rows[i := rows[i].(status := Active)];
        }
      }
      assert rows == Release(old(rows), ids);
    }

    /**
     Expire, pick both heads, choose taker and maker, reserve. Ties in price and time may be broken
     either way; bid and ask say which rows were taken.
     */
    method AcquireMatchCandidate(market: Market, now: int)
      returns (candidate: Option<Candidate>, bid: Option<nat>, ask: Option<nat>)
      requires UniqueKeys(rows)
      modifies this
      ensures trades == old(trades)
      ensures var expired := Expire(old(rows), now);
        && IsPick(expired, bid, market, Buy) && IsPick(expired, ask, market, Sell)
        && (if bid.None? || ask.None? then candidate.None? && rows == expired
            else
              var (taker, maker) := ChooseTakerMaker(expired[bid.value], expired[ask.value]);
              candidate == Some(Candidate(taker, maker)) && rows == Reserve(expired, {taker.id, maker.id}))
      ensures Leads(old(rows), now, bid, market, Buy) && Leads(old(rows), now, ask, market, Sell)
      ensures candidate.Some? <==> bid.Some? && ask.Some?
      ensures candidate.Some? ==>
        && {candidate.value.taker, candidate.value.maker} == {old(rows)[bid.value], old(rows)[ask.value]}
        && candidate.value.taker.expiry > now && candidate.value.maker.expiry > now
        && candidate.value.maker.createdAt <= candidate.value.taker.createdAt
      ensures |rows| == |old(rows)|
      ensures forall i | 0 <= i < |rows| ::
        rows[i] == if candidate.Some? && (i == bid.value || i == ask.value) then old(rows)[i].(status := Matching)
                   else if old(rows)[i].status == Active && old(rows)[i].expiry <= now then old(rows)[i].(status := Expired)
                   else old(rows)[i]
    {
      hide Better, Leads, ChooseTakerMaker;
      ExpireOrders(now);
      bid := LockBestBySide(market, Buy);
      ask := LockBestBySide(market, Sell);
      PickLeads(old(rows), now, bid, market, Buy);
      PickLeads(old(rows), now, ask, market, Sell);
      if bid.None? || ask.None? {
        return None, bid, ask;
      }
      ghost var expired := rows;
      var (taker, maker) := ChooseTakerMaker(rows[bid.value], rows[ask.value]);
      var ok := ReserveOrders({taker.id, maker.id});
      TakenPair(old(rows), now, bid.value, ask.value, market);
      assert {taker.id, maker.id} == {expired[bid.value].id, expired[ask.value].id};
      PairIsReserved(expired, bid.value, ask.value);
      candidate := Some(Candidate(taker, maker));
    }

    /** Adds to the filled amount of a reserved order; it becomes filled when complete and active again otherwise. */
    method ApplyFill(id: string, amount: int) returns (r: Result<Order, TableError>)
      modifies this
      ensures trades == old(trades)
      ensures Tables.ApplyFill(old(rows), id, amount).Ok? <==> r.Ok?
      ensures r.Ok? ==> rows == Tables.ApplyFill(old(rows), id, amount).value
      ensures r.Ok? ==> r.value == FillRow(old(rows)[Find(old(rows), id, Matching).value], amount)
      ensures r.Err? ==> rows == old(rows) && Tables.ApplyFill(old(rows), id, amount) == Err(r.error)
      ensures r == Err(NotFound) <==> forall i | 0 <= i < |old(rows)| :: !(old(rows)[i].id == id && old(rows)[i].status == Matching)
      ensures r.Err? && r.error != NotFound ==>
        && r.error == FillExceedsDesired
        && exists i | 0 <= i < |old(rows)| ::
            old(rows)[i].id == id && old(rows)[i].status == Matching && old(rows)[i].filled + amount > old(rows)[i].desired
      ensures r.Ok? ==> exists i | 0 <= i < |old(rows)| ::
        && old(rows)[i].id == id && old(rows)[i].status == Matching && old(rows)[i].filled + amount <= old(rows)[i].desired
        && rows == old(rows)[i := r.value] && r.value == old(rows)[i].(filled := r.value.filled, status := r.value.status)
        && r.value.filled == old(rows)[i].filled + amount
        && r.value.status == if r.value.filled == r.value.desired then Filled else Active
    {
      var i := 0;
      while i < |rows| && !(rows[i].id == id && rows[i].status == Matching)
        invariant 0 <= i <= |rows|
        invariant FindFrom(rows, id, Matching, i) == Find(rows, id, Matching)
      {
        i := i + 1;
      }
      if i == |rows| {
        return Err(NotFound);
      }
      var newFilled := rows[i].filled + amount;
      if newFilled > rows[i].desired {
        return Err(FillExceedsDesired);
      }
      var status := if newFilled == rows[i].desired then Filled else Active;
      rows := rows[i := rows[i].(filled := newFilled, status := status)];
      r := Ok(rows[i]);
    }

    method FinalizeMatchWithPrice(taker: string, maker: string, price: string, amount: int, stamp: Stamp)
      returns (ok: bool)
      modifies this
      ensures ok <==> Finalize(old(Value()), taker, maker, price, amount, stamp).Ok?
      ensures Value() == if ok then Finalize(old(Value()), taker, maker, price, amount, stamp).value else old(Value())
      ensures ok ==> exists t, m | 0 <= t < |old(rows)| && 0 <= m < |old(rows)| && t != m ::
        var a, b := old(rows)[t], old(rows)[m];
        && a.id == taker && b.id == maker && a.status == Matching && b.status == Matching
        && a.filled + amount <= a.desired && b.filled + amount <= b.desired
        && rows == old(rows)[t := a.(filled := a.filled + amount, status := if a.filled + amount == a.desired then Filled else Active)]
                            [m := b.(filled := b.filled + amount, status := if b.filled + amount == b.desired then Filled else Active)]
        && trades == old(trades) + [Trade(stamp.id, a.market, if price == "" then b.limitPrice else price, amount, a.side,
                                          taker, maker, stamp.at)]
    {
      var saved := rows;
      var takerOrder := ApplyFill(taker, amount);
      if takerOrder.Err? {
        return false;
      }
      var makerOrder := ApplyFill(maker, amount);
      if makerOrder.Err? {
        rows := saved;
        return false;
      }
      var fillPrice := price;
      if fillPrice == "" {
        fillPrice := makerOrder.value.limitPrice;
      }
      trades := trades + [Trade(stamp.id, takerOrder.value.market, fillPrice, amount, takerOrder.value.side,
                                taker, maker, stamp.at)];
      ok := true;
    }
  }

  // ----- What is picked and taken

  /** A head among the rows after expiry leads the rows before it that are still alive. */
  lemma PickLeads(rows: seq<Order>, now: int, pick: Option<nat>, market: Market, side: Side)
    requires IsPick(Expire(rows, now), pick, market, side)
    ensures Leads(rows, now, pick, market, side)
    ensures pick.Some? ==> Expire(rows, now)[pick.value] == rows[pick.value]
  {
    hide Better, IsBest, Expire;
    var expired := Expire(rows, now);
    forall j | 0 <= j < |rows|
      ensures expired[j] == if rows[j].status == Active && rows[j].expiry <= now then rows[j].(status := Expired) else rows[j]
    {
      ExpiryMeaning(rows, now, j);
    }
    if pick.Some? {
      BestMeaning(expired, pick.value, market, side);
    }
  }

  /** The two heads after expiry as taker and maker, and the rows with both reserved. */
  lemma TakenPair(rows: seq<Order>, now: int, b: nat, a: nat, market: Market)
    requires UniqueKeys(rows)
    requires Leads(rows, now, Some(b), market, Buy) && Leads(rows, now, Some(a), market, Sell)
    ensures var expired := Expire(rows, now);
      var (taker, maker) := ChooseTakerMaker(expired[b], expired[a]);
      && {taker, maker} == {rows[b], rows[a]}
      && maker.createdAt <= taker.createdAt && taker.expiry > now && maker.expiry > now
      && forall i | 0 <= i < |rows| ::
          Reserve(expired, {taker.id, maker.id})[i]
          == if i == b || i == a then rows[i].(status := Matching)
             else if rows[i].status == Active && rows[i].expiry <= now then rows[i].(status := Expired)
             else rows[i]
  {
    hide Expire, TextLess, Older;
    var expired := Expire(rows, now);
    forall i | 0 <= i < |rows|
      ensures expired[i] == if rows[i].status == Active && rows[i].expiry <= now then rows[i].(status := Expired) else rows[i]
    {
      ExpiryMeaning(rows, now, i);
    }
    OlderMakes(expired[b], expired[a]);
    var (taker, maker) := ChooseTakerMaker(expired[b], expired[a]);
    assert forall i | 0 <= i < |rows| :: rows[i].id in {taker.id, maker.id} <==> i == b || i == a;
  }

  // ----- How many rows a reservation changes

  /** The positions that a reservation of ids would change. */
  function Changed(rows: seq<Order>, ids: set<string>): set<nat> {
    set i | 0 <= i < |rows| && rows[i].id in ids && rows[i].status == Active
  }

  lemma ChangedNext(rows: seq<Order>, o: Order, ids: set<string>)
    ensures Changed(rows + [o], ids)
         == Changed(rows, ids) + if o.id in ids && o.status == Active then {|rows|} else {}
  {
    var next := Changed(rows + [o], ids);
    forall i | 0 <= i < |rows|
      ensures i in next <==> i in Changed(rows, ids)
    {
      assert (rows + [o])[i] == rows[i];
    }
    assert |rows| in next <==> o.id in ids && o.status == Active;
  }

  /** Under unique ids, reserving the two heads of the book changes exactly two rows. */
  lemma PairIsReserved(rows: seq<Order>, b: nat, a: nat)
    requires UniqueKeys(rows) && b < |rows| && a < |rows| && b != a
    requires rows[b].status == Active && rows[a].status == Active
    ensures |Changed(rows, {rows[b].id, rows[a].id})| == |{rows[b].id, rows[a].id}|
  {
    var ids := {rows[b].id, rows[a].id};
    assert forall i | 0 <= i < |rows| && rows[i].id in ids :: i == b || i == a;
    assert Changed(rows, ids) == {b, a};
  }
}
