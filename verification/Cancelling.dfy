/**
 Cancelling through the API: find the active order, check its namespace, cancel by the same key
 (handleCancelOrder and validateCancelNamespace in internal/api/server.go). The steps are separate
 transactions, so anything may happen between the check and the cancel.
 */
module Cancelling {
  import opened Numerals
  import opened TradeData
  import opened Orders
  import opened Tables
  import opened Protocol
  import opened Safety
  import opened Repository
  import Reservations

  datatype CancelRequest = CancelRequest(owner: string, nonce: int, service: string)

  datatype CancelAnswer = Cancelled(order: Order) | NoActiveOrder | Forbidden

  predicate InNamespace(id: string, prefix: string) {
    prefix <= ToLower(TrimSpace(id))
  }

  /** A service may not cancel an order of a protected namespace; requests without a service may cancel anything. */
  predicate MayCancel(service: string, id: string, prefixes: seq<string>) {
    TrimSpace(service) == "" || forall k | 0 <= k < |prefixes| :: !InNamespace(id, prefixes[k])
  }

  /**
   What the check compares, character by character: the order id without surrounding white space, its capitals
   read as small letters, begins with the prefix as configured; and no service is named by white space alone.
   */
  lemma NamespaceMeaning(service: string, left: string, core: string, right: string, prefixes: seq<string>)
    requires AllSpace(left) && AllSpace(right) && core != "" && !IsSpace(core[0]) && !IsSpace(core[|core| - 1])
    ensures MayCancel(service, left + core + right, prefixes) <==>
      || AllSpace(service)
      || forall k | 0 <= k < |prefixes| ::
          || |prefixes[k]| > |core|
          || exists i | 0 <= i < |prefixes[k]| ::
              prefixes[k][i] != if 'A' <= core[i] <= 'Z' then (core[i] as int + 32) as char else core[i]
  {
    hide TrimSpace, IsSpace, AllSpace;
    BlankMeaning(service);
    TrimsPadding(left, core, right);
  }

  method ValidateCancelNamespace(service: string, id: string, prefixes: seq<string>) returns (ok: bool)
    ensures ok <==> MayCancel(service, id, prefixes)
  {
    if TrimSpace(service) == "" {
      return true;
    }
    for k := 0 to |prefixes|
      invariant forall j | 0 <= j < k :: !InNamespace(id, prefixes[j])
    {
      if InNamespace(id, prefixes[k]) {
        return false;
      }
    }
    return true;
  }

  /** The handler when nothing comes between its transactions. */
  method HandleCancelOrder(table: OrderTable, req: CancelRequest, prefixes: seq<string>) returns (r: CancelAnswer)
    requires UniqueKeys(table.rows)
    modifies table
    ensures table.trades == old(table.trades)
    ensures r.Cancelled? ==>
      table.rows == Cancel(old(table.rows), req.owner, req.nonce) && r.order in table.rows
        && r.order.owner == req.owner && r.order.nonce == req.nonce && r.order.status == Status.Cancelled
        && MayCancel(req.service, r.order.id, prefixes)
    ensures !r.Cancelled? ==> table.rows == old(table.rows)
    ensures r.NoActiveOrder? <==> forall i | 0 <= i < |old(table.rows)| ::
      !(old(table.rows)[i].owner == req.owner && old(table.rows)[i].nonce == req.nonce && old(table.rows)[i].status == Active)
    ensures r.Forbidden? ==> exists i | 0 <= i < |old(table.rows)| ::
      && old(table.rows)[i].owner == req.owner && old(table.rows)[i].nonce == req.nonce
      && !MayCancel(req.service, old(table.rows)[i].id, prefixes)
  {
    hide MayCancel;
    var target := table.FindActiveByOwnerNonce(req.owner, req.nonce);
    if target.Err? {
      return NoActiveOrder;
    }
    ghost var i :| 0 <= i < |table.rows| && table.rows[i] == target.value;
    var ok := ValidateCancelNamespace(req.service, target.value.id, prefixes);
    if !ok {
      return Forbidden;
    }
    ghost var before := table.rows;
    var cancelled := table.CancelByOwnerNonce(req.owner, req.nonce);
    CancelChangesOneRow(before, i, req.owner, req.nonce);
    assert table.rows[i] != before[i];
    r := CancelAnswer.Cancelled(cancelled.value);
    assert forall j | 0 <= j < |before| :: table.rows[j].id == before[j].id;
  }

  /** Under unique keys, cancelling by owner and nonce can only touch the one row with that key. */
  lemma CancelChangesOneRow(rows: seq<Order>, i: nat, owner: string, nonce: int)
    requires UniqueKeys(rows) && i < |rows| && rows[i].owner == owner && rows[i].nonce == nonce
    ensures forall j | 0 <= j < |rows| && j != i :: Cancel(rows, owner, nonce)[j] == rows[j]
    ensures Cancel(rows, owner, nonce)[i] == CancelRow(rows[i], owner, nonce)
  {
  }

  /**
   Whatever runs between the check and the cancel, the cancel can only reach the order that was checked.
   So a service-tagged request never cancels an order of a protected namespace.
   */
  lemma CancelReachesTheCheckedOrder(s: System, between: seq<Step>, i: nat, req: CancelRequest, prefixes: seq<string>)
    requires Inv(s) && Legal(s, between)
    requires i < |s.rows| && s.rows[i].owner == req.owner && s.rows[i].nonce == req.nonce
    requires MayCancel(req.service, s.rows[i].id, prefixes)
    ensures var s1 := Run(s, between);
      var s2 := Next(s1, CancelOrder(req.owner, req.nonce));
      && |s2.rows| == |s1.rows| && |s.rows| <= |s1.rows|
      && s1.rows[i].id == s.rows[i].id
      && forall j | 0 <= j < |s1.rows| && s2.rows[j] != s1.rows[j] ::
          && j == i && s1.rows[j].status == Active && s2.rows[j] == s1.rows[j].(status := Status.Cancelled)
          && MayCancel(req.service, s1.rows[j].id, prefixes)
  {
    hide Legal, Run, MayCancel;
    Reservations.RunKeepsInv(s, between);
    var s1 := Run(s, between);
    assert RowEvolves(s, s.rows[i], s1.rows[i]);
    CancelChangesOneRow(s1.rows, i, req.owner, req.nonce);
  }
}
