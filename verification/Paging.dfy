/**
 Paging backwards through a market's trades (ListTrades in internal/orders/repository.go and the cursor
 of handleTrades in internal/api/server.go). The query sorts by time and then id; the cursor cuts by id alone.
 */
module Paging {
  import opened Arithmetic
  import opened Orders

  // ----- The query

  /** Newer first: by time, then by id. */
  predicate Newer(a: Trade, b: Trade) {
    a.createdAt > b.createdAt || (a.createdAt == b.createdAt && a.id > b.id)
  }

  /** The rows the query selects: the market's trades below the cursor, zero meaning no cursor. */
  predicate Selected(trade: Trade, market: Market, before: nat) {
    trade.market == market && (before == 0 || trade.id < before)
  }

  ghost predicate DistinctIds(trades: seq<Trade>) {
    forall i, j | 0 <= i < j < |trades| :: trades[i].id != trades[j].id
  }

  ghost predicate Falling(s: seq<Trade>) {
    forall i, j | 0 <= i < j < |s| :: Newer(s[i], s[j])
  }

  /** What "order by created_at desc, trade_id desc limit n" answers: the newest n selected trades, or all if there are fewer. */
  ghost predicate IsPage(trades: seq<Trade>, market: Market, before: nat, limit: nat, page: seq<Trade>) {
    && |page| <= limit && Falling(page)
    && (forall t | t in page :: t in trades && Selected(t, market, before))
    && (forall t | t in trades && Selected(t, market, before) && t !in page ::
          |page| == limit && forall p | p in page :: Newer(p, t))
  }

  /** t in its place among trades that are listed newest first. */
  function Insert(s: seq<Trade>, t: Trade): seq<Trade> {
    if s == [] || Newer(t, s[0]) then [t] + s else [s[0]] + Insert(s[1..], t)
  }

  /** All selected trades, newest first. */
  function Newest(trades: seq<Trade>, market: Market, before: nat): seq<Trade> {
    if trades == [] then []
    else
      var n := |trades| - 1;
      var rest := Newest(trades[..n], market, before);
      if Selected(trades[n], market, before) then Insert(rest, trades[n]) else rest
  }

  function Prefix(s: seq<Trade>, limit: nat): seq<Trade> {
    if |s| <= limit then s else s[..limit]
  }

  function Page(trades: seq<Trade>, market: Market, before: nat, limit: nat): seq<Trade> {
    Prefix(Newest(trades, market, before), limit)
  }

  /** One pass over the table, keeping what is selected in order. */
  method ListTrades(trades: seq<Trade>, market: Market, before: nat, limit: nat) returns (page: seq<Trade>)
    requires DistinctIds(trades)
    ensures page == Page(trades, market, before, limit) && IsPage(trades, market, before, limit, page)
  {
    hide Selected, DistinctIds, Insert, IsPage;
    var all: seq<Trade> := [];
    for i := 0 to |trades|
      invariant all == Newest(trades[..i], market, before)
    {
      assert trades[..i + 1][..i] == trades[..i];
      if Selected(trades[i], market, before) {
        all := Insert(all, trades[i]);
      }
    }
    assert trades[..|trades|] == trades;
    page := if |all| <= limit then all else all[..limit];
    PageIsUnique(trades, market, before, limit, page);
  }

  lemma {:induction false} InsertKeepsOrder(s: seq<Trade>, t: Trade)
    requires Falling(s) && forall x | x in s :: x.id != t.id
    ensures Falling(Insert(s, t))
    ensures forall x :: x in Insert(s, t) <==> x in s || x == t
  {
    if s != [] && !Newer(t, s[0]) {
      assert s[0] in s;
      InsertKeepsOrder(s[1..], t);
      assert s == [s[0]] + s[1..];
      forall x | x in Insert(s[1..], t)
        ensures Newer(s[0], x)
      {
      }
    }
  }

  /** The list holds exactly the selected trades, each newer than those after it. */
  lemma {:induction false} NewestIsSorted(trades: seq<Trade>, market: Market, before: nat)
    requires DistinctIds(trades)
    ensures Falling(Newest(trades, market, before))
    ensures forall t :: t in Newest(trades, market, before) <==> t in trades && Selected(t, market, before)
    decreases |trades|
  {
    hide Selected, Newer, Insert;
    if trades != [] {
      var n := |trades| - 1;
      NewestIsSorted(trades[..n], market, before);
      assert trades == trades[..n] + [trades[n]];
      if Selected(trades[n], market, before) {
        InsertKeepsOrder(Newest(trades[..n], market, before), trades[n]);
      }
    }
  }

  /** The newest of a list, in order, are its first entries. */
  lemma {:induction false} NewestArePrefix(all: seq<Trade>, page: seq<Trade>, limit: nat)
    requires Falling(all) && Falling(page) && |page| <= limit
    requires forall t | t in page :: t in all
    requires forall t | t in all && t !in page :: |page| == limit && forall p | p in page :: Newer(p, t)
    ensures page == Prefix(all, limit)
    decreases |page|
  {
    hide Newer;
    if page == [] {
      assert all != [] ==> all[0] in all;
    } else {
      NewestIsFirst(all, page, limit);
      HeadIsGone(all);
      HeadIsGone(page);
      assert page == [page[0]] + page[1..] && all == [all[0]] + all[1..];
      NewestArePrefix(all[1..], page[1..], limit - 1);
    }
  }

  lemma HeadIsGone(s: seq<Trade>)
    requires Falling(s) && s != []
    ensures Falling(s[1..]) && s[0] !in s[1..]
    ensures forall t :: t in s <==> t == s[0] || t in s[1..]
  {
    assert s == [s[0]] + s[1..];
    forall t | t in s[1..]
      ensures t != s[0]
    {
      assert Newer(s[0], t);
    }
  }

  lemma NewestIsFirst(all: seq<Trade>, page: seq<Trade>, limit: nat)
    requires Falling(all) && Falling(page) && page != []
    requires forall t | t in page :: t in all
    requires forall t | t in all && t !in page :: |page| == limit && forall p | p in page :: Newer(p, t)
    ensures all != [] && page[0] == all[0]
  {
    assert page[0] in page && page[0] in all && all[0] in all;
    var i :| 0 <= i < |all| && all[i] == page[0];
    assert all[0] in page;
    var j :| 0 <= j < |page| && page[j] == all[0];
  }

  lemma PrefixLeads(all: seq<Trade>, limit: nat)
    requires Falling(all)
    ensures var first := Prefix(all, limit);
      && Falling(first) && |first| <= limit && (forall t | t in first :: t in all)
      && (forall t | t in all && t !in first :: |first| == limit && forall p | p in first :: Newer(p, t))
  {
    var first := Prefix(all, limit);
    forall t, p | t in all && t !in first && p in first
      ensures Newer(p, t)
    {
      var j :| 0 <= j < |all| && all[j] == t;
      var i :| 0 <= i < |first| && first[i] == p;
      assert forall k | 0 <= k < |first| :: first[k] == all[k];
      assert j >= |first|;
    }
  }

  /** The query has one answer on every table, whatever its times. */
  lemma PageIsUnique(trades: seq<Trade>, market: Market, before: nat, limit: nat, page: seq<Trade>)
    requires DistinctIds(trades)
    ensures IsPage(trades, market, before, limit, page) <==> page == Page(trades, market, before, limit)
  {
    hide Newer, Selected, Newest, Falling, DistinctIds, Prefix;
    var all := Newest(trades, market, before);
    NewestIsSorted(trades, market, before);
    PrefixLeads(all, limit);
    if IsPage(trades, market, before, limit, page) {
      NewestArePrefix(all, page, limit);
    }
  }

  // ----- Following the cursor

  /** nextBeforeTradeID: the last id of a full page, zero when the page is short. */
  function NextCursor(page: seq<Trade>, limit: nat): nat {
    if |page| == limit && limit > 0 then page[|page| - 1].id else 0
  }

  /** Ids are positive and rise as trades are recorded. Nothing is said of their times. */
  ghost predicate RisingIds(trades: seq<Trade>) {
    && (forall i | 0 <= i < |trades| :: trades[i].id > 0)
    && forall i, j | 0 <= i < j < |trades| :: trades[i].id < trades[j].id
  }

  /** The pages a client collects, one request per table, until a page is short. */
  function Follow(tables: seq<seq<Trade>>, market: Market, before: nat, limit: nat): seq<Trade> {
    if tables == [] then []
    else
      var page := Page(tables[0], market, before, limit);
      var next := NextCursor(page, limit);
      if next == 0 then page else page + Follow(tables[1..], market, next, limit)
  }

  /** A page has come back short, within these requests. */
  ghost predicate Stops(tables: seq<seq<Trade>>, market: Market, before: nat, limit: nat)
    decreases |tables|
  {
    tables != [] &&
    var next := NextCursor(Page(tables[0], market, before, limit), limit);
    next == 0 || Stops(tables[1..], market, next, limit)
  }

  /** Each table is the one before it, possibly with further trades added. */
  ghost predicate Growing(tables: seq<seq<Trade>>) {
    && (forall i | 0 <= i < |tables| :: RisingIds(tables[i]))
    && forall i, j | 0 <= i < j < |tables| :: tables[i] <= tables[j]
  }

  ghost predicate Distinct(s: seq<Trade>) {
    forall i, j | 0 <= i < j < |s| :: s[i] != s[j]
  }

  ghost predicate SameMembers(a: seq<Trade>, b: seq<Trade>) {
    (forall t | t in a :: t in b) && forall t | t in b :: t in a
  }

  /** Every trade of the market, once each. */
  ghost predicate Enumerates(collected: seq<Trade>, trades: seq<Trade>, market: Market) {
    && Distinct(collected)
    && (forall t | t in collected :: t in trades && t.market == market)
    && (forall t | t in trades && t.market == market :: t in collected)
  }

  /** The id of entry m - 1 separates the ids before it from the ids after it. */
  ghost predicate Separates(all: seq<Trade>, m: nat)
    requires 0 < m <= |all|
  {
    && (forall i | 0 <= i < m - 1 :: all[i].id > all[m - 1].id)
    && (forall j | m <= j < |all| :: all[j].id < all[m - 1].id)
  }

  /** The last id of every full page does so. */
  ghost predicate PagesSeparate(all: seq<Trade>, limit: nat)
    requires limit > 0
  {
    forall m | 0 < m <= |all| && m % limit == 0 :: Separates(all, m)
  }

  lemma RisingIsDistinct(trades: seq<Trade>)
    requires RisingIds(trades)
    ensures DistinctIds(trades)
  {
  }

  lemma FallingIsDistinct(s: seq<Trade>)
    requires Falling(s)
    ensures Distinct(s)
  {
  }

  /** What a cursor taken from the list selects, in a table that may have grown: exactly the listed trades with smaller ids. */
  lemma CursorSelects(trades: seq<Trade>, grown: seq<Trade>, market: Market, before: nat, m: nat)
    requires RisingIds(grown) && trades <= grown && 0 < m <= |Newest(trades, market, before)|
    ensures var all := Newest(trades, market, before);
      var c, rest := all[m - 1].id, Newest(grown, market, all[m - 1].id);
      && c > 0 && (before > 0 ==> c < before)
      && Falling(all) && Falling(rest) && DistinctIds(all)
      && forall t :: t in rest <==> t in all && t.id < c
  {
    hide Newest, Newer, DistinctIds, RisingIds;
    var all := Newest(trades, market, before);
    PrefixRises(trades, grown);
    RisingIsDistinct(trades);
    RisingIsDistinct(grown);
    NewestIsSorted(trades, market, before);
    var last := all[m - 1];
    assert last in all;
    NewestIsSorted(grown, market, last.id);
    ListedIdsDiffer(trades, all);
    forall t | t in grown && t.id < last.id
      ensures t in trades
    {
      SmallerIdIsOlder(trades, grown, last, t);
    }
    forall t | t in trades
      ensures t in grown
    {
      var i :| 0 <= i < |trades| && trades[i] == t;
      assert grown[i] == t;
    }
    PositiveIds(trades, last);
  }

  lemma PrefixRises(trades: seq<Trade>, grown: seq<Trade>)
    requires RisingIds(grown) && trades <= grown
    ensures RisingIds(trades)
  {
    assert forall i | 0 <= i < |trades| :: trades[i] == grown[i];
  }

  lemma PositiveIds(trades: seq<Trade>, t: Trade)
    requires RisingIds(trades) && t in trades
    ensures t.id > 0
  {
  }

  lemma SmallerIdIsOlder(trades: seq<Trade>, grown: seq<Trade>, last: Trade, t: Trade)
    requires RisingIds(grown) && trades <= grown && last in trades && t in grown && t.id < last.id
    ensures t in trades
  {
    var i :| 0 <= i < |trades| && trades[i] == last;
    var j :| 0 <= j < |grown| && grown[j] == t;
    assert grown[i] == last;
    assert j < |trades|;
    assert trades[j] == t;
  }

  lemma ListedIdsDiffer(trades: seq<Trade>, all: seq<Trade>)
    requires DistinctIds(trades) && Falling(all) && forall t | t in all :: t in trades
    ensures DistinctIds(all)
  {
    forall i, j | 0 <= i < j < |all|
      ensures all[i].id != all[j].id
    {
      assert all[i] in all && all[j] in all && Newer(all[i], all[j]);
      var k :| 0 <= k < |trades| && trades[k] == all[i];
      var l :| 0 <= l < |trades| && trades[l] == all[j];
    }
  }

  lemma FallingListsAgree(a: seq<Trade>, b: seq<Trade>)
    requires Falling(a) && Falling(b) && SameMembers(a, b)
    ensures a == b
  {
    NewestArePrefix(b, a, |a|);
    NewestArePrefix(a, b, |b|);
  }

  /** The cursor selects exactly what the pages so far left out if and only if it separates their ids. */
  lemma CursorSelectsTheRest(trades: seq<Trade>, grown: seq<Trade>, market: Market, before: nat, m: nat)
    requires RisingIds(grown) && trades <= grown && 0 < m <= |Newest(trades, market, before)|
    ensures var all := Newest(trades, market, before);
      Newest(grown, market, all[m - 1].id) == all[m..] <==> Separates(all, m)
  {
    hide Newest, Newer, RisingIds, Falling;
    var all := Newest(trades, market, before);
    var rest := Newest(grown, market, all[m - 1].id);
    CursorSelects(trades, grown, market, before, m);
    FallingIsDistinct(all);
    TailFalls(all, m);
    if Separates(all, m) {
      forall t
        ensures t in rest <==> t in all[m..]
      {
        if t in all {
          var i :| 0 <= i < |all| && all[i] == t;
          assert i >= m ==> all[m..][i - m] == t;
        }
      }
      FallingListsAgree(rest, all[m..]);
    }
    if rest == all[m..] {
      RestMeansSeparated(all, m);
    }
  }

  lemma RestMeansSeparated(all: seq<Trade>, m: nat)
    requires 0 < m <= |all| && Distinct(all) && DistinctIds(all)
    requires forall t :: t in all[m..] <==> t in all && t.id < all[m - 1].id
    ensures Separates(all, m)
  {
    forall i | 0 <= i < |all| && i != m - 1
      ensures all[i].id < all[m - 1].id <==> i >= m
    {
      assert all[i] in all;
      assert i >= m ==> all[i] == all[m..][i - m];
      if all[i] in all[m..] {
        var j :| 0 <= j < |all| - m && all[m..][j] == all[i];
        assert all[m + j] == all[i];
      }
    }
  }

  lemma TailFalls(all: seq<Trade>, m: nat)
    requires Falling(all) && m <= |all|
    ensures Falling(all[m..])
  {
    hide Newer;
  }

  /** The pages separate exactly when the first does and the rest do. */
  lemma PagesSeparateStep(all: seq<Trade>, limit: nat)
    requires 0 < limit <= |all|
    ensures PagesSeparate(all, limit) <==> Separates(all, limit) && PagesSeparate(all[limit..], limit)
  {
    var rest := all[limit..];
    ExactDiv(limit, limit, 1);
    forall m: nat | m > 0
      ensures (m + limit) % limit == m % limit
    {
      DivModUnique(m + limit, limit, m / limit + 1, m % limit);
    }
    if PagesSeparate(all, limit) {
      forall m | 0 < m <= |rest| && m % limit == 0
        ensures Separates(rest, m)
      {
        assert Separates(all, m + limit);
      }
    }
    if Separates(all, limit) && PagesSeparate(rest, limit) {
      forall m | 0 < m <= |all| && m % limit == 0
        ensures Separates(all, m)
      {
        SeparatesFurther(all, limit, m);
      }
    }
  }

  lemma SeparatesFurther(all: seq<Trade>, limit: nat, m: nat)
    requires 0 < limit <= |all| && 0 < m <= |all| && m % limit == 0
    requires Separates(all, limit) && PagesSeparate(all[limit..], limit)
    ensures Separates(all, m)
  {
    if m < limit {
      DivModUnique(m, limit, 0, m);
    } else if m > limit {
      var rest, k := all[limit..], m - limit;
      DivModUnique(m - limit, limit, m / limit - 1, 0);
      assert Separates(rest, k);
      assert forall i | limit <= i < |all| :: all[i] == rest[i - limit];
    }
  }

  /** Nothing above the cursor is ever collected after it. */
  lemma {:induction false} FollowBelow(tables: seq<seq<Trade>>, market: Market, before: nat, limit: nat)
    requires Growing(tables) && before > 0
    ensures forall t | t in Follow(tables, market, before, limit) :: t.id < before
    decreases |tables|
  {
    hide Newest, Newer, RisingIds;
    if tables != [] {
      var page := Page(tables[0], market, before, limit);
      RisingIsDistinct(tables[0]);
      NewestIsSorted(tables[0], market, before);
      PrefixLeads(Newest(tables[0], market, before), limit);
      var next := NextCursor(page, limit);
      if next > 0 {
        assert page[|page| - 1] in page;
        GrowingTail(tables);
        FollowBelow(tables[1..], market, next, limit);
      }
    }
  }

  lemma GrowingTail(tables: seq<seq<Trade>>)
    requires Growing(tables) && tables != []
    ensures Growing(tables[1..]) && RisingIds(tables[0])
    ensures |tables| > 1 ==> tables[0] <= tables[1] && RisingIds(tables[1])
  {
  }

  /** A page that does not separate either is followed by one of its own trades, or hides a trade for good. */
  lemma UnseparatedFails(tables: seq<seq<Trade>>, market: Market, before: nat, limit: nat)
    requires Growing(tables) && |tables| > 1 && 0 < limit <= |Newest(tables[0], market, before)|
    requires !Separates(Newest(tables[0], market, before), limit)
    ensures var all := Newest(tables[0], market, before);
      var f := all[..limit] + Follow(tables[1..], market, all[limit - 1].id, limit);
      !(Distinct(f) && SameMembers(f, all))
  {
    hide Newest, Newer, RisingIds, Falling, Growing;
    var all := Newest(tables[0], market, before);
    var c := all[limit - 1].id;
    var tail := Follow(tables[1..], market, c, limit);
    var f := all[..limit] + tail;
    GrowingTail(tables);
    CursorSelects(tables[0], tables[1], market, before, limit);
    FollowBelow(tables[1..], market, c, limit);
    if i :| 0 <= i < limit - 1 && all[i].id < c {
      var rest := Newest(tables[1], market, c);
      assert all[i] in all && all[i] in rest;
      NewestOfRest(all, rest, i);
      var j :| 0 <= j <= i && all[j] == rest[0];
      assert tail[0] == rest[0];
      assert f[j] == f[limit];
    } else {
      var j :| limit <= j < |all| && all[j].id > c;
      FallingIsDistinct(all);
      assert all[j] in all;
      assert all[j] !in all[..limit];
      assert all[j] !in tail;
    }
  }

  lemma NewestOfRest(all: seq<Trade>, rest: seq<Trade>, i: nat)
    requires Falling(all) && Falling(rest) && i < |all| && all[i] in rest && forall t | t in rest :: t in all
    ensures rest != [] && exists j | 0 <= j <= i :: all[j] == rest[0]
  {
    assert rest[0] in rest;
    var j :| 0 <= j < |all| && all[j] == rest[0];
    var k :| 0 <= k < |rest| && rest[k] == all[i];
    assert j <= i;
  }

  /** Pages followed from any cursor: either they separate and make up the list, or they do not enumerate it. */
  lemma {:induction false} FollowExactly(tables: seq<seq<Trade>>, market: Market, before: nat, limit: nat)
    requires Growing(tables) && limit > 0
    requires |tables| * limit > (if tables == [] then 0 else |Newest(tables[0], market, before)|)
    ensures var all, f := Newest(tables[0], market, before), Follow(tables, market, before, limit);
      if PagesSeparate(all, limit) then f == all && Stops(tables, market, before, limit)
      else !(Distinct(f) && SameMembers(f, all))
    decreases |tables|
  {
    hide Newest, RisingIds, Growing, Separates, PagesSeparate, Distinct, SameMembers;
    var all := Newest(tables[0], market, before);
    if |all| < limit {
      ShortSeparates(all, limit);
    } else {
      GrowingTail(tables);
      assert Page(tables[0], market, before, limit) == all[..limit];
      CursorSelects(tables[0], tables[0], market, before, limit);
      assert |tables| > 1;
      PagesSeparateStep(all, limit);
      if Separates(all, limit) {
        CursorSelectsTheRest(tables[0], tables[1], market, before, limit);
        assert (|tables| - 1) * limit == |tables| * limit - limit;
        FollowExactly(tables[1..], market, all[limit - 1].id, limit);
        FallingIsDistinct(all);
        SameBehindPage(all, limit, Follow(tables[1..], market, all[limit - 1].id, limit));
        assert all == all[..limit] + all[limit..];
      } else {
        UnseparatedFails(tables, market, before, limit);
      }
    }
  }

  lemma ShortSeparates(all: seq<Trade>, limit: nat)
    requires |all| < limit
    ensures PagesSeparate(all, limit)
  {
    forall m | 0 < m <= |all|
      ensures m % limit != 0
    {
      DivModUnique(m, limit, 0, m);
    }
  }

  /** Behind a page of the list, whatever completes it to the list enumerates the rest. */
  lemma SameBehindPage(all: seq<Trade>, limit: nat, tail: seq<Trade>)
    requires Distinct(all) && limit <= |all|
    ensures Distinct(all[..limit] + tail) && SameMembers(all[..limit] + tail, all) ==>
      Distinct(tail) && SameMembers(tail, all[limit..])
  {
    var f := all[..limit] + tail;
    if Distinct(f) && SameMembers(f, all) {
      assert forall i | 0 <= i < limit :: f[i] == all[i];
      forall i | 0 <= i < |tail|
        ensures tail[i] == f[limit + i] && tail[i] in all[limit..]
      {
        assert tail[i] == f[limit + i];
        assert f[limit + i] in all;
        var j :| 0 <= j < |all| && all[j] == f[limit + i];
        assert j >= limit;
        assert all[limit..][j - limit] == tail[i];
      }
      forall t | t in all[limit..]
        ensures t in tail
      {
        var i :| 0 <= i < |all| - limit && all[limit..][i] == t;
        assert t == all[limit + i] && t in f;
        assert t !in all[..limit];
      }
    }
  }

  /**
   Exactly when paging works at a given page size, on any table with rising ids: when the last id of every
   full page separates the ids listed before it from the ids listed after it. Then the client collects the
   market's trades once each, newest first, whatever is recorded meanwhile; otherwise it repeats or misses some.
   */
  lemma PagingExactly(tables: seq<seq<Trade>>, market: Market, limit: nat)
    requires Growing(tables) && limit > 0 && tables != []
    requires |tables| * limit > |Newest(tables[0], market, 0)|
    ensures var all, collected := Newest(tables[0], market, 0), Follow(tables, market, 0, limit);
      && (Enumerates(collected, tables[0], market) <==> PagesSeparate(all, limit))
      && (PagesSeparate(all, limit) ==> collected == all && Stops(tables, market, 0, limit))
  {
    hide Newest, Newer, RisingIds, Separates, PagesSeparate, Follow, Stops, Distinct, Falling;
    var all := Newest(tables[0], market, 0);
    GrowingTail(tables);
    RisingIsDistinct(tables[0]);
    NewestIsSorted(tables[0], market, 0);
    FallingIsDistinct(all);
    FollowExactly(tables, market, 0, limit);
    assert forall t: Trade | t in tables[0] && t.market == market :: Selected(t, market, 0);
  }

  // ----- All page sizes

  /** The clock of this market's trades never went back. Other markets do not matter. */
  ghost predicate InTimeOrder(trades: seq<Trade>, market: Market) {
    forall i, j | 0 <= i < j < |trades| && trades[i].market == market && trades[j].market == market ::
      trades[i].createdAt <= trades[j].createdAt
  }

  ghost predicate FallingIds(s: seq<Trade>) {
    forall i, j | 0 <= i < j < |s| :: s[i].id > s[j].id
  }

  /** In time order means listed by falling ids. */
  lemma TimeOrderIsIdOrder(trades: seq<Trade>, market: Market)
    requires RisingIds(trades)
    ensures InTimeOrder(trades, market) <==> FallingIds(Newest(trades, market, 0))
  {
    hide Newest;
    var all := Newest(trades, market, 0);
    RisingIsDistinct(trades);
    NewestIsSorted(trades, market, 0);
    if InTimeOrder(trades, market) {
      forall i, j | 0 <= i < j < |all|
        ensures all[i].id > all[j].id
      {
        assert all[i] in all && all[j] in all && Newer(all[i], all[j]);
        var k :| 0 <= k < |trades| && trades[k] == all[i];
        var l :| 0 <= l < |trades| && trades[l] == all[j];
      }
    }
    if FallingIds(all) {
      forall i, j | 0 <= i < j < |trades| && trades[i].market == market && trades[j].market == market
        ensures trades[i].createdAt <= trades[j].createdAt
      {
        assert trades[i] in all && trades[j] in all;
        var k :| 0 <= k < |all| && all[k] == trades[i];
        var l :| 0 <= l < |all| && all[l] == trades[j];
        assert l < k;
      }
    }
  }

  lemma FallingIdsSeparate(all: seq<Trade>, limit: nat)
    requires limit > 0
    ensures FallingIds(all) ==> PagesSeparate(all, limit)
    ensures PagesSeparate(all, 1) ==> FallingIds(all)
  {
    if PagesSeparate(all, 1) {
      forall i, j | 0 <= i < j < |all|
        ensures all[i].id > all[j].id
      {
        assert Separates(all, i + 1);
      }
    }
  }

  /** In time order, paging enumerates at every page size, within the market's trades over the page size plus one requests. */
  lemma PagingEnumerates(tables: seq<seq<Trade>>, market: Market, limit: nat)
    requires Growing(tables) && limit > 0 && tables != [] && InTimeOrder(tables[0], market)
    requires |tables| * limit > |Newest(tables[0], market, 0)|
    ensures var collected := Follow(tables, market, 0, limit);
      && Enumerates(collected, tables[0], market) && FallingIds(collected) && Stops(tables, market, 0, limit)
  {
    hide Newest, Enumerates, PagesSeparate, Follow, Stops;
    GrowingTail(tables);
    TimeOrderIsIdOrder(tables[0], market);
    FallingIdsSeparate(Newest(tables[0], market, 0), limit);
    PagingExactly(tables, market, limit);
  }

  /** Paging works at every page size exactly when the market's times never fell; then, and only then, does it work at page size one. */
  lemma EveryPageSize(tables: seq<seq<Trade>>, market: Market)
    requires Growing(tables) && |tables| > (if tables == [] then 0 else |Newest(tables[0], market, 0)|)
    ensures InTimeOrder(tables[0], market) <==> Enumerates(Follow(tables, market, 0, 1), tables[0], market)
    ensures InTimeOrder(tables[0], market) <==>
      forall limit: nat | limit > 0 :: Enumerates(Follow(tables, market, 0, limit), tables[0], market)
  {
    hide Newest, Enumerates, PagesSeparate, Follow, InTimeOrder, FallingIds;
    var all := Newest(tables[0], market, 0);
    GrowingTail(tables);
    TimeOrderIsIdOrder(tables[0], market);
    PagingExactly(tables, market, 1);
    FallingIdsSeparate(all, 1);
    if InTimeOrder(tables[0], market) {
      forall limit: nat | limit > 0
        ensures Enumerates(Follow(tables, market, 0, limit), tables[0], market)
      {
        MulMonotone(1, limit, |tables|);
        PagingEnumerates(tables, market, limit);
      }
    }
  }

  // ----- Paging always ends

  lemma {:induction false} SublistIsShorter(a: seq<Trade>, b: seq<Trade>)
    requires Falling(a) && Falling(b) && forall t | t in a :: t in b
    ensures |a| <= |b|
    decreases |b|
  {
    hide Newer;
    if a != [] {
      assert a[0] in a && a[0] in b;
      HeadIsGone(a);
      HeadIsGone(b);
      if a[0] == b[0] {
        SublistIsShorter(a[1..], b[1..]);
      } else {
        HeadIsNewest(a, b);
        SublistIsShorter(a, b[1..]);
      }
    }
  }

  lemma HeadIsNewest(a: seq<Trade>, b: seq<Trade>)
    requires Falling(a) && Falling(b) && a != [] && b != [] && a[0] != b[0] && a[0] in b
    ensures b[0] !in a
  {
  }

  /** Whatever the clock did, cursors fall, and a client is done after one request more than there are trades. */
  lemma {:induction false} PagingStops(tables: seq<seq<Trade>>, market: Market, before: nat, limit: nat)
    requires Growing(tables) && limit > 0
    requires |tables| > (if tables == [] then 0 else |Newest(tables[0], market, before)|)
    ensures Stops(tables, market, before, limit)
    decreases |tables|
  {
    hide Newest, RisingIds, Growing, Newer;
    var all := Newest(tables[0], market, before);
    if |all| >= limit {
      GrowingTail(tables);
      CursorSelects(tables[0], tables[1], market, before, limit);
      var rest := Newest(tables[1], market, all[limit - 1].id);
      var others := all[..limit - 1] + all[limit..];
      forall t | t in rest
        ensures t in others
      {
        var i :| 0 <= i < |all| && all[i] == t;
        assert i != limit - 1;
        assert others[if i < limit - 1 then i else i - 1] == t;
      }
      SublistIsShorter(rest, others);
      PagingStops(tables[1..], market, all[limit - 1].id, limit);
    }
  }

  /**
   The clock matters. If a later trade carries an earlier time, the first page of one can be the trade with
   the smaller id, and its cursor then skips the other one for good.
   */
  lemma ClockSkewSkipsATrade(market: Market)
    ensures var a := Trade(1, market, "1", 1, Buy, "t", "m", 20);
      var b := Trade(2, market, "1", 1, Buy, "t", "m", 10);
      && IsPage([a, b], market, 0, 1, [a])
      && NextCursor([a], 1) == 1
      && IsPage([a, b], market, 1, 1, [])
  {
    var a := Trade(1, market, "1", 1, Buy, "t", "m", 20);
    var b := Trade(2, market, "1", 1, Buy, "t", "m", 10);
  }
}
