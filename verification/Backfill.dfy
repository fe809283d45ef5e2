/**
 Resetting tick columns in SQL (migration 000005) and refilling them at startup
 (BackfillLimitPriceTicks in internal/orders/repository.go).
 */
module Backfill {
  import opened Wrappers
  import opened Numerals
  import opened DecimalText
  import opened Pricing
  import opened Orders
  import opened Admission

  /** The columns of active_orders that the backfill reads and writes; ticks may be null. */
  datatype PriceRow = PriceRow(id: string, market: Market, limitPrice: string, ticks: Option<string>)

  datatype BackfillError = BadTickSize(id: string) | BadPrice(id: string)

  /** The registry: instruments by market. */
  type Registry = map<Market, Instrument>

  /** No tick size reads as zero, by which a price could not be divided; it may not read at all. */
  predicate NonzeroTicks(registry: Registry) {
    forall market | market in registry && ReadFraction(registry[market].tickSize).Ok? :: ValidInstrument(registry[market])
  }

  /** Nulls the ticks of every row whose price has a decimal point. */
  function ResetRow(row: PriceRow): PriceRow {
    if '.' in row.limitPrice then row.(ticks := None) else row
  }

  function Reset(rows: seq<PriceRow>): (r: seq<PriceRow>)
    ensures |r| == |rows|
  {
    seq(|rows|, i requires 0 <= i < |rows| => ResetRow(rows[i]))
  }

  /** What the backfill makes of one row: rows with ticks, and rows of unknown markets, stay as they are. */
  function BackfillRow(row: PriceRow, registry: Registry): Result<PriceRow, BackfillError>
    requires NonzeroTicks(registry)
  {
    if row.ticks.Some? || row.market !in registry then Ok(row)
    else if !ValidInstrument(registry[row.market]) then Err(BackfillError.BadTickSize(row.id))
    else
      match Parse(ConverterOf(registry[row.market]), row.limitPrice)
      case Err(_) => Err(BackfillError.BadPrice(row.id))
      case Ok((ticks, _)) => Ok(row.(ticks := Some(ticks)))
  }

  /** What a row without ticks gets: exactly the ticks that its price is, with a point in it or not. */
  lemma BackfillMeaning(row: PriceRow, registry: Registry, t: nat)
    requires NonzeroTicks(registry) && row.ticks.None? && row.market in registry && ValidInstrument(registry[row.market])
    ensures BackfillRow(row, registry) == Ok(row.(ticks := Some(Text(t)))) <==>
      && t > 0 && ReadFraction(row.limitPrice).Ok?
      && IsTicks(ConverterOf(registry[row.market]), ReadFraction(row.limitPrice).value, t)
  {
    hide Parse, ReadFraction, Text, TicksText, IsTicks;
    var c := ConverterOf(registry[row.market]);
    ConverterIsPositive(registry[row.market]);
    ParseMeaning(c, row.limitPrice, t);
    if Parse(c, row.limitPrice).Ok? && Parse(c, row.limitPrice).value.0 == Text(t) {
      QuotientIsTicks(c, row.limitPrice, t);
    }
  }

  /**
   What the migration is for: a row of a known market whose price has a point gets exactly the ticks that its
   price is, whatever ticks it had; any other row keeps the ticks it had.
   */
  lemma DecimalPricesAreRecomputed(row: PriceRow, registry: Registry, t: nat)
    requires NonzeroTicks(registry) && row.market in registry && ValidInstrument(registry[row.market])
    ensures '.' in row.limitPrice ==>
      (BackfillRow(ResetRow(row), registry) == Ok(row.(ticks := Some(Text(t)))) <==>
       t > 0 && ReadFraction(row.limitPrice).Ok?
       && IsTicks(ConverterOf(registry[row.market]), ReadFraction(row.limitPrice).value, t))
    ensures '.' !in row.limitPrice && row.ticks.Some? ==> BackfillRow(ResetRow(row), registry) == Ok(row)
  {
    hide Parse, ReadFraction, Text, IsTicks, ValidInstrument, ConverterOf;
    if '.' in row.limitPrice {
      BackfillMeaning(ResetRow(row), registry, t);
    }
  }

  lemma QuotientIsTicks(c: Converter, price: string, t: nat)
    requires c.tick.num > 0 && Parse(c, price).Ok? && Parse(c, price).value.0 == Text(t)
    ensures Parse(c, price) == Ok((Text(t), TicksText(c, t)))
  {
    hide ReadFraction, Text, TicksText, Shift;
    var f := ReadFraction(price).value;
    ParseQuotient(c, price, f);
    TextIsInjective(Shift(f.num, c.tick.places) / Shift(c.tick.num, f.places), t);
  }

  ghost predicate UniqueIds(rows: seq<PriceRow>) {
    forall i, j | 0 <= i < j < |rows| :: rows[i].id != rows[j].id
  }

  /** An answer to the query for rows without ticks: each of them once, in whatever order. */
  ghost predicate ListsMissing(rows: seq<PriceRow>, order: seq<nat>) {
    && (forall k | 0 <= k < |order| :: order[k] < |rows| && rows[order[k]].ticks.None?)
    && (forall j, k | 0 <= j < k < |order| :: order[j] != order[k])
    && (forall i | 0 <= i < |rows| && rows[i].ticks.None? :: i in order)
  }

  class PriceTable {
    var rows: seq<PriceRow>

    constructor (rows: seq<PriceRow>)
      ensures this.rows == rows
    {
      this.rows := rows;
    }

    /** Writes the ticks of the rows with this id. */
    method SetTicks(id: string, ticks: string)
      modifies this
      ensures |rows| == |old(rows)|
      ensures forall i | 0 <= i < |rows| ::
        rows[i] == if old(rows)[i].id == id then old(rows)[i].(ticks := Some(ticks)) else old(rows)[i]
    {
      for i := 0 to |rows|
        invariant |rows| == |old(rows)|
        invariant forall j | 0 <= j < i ::
          rows[j] == if old(rows)[j].id == id then old(rows)[j].(ticks := Some(ticks)) else old(rows)[j]
        invariant forall j | i <= j < |rows| :: rows[j] == old(rows)[j]
      {
        if rows[i].id == id {
          rows := rows[i := rows[i].(ticks := Some(ticks))];
        }
      }
    }

    /**
     Reads the rows without ticks, in the order the database answers, then updates them one by one, each
     update on its own. A tick size or price that does not parse stops the run: the rows listed before it
     are filled, it and everything else stays as it was.
     */
    method BackfillLimitPriceTicks(registry: Registry, order: seq<nat>) returns (r: Result<(), BackfillError>)
      requires NonzeroTicks(registry) && UniqueIds(rows) && ListsMissing(rows, order)
      modifies this
      ensures |rows| == |old(rows)|
      ensures r.Ok? ==> forall i | 0 <= i < |rows| :: BackfillRow(old(rows)[i], registry) == Ok(rows[i])
      ensures r.Err? ==> exists k | 0 <= k < |order| ::
        && BackfillRow(old(rows)[order[k]], registry) == Err(r.error)
        && forall i | 0 <= i < |rows| ::
            if i in order[..k] then BackfillRow(old(rows)[i], registry) == Ok(rows[i]) else rows[i] == old(rows)[i]
    {
      hide Parse, ConverterOf, ValidInstrument;
      var items: seq<PriceRow> := [];
      for k := 0 to |order|
        invariant |items| == k
        invariant forall j | 0 <= j < k :: items[j] == rows[order[j]]
      {
        items := items + [rows[order[k]]];
      }
      for k := 0 to |items|
        invariant |rows| == |old(rows)|
        invariant forall i | 0 <= i < |rows| ::
          if i in order[..k] then BackfillRow(old(rows)[i], registry) == Ok(rows[i]) else rows[i] == old(rows)[i]
      {
        var item := items[k];
        NextListed(order, k);
        ghost var at := order[k];
        assert forall i | 0 <= i < |rows| :: (if old(rows)[i].id == item.id then i == at else i != at);
        if item.market in registry {
          if !ValidInstrument(registry[item.market]) {
            return Err(BackfillError.BadTickSize(item.id));
          }
          ConverterIsPositive(registry[item.market]);
          var parsed := Parse(ConverterOf(registry[item.market]), item.limitPrice);
          if parsed.Err? {
            return Err(BackfillError.BadPrice(item.id));
          }
          SetTicks(item.id, parsed.value.0);
        }
      }
      assert order[..|order|] == order;
      return Ok(());
    }
  }

  lemma NextListed(order: seq<nat>, k: nat)
    requires k < |order| && forall i, j | 0 <= i < j < |order| :: order[i] != order[j]
    ensures order[k] !in order[..k]
    ensures forall i: nat :: i in order[..k + 1] <==> i in order[..k] || i == order[k]
  {
    assert order[..k + 1] == order[..k] + [order[k]];
  }

  // ----- Reset then backfill

  /** The instrument an order was admitted under. */
  function AdmittedUnder(market: Market, registry: Registry): Instrument {
    if market in registry then registry[market] else FALLBACK
  }

  /** The ticks and display price that the API stored for some submitted price. */
  ghost predicate StoredByApi(row: PriceRow, registry: Registry) {
    var inst := AdmittedUnder(row.market, registry);
    && row.ticks.Some? && ValidInstrument(inst)
    && exists raw: string :: Parse(ConverterOf(inst), raw) == Ok((row.ticks.value, row.limitPrice))
  }

  /** At tick size 1 prices are displayed without a point, so a reset never touches them. */
  lemma FallbackHasNoPoint(raw: string, ticks: string, display: string)
    requires ValidInstrument(FALLBACK) && Parse(ConverterOf(FALLBACK), raw) == Ok((ticks, display))
    ensures '.' !in display
  {
    hide ReadFraction, TicksText, ConverterOf;
    UnitTick(FALLBACK);
    var c := ConverterOf(FALLBACK);
    var f := ReadFraction(raw).value;
    ParseQuotient(c, raw, f);
    var t := Shift(f.num, c.tick.places) / Shift(c.tick.num, f.places);
    WholeTicksText(c, t);
  }

  lemma WholeTicksText(c: Converter, t: nat)
    requires c.tick == Fraction(1, 0)
    ensures '.' !in TicksText(c, t)
  {
    ZeroFraction(0);
    TextIsCanonical(t);
    NoDotInDigits(Text(t));
  }

  /** Restoring one row. */
  lemma RowIsRestored(row: PriceRow, registry: Registry)
    requires NonzeroTicks(registry) && StoredByApi(row, registry)
    ensures BackfillRow(ResetRow(row), registry) == Ok(row)
  {
    hide Parse, ConverterOf, ValidInstrument;
    ConverterIsPositive(AdmittedUnder(row.market, registry));
    var c := ConverterOf(AdmittedUnder(row.market, registry));
    var raw :| Parse(c, raw) == Ok((row.ticks.value, row.limitPrice));
    ParseIsIdempotent(c, raw);
    if row.market !in registry {
      FallbackHasNoPoint(raw, row.ticks.value, row.limitPrice);
    }
  }

  lemma ConverterIsPositive(inst: Instrument)
    requires ValidInstrument(inst)
    ensures ConverterOf(inst).tick.num > 0
  {
  }

  /**
   Reset then backfill restores every row the API stored, under a registered instrument or not, and
   leaves every other row that already has ticks and no point in its price alone.
   */
  lemma ResetThenBackfillIsIdentity(rows: seq<PriceRow>, registry: Registry, i: nat)
    requires NonzeroTicks(registry) && i < |rows|
    ensures StoredByApi(rows[i], registry) ==> BackfillRow(Reset(rows)[i], registry) == Ok(rows[i])
    ensures rows[i].ticks.Some? && '.' !in rows[i].limitPrice ==> BackfillRow(Reset(rows)[i], registry) == Ok(rows[i])
  {
    if StoredByApi(rows[i], registry) {
      RowIsRestored(rows[i], registry);
    }
  }

  /** The migration and the startup backfill in sequence, on a table of API-stored rows. */
  method MigrateAndBackfill(table: PriceTable, registry: Registry, order: seq<nat>) returns (r: Result<(), BackfillError>)
    requires NonzeroTicks(registry) && UniqueIds(table.rows) && ListsMissing(Reset(table.rows), order)
    requires forall i | 0 <= i < |table.rows| :: StoredByApi(table.rows[i], registry)
    modifies table
    ensures r.Ok? && table.rows == old(table.rows)
  {
    hide StoredByApi, Parse, ConverterOf, ValidInstrument, BackfillRow, ResetRow;
    ghost var before := table.rows;
    table.rows := Reset(table.rows);
    ResetKeepsIds(before);
    forall i | 0 <= i < |before|
      ensures BackfillRow(Reset(before)[i], registry) == Ok(before[i])
    {
      ResetThenBackfillIsIdentity(before, registry, i);
    }
    r := table.BackfillLimitPriceTicks(registry, order);
    assert r.Ok? ==> forall i | 0 <= i < |before| :: Ok(table.rows[i]) == BackfillRow(Reset(before)[i], registry);
  }

  lemma ResetKeepsIds(rows: seq<PriceRow>)
    requires UniqueIds(rows)
    ensures UniqueIds(Reset(rows))
  {
    assert forall i | 0 <= i < |rows| :: Reset(rows)[i].id == rows[i].id;
  }
}
