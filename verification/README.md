# Verification of the markets service

A Dafny model of the off-chain matching backend and proofs about it. `dafny verify dfyconfig.toml`
checks everything.

## What is modelled

**The matching protocol.** The order table is a list of rows in insertion order; the class
`Repository.OrderTable` has one method per transaction, with the loops that the SQL statements stand
for, each proved against a function on table values (`Tables`). `Engine.TickInstrument` is one tick of the
matcher with its release flag and its ways out. `Protocol` is the same matcher as a state machine: its
transactions are separate steps, API transactions run between any two of them, every database call may
commit, roll back or commit unheard, the executor may answer anything, and the matcher may stop at any
point. `Engine.TickIsRun` ties the two together. On top stand `Safety` (the step invariant),
`Reservations`, `Priority`, `Conservation`, `Answers` and `Clearing`.

**Units.** `ExecutionUnits` converts ticks and book amounts to the signed on-chain units, `TradeData`
decodes the signed tuple from its seven words (Solidity Contract ABI Specification, section "Formal
Specification of the Encoding"), and `Admission` is the arithmetic by which the API lets orders in.

**Decimal text.** `Numerals` and `DecimalText` work on digits; `Pricing` is the tick converter,
`Decimals` the rounding printer, `SpotContract` the spot translation with its inverted price, `SpotEcho` its round
trip. `Backfill`, `Paging` and `Cancelling` are the startup backfill, the trade cursor and the cancel handler.

Conventions. Amounts, ticks and fills are integers in the table; the text columns hold exactly the text of these
integers, and `AmountText.TextIsArithmetic` says that the service's text helpers then are integer arithmetic.
`n * 10^k` is written `Shift(n, k)`. Ties in price and time, which the database may break either way, are inputs,
and so is the order in which the backfill query lists its rows. Clock, executor answer, database outcome and
trade stamps are inputs of steps. The keys of the table are unique, as its primary key and its index on owner
and nonce demand (migrations/000001_create_active_orders.up.sql:2, :22).

## What was found

- An order may be created already complete (filled equals desired): every admitted request is admitted again with
  its whole amount given as filled (`Admission.CompleteIsAdmitted`, for one `Admission.OneCompleteContract`). It stays
  active. A market can trade exactly while some pair of heads crosses, both still want something and are signed alike
  (`Clearing.StalledExactly`); once no pair does, it stands still for good unless orders leave or arrive
  (`Clearing.StallIsForever`). The clearing results therefore ask that active orders still want something.
- A data field with an upper-case `0X` prefix passes the API and is unreadable to the matcher: exactly that spelling
  divides the decoders (`TradeData.DecodersAgree`), and every positive tuple can be sent in it
  (`TradeData.UpperPrefixIsAdmitted`).
- An order admitted by the compatibility rule for raw amounts never converts (`Admission.CompatNeverConverts`), and the
  rule does admit orders: any that signs its plain number of contracts (`Admission.PlainAmountNeverConverts`).
- `formatDecimal` rounds half up from zero on but truncates below zero. Below zero it is nearest exactly when at most
  half a unit is dropped (`Decimals.NearestExactly`); -0.6 to no places prints as 0 (`Decimals.NegativeIsNotNearest`).
- The spot echo recovers every price up to 1000000.707106 cNGN per USDC and fails at the next millionth, for every
  admitted order (`SpotEcho.NextPriceIsLost`), of which there are (`SpotEcho.LostPriceIsAdmitted`);
  `SpotEcho.EchoRoundTrip` gives the exact condition for all prices and sizes.
- Paging sorts by time but cuts by id. At a given page size it lists every trade once exactly when the last id of each
  full page separates the ids before it from those after it (`Paging.PagingExactly`); at every page size, or at size
  one, exactly when the market's times never fall as its ids rise (`Paging.EveryPageSize`). With a clock set back a
  trade can be skipped (`Paging.ClockSkewSkipsATrade`); the client is done after a bounded number of requests all the
  same (`Paging.PagingStops`).
- A reserved pair can be stranded for good, and nothing in the code sets it free (`Reservations.OrphansNeverMove`).
  It happens exactly when the reservation commits without the matcher hearing of it, when the deferred release fails
  while the pair is still reserved, or when the matcher stops with a pair in hand (`Reservations.StrandedExactly`,
  counted over whole runs by `Reservations.OrphansCount`). No failed match is needed: two orders that do not even
  cross and one lost release are enough (`Reservations.UncrossedPairIsStranded`).
- The repository's README names multi-market support as out of scope, while the matcher's loop ticks every
  enabled instrument (internal/matching/engine.go:47-49). The model follows the code.

## Model

| member | source | states |
|---|---|---|
| Clearing.EnoughTicksClearTheMarket | internal/matching/engine.go:54-244 | on a market left alone whose orders are signed alike and still want something, as many ticks as active orders less one leave the book uncrossed, and the traded volume is the maximum over all prices of the smaller of bid and ask depth |
| Clearing.SessionClears | internal/orders/repository.go:361-424 | any session of ticks, of any markets in any order, that ends with the market uncrossed has traded in it exactly that maximum |
| Clearing.SessionTerminates | internal/matching/engine.go:116-122 | n active orders allow at most n - 1 matches however long the session, n - 1 ticks of the market uncross it, and uncrossed stays uncrossed |
| Clearing.MaximalVolumeOfFilled | internal/matching/engine.go:116-139 | filling the best crossing pair by the smaller remainder takes exactly that much off the volume any single price can still clear |
| Clearing.CrossedBookTrades | internal/matching/engine.go:92-157 | a tick of a tradable market trades if and only if some active bid is at or above some active ask |
| Clearing.MatchedPricesRetreat | internal/orders/repository.go:663-712 | of two ticks of one market in any session, expiries and refusals included, the later one picks no bid above the earlier one's and no ask below it: matched bid prices never rise, matched ask prices never fall |
| Clearing.NoNewActiveOrders | internal/orders/repository.go:742-786 | in any session of any ticks, a row active at the end was active at the start, on the same terms |
| Clearing.StallIsForever | internal/matching/engine.go:92-157 | while nothing of a stalled market expires, every session of whatever length leaves its book as it was and records no trade in it |
| Clearing.StalledExactly | internal/matching/engine.go:97-157 | a market is stalled, no pair of heads crossing, both still wanting something and signed alike, exactly when none of its possible ticks trades |
| Clearing.PairFilledDepth | internal/orders/repository.go:742-786 | a match lowers bid depth at every price up to the bid and ask depth at every price from the ask by the fill, and shrinks the book |
| Conservation.BookIsConserved | internal/orders/repository.go:449-480 | over every interleaving, an order's filled amount since creation is the sum of the trades naming it, and buys and sells of a market each gained exactly its traded volume |
| Conservation.SignedAmountIsConserved | internal/matching/trade_units.go:78-104 | over every interleaving, an order's executor amounts sum to its own constant scale times what it was filled, never above its signed amount, equal to it once complete; an order whose signature does not fit is never filled |
| Conservation.FilledMeansSigned | internal/matching/trade_units.go:174-186 | over every interleaving, an order that was ever filled carries a readable tuple of its own asset, sub id and side with positive multiples of its ticks and amount |
| Conservation.ExecutedWithinSignedLimits | internal/matching/trade_units.go:106-111 | every trade of every run went out at exactly the maker's signed price, within the taker's signed limit, in both orders' own scale |
| Conservation.TradeMovesMarket | internal/orders/repository.go:788-813 | one committed trade adds its size once to each side of its market and to no other market |
| Conservation.RunKeepsBalance | internal/orders/repository.go:742-813 | order, market and signed-unit balance and the trade log survive every legal sequence of steps |
| Priority.PriceTimePriority | internal/orders/repository.go:663-686 | in every reachable state, whoever had a better price than a traded order, or the same price and an earlier time, when its pair was reserved is filled, cancelled, expired or stuck in a lost reservation; the trade names the pair at the older order's price; no reservation has two trades |
| Priority.ReservedPairLeads | internal/orders/repository.go:380-405 | of the orders that existed when the matcher's pair was reserved, none still live had a better price, or the same price and an earlier time |
| Priority.NoArrivalsNoOvertaking | internal/orders/repository.go:663-686 | with no arrivals after an idle moment, every later trade has all orders of both sides with a better price, or the same price and an earlier time, finished or stuck |
| Priority.StepKeepsFills | internal/orders/repository.go:449-480 | every step keeps: trades carry out their reservations in order, at most one each, with rising ids |
| Reservations.ReservationIsExclusive | internal/matching/engine.go:80-90 | in every reachable state the reserved orders are exactly the held pair and the orphans, disjoint; the held pair is a buy and a sell of one market, neither expired by the tick's clock |
| Reservations.TerminalIsFinal | internal/orders/repository.go:219-226 | filled, cancelled and expired rows never change again in any column, whatever runs |
| Reservations.OrphansNeverMove | internal/matching/engine.go:85-89 | an order whose release was lost stays reserved and unfilled further through every run |
| Reservations.StrandedExactly | internal/orders/repository.go:401-403 | a step strands a pair if and only if it is a reservation committed unheard, a deferred release rolled back while the pair is held, or a stop with a pair in hand; then exactly two orders |
| Reservations.OrphansCount | internal/matching/engine.go:80-90 | over every run, two orders are stranded for each such step and none otherwise |
| Reservations.NothingStranded | internal/matching/engine.go:80-90 | the reserved orders of a reachable state are the matcher's pair and no others exactly in the runs without such a step |
| Reservations.UncrossedPairIsStranded | internal/matching/engine.go:97-105 | any two orders that do not cross are reserved and dropped, and one rolled-back release strands both |
| Reservations.ApiLeavesReservedAlone | internal/orders/repository.go:731-740 | no sequence of creates, cancels and expiries touches a reserved order or moves the matcher |
| Reservations.SecondReleaseIsIdle | internal/matching/engine.go:201-205 | the deferred release after a failed match changes no row, whatever API transactions came between, even if the first one's answer was lost |
| Reservations.UnheardTradeStands | internal/matching/engine.go:208-214 | when a finalize committed unheard, its trade stands and the deferred release changes no row, whatever API transactions came between |
| Reservations.FinalizeNeverRefused | internal/orders/repository.go:742-771 | in every reachable state a finalize finds both orders reserved with room for the fill |
| Reservations.ReachableRowsAreWellFormed | internal/orders/repository.go:756-771 | every row of every reachable state has positive desired amount and ticks, a filled amount within it, and status filled only when complete |
| Reservations.RemainingIsAlwaysKnown | internal/api/server.go:596-610 | the remaining-amount helpers of API and matcher never fail on a reachable row and agree |
| Reservations.MatcherNeverStuck | internal/matching/engine.go:54-244 | in every state the matcher's next transaction can run, with any outcome and any answer, and cancels, expiries and stops can come before it |
| Safety.StepKeepsInv | internal/orders/repository.go:361-480 | every step keeps rows, claim and ownership in order, changes rows only as allowed, and trades only in a committed finalize |
| Safety.CommitKeepsInv | internal/orders/repository.go:449-480 | a committed finalize fills exactly the two claimed rows, appends the one trade that names them, and gives up the claim |
| Safety.TradeCommits | internal/orders/repository.go:464-479 | from a claim in hand the finalize transaction always succeeds, with taker, maker, price and size as claimed |
| Safety.ReleaseKeepsInv | internal/orders/repository.go:426-439 | a release frees the claimed rows while they are held and is a no-op once they are not |
| Engine.TickInstrument | internal/matching/engine.go:54-244 | the imperative tick, with its release flag, brings the table to Tick's result for heads of the book it picked, submits exactly the units of a submittable pair, and books nothing on a failed answer |
| Engine.TickEffect | internal/matching/engine.go:54-244 | besides expiry a tick either changes nothing or fills its pair by the smaller remainder and records one trade of that size at the maker's price |
| Engine.TickTradesExactly | internal/matching/engine.go:92-183 | a tick that found both sides trades if and only if bid is at ask or above, both orders still want something, the signatures agree, and the executor answers accepted or already filled |
| Engine.FailedReplyBooksNothing | internal/matching/engine.go:201-205 | a tick whose match the executor failed records no trade and leaves every row as expiry alone would |
| Engine.AnsweredMatchIsBooked | internal/matching/engine.go:169-222 | accepted or reported as filled before, a pair that could be submitted is filled by the smaller of what it had left, with one trade of that size |
| Answers.EveryTradeWasAnswered | internal/matching/engine.go:169-222 | every trade of every run, whatever runs between, goes back to an execution step with its claim, size and units that was accepted or reported as filled before |
| Engine.TickIsRun | internal/matching/engine.go:54-244 | undisturbed, the protocol's separate steps end idle with exactly the tables of one tick |
| Engine.ReleaseUndoesReserve | internal/orders/repository.go:714-729 | releasing what was just reserved restores every row |
| Engine.TickKeepsTable | internal/orders/repository.go:742-786 | ticks keep keys unique and amounts in range |
| Repository.OrderTable.Create | internal/orders/repository.go:142-217 | a new row is appended as active exactly when neither its id nor its owner and nonce exist; otherwise nothing changes |
| Repository.OrderTable.CancelByOwnerNonce | internal/orders/repository.go:219-254 | exactly the active rows with that key become cancelled; the answer is an error exactly when nothing changed |
| Repository.OrderTable.FindActiveByOwnerNonce | internal/orders/repository.go:256-293 | an active row with the key, or not found exactly when there is none |
| Repository.OrderTable.ExpireOrders | internal/orders/repository.go:731-740 | exactly the active rows whose expiry is not after the clock become expired, all other rows and the trades stay |
| Repository.OrderTable.LockBestBySide | internal/orders/repository.go:663-712 | one pass finds an active row of the market and side with no better price among them and, at its price, no earlier time, or none exactly when there is no such row |
| Repository.OrderTable.ReserveOrders | internal/orders/repository.go:714-729 | reserves all of the ids or none, succeeding exactly when as many rows change as there are ids |
| Repository.OrderTable.ReleaseMatch | internal/orders/repository.go:426-439 | the reserved rows among the ids become active, all others keep their status |
| Repository.OrderTable.AcquireMatchCandidate | internal/orders/repository.go:361-424 | among the orders with time left the pair taken leads each side by price and then time, the older one makes, both are reserved and nothing else changes but expiry; with one side empty nothing is taken |
| Repository.OrderTable.ApplyFill | internal/orders/repository.go:742-786 | adds to the filled amount of a reserved row with that id, filled when complete and active otherwise; refuses, changing nothing, exactly when there is none or the amount exceeds what it wants |
| Repository.OrderTable.FinalizeMatchWithPrice | internal/orders/repository.go:449-480 | both reserved rows are filled and one trade of the taker's market and side is recorded, at the maker's limit price if none is given, or the tables stay as they were |
| Repository.PairIsReserved | internal/orders/repository.go:725-727 | with unique ids, reserving two heads always changes exactly two rows |
| Orders.NoMissedCross | internal/matching/engine.go:97-105 | if the two heads do not cross, no active bid and ask of the market cross |
| Orders.CrossesMeansBidAtAsk | internal/matching/engine.go:254-272 | the cross test is bid ticks at or above ask ticks, whichever side is taker |
| Orders.ChoiceIsSymmetric | internal/orders/repository.go:815-826 | who is taker does not depend on the order of the arguments |
| Orders.OlderMakes | internal/orders/repository.go:815-826 | the maker is the order created first, the smaller id breaking a tie in time |
| Orders.TextLessMeaning | internal/orders/repository.go:815-826 | ids compare by the first character that differs, a proper prefix first |
| Orders.BestMeaning | internal/orders/repository.go:663-686 | heading a side means active, no better price on the side, and no earlier time at that price |
| ExecutionUnits.CrossingPairConverts | internal/matching/trade_units.go:27-118 | for a crossing pair filled by the smaller remainder at the maker's ticks, conversion succeeds if and only if both decoded tuples name their order's market and side, in positive multiples of its ticks and amount, at equal rates; the price is the maker's signed limit and the amount fits both scaled remainders |
| ExecutionUnits.ConversionExactly | internal/matching/trade_units.go:27-186 | for any two orders and any fill, conversion succeeds if and only if the decoded tuples agree so, the fill is positive and within what both orders have left, and its ticks respect both limits; it then has the maker's signed price per tick and amount per unit |
| ExecutionUnits.UnitsMeaning | internal/matching/trade_units.go:87-131 | any conversion that succeeds has both tuples naming their order's asset, sub id and side, uses one scale each way for both orders and keeps both signed limits |
| ExecutionUnits.SharedScaleMeaning | internal/matching/trade_units.go:133-156 | the inferred scale is the one positive factor taking both book values to both signed values, and an error means there is none |
| ExecutionUnits.SharedIsTwoHalves | internal/matching/trade_units.go:141-155 | pairwise inference succeeds exactly when each order's own half does and the halves agree |
| Admission.AdmittedIsWellFormed | internal/api/orders.go:128-184 | an admitted order has amounts and ticks in range, a display price that is exactly its ticks, and amounts that are exactly the requested numbers of steps |
| Admission.AdmittedExactly | internal/api/orders.go:39-184 | a request becomes a given row if and only if its time is not up, its fields are the row's side and positive numbers of ticks and steps, its filled amount is steps within them, and, under enforcement, its data fits the row |
| Admission.EngineFieldsExactly | internal/api/orders.go:116-126 | a spot market's fields are the translated intent or plain fields; any other market takes plain fields and refuses whoever names a spec or an intent |
| Admission.DataFitsExactly | internal/api/orders.go:284-353 | the data check passes if and only if the decoded tuple has the row's asset, sub id and side, a positive multiple of its ticks, and a positive multiple of its amount or the plain amount whose steps it counts |
| Admission.AdmittedIsCreatable | internal/orders/repository.go:142-217 | an admitted order can be created at any moment of any run unless its id or its owner and nonce are taken |
| Admission.AtomicUnitsMeaning | internal/api/orders.go:195-228 | a value is admitted as n steps exactly when it is n steps and of the required sign |
| Admission.StrictMeansMatchable | internal/api/orders.go:310-317 | the strict path is exactly the order's own half of both scale inferences; such an order can be matched unless its data starts with 0X |
| Admission.CompatNeverConverts | internal/api/orders.go:319-352 | an order admitted only by the compatibility rule fails unit conversion against every counterpart, on either side |
| Admission.PlainAmountNeverConverts | internal/api/orders.go:319-352 | such orders are received: under the listed futures' step every request that signs its plain number of contracts is admitted under enforcement and never converts |
| Admission.OneCompleteContract | internal/api/orders.go:137-155 | for one, a contract signed as its thousand steps and given as wholly filled is admitted under enforcement as an active, complete order |
| Admission.ContractsAreAdmitted | internal/api/orders.go:128-184 | a future's request is admitted, as thousandths of its contracts, when it signs a multiple of them or the contracts themselves |
| Admission.CompleteIsAdmitted | internal/api/orders.go:137-155 | every admitted request is admitted again with its whole amount as filled, and becomes the same order already complete |
| Admission.AcceptedAmounts | internal/api/orders.go:314-363 | under any step the check accepts exactly the signed multiples of the book amount and, when the step divides one unit, amounts of which the book counts the steps |
| TradeData.DecodeUndoesEncode | internal/matching/trade_units.go:201-229 | both decoders invert the seven-word encoding, for every tuple in range (positive for the API), with or without 0x and in any white space |
| TradeData.WordsMeaning | internal/api/orders.go:383-392 | of any seven words, the asset is the last 20 bytes of the first, the side a bid when any bit of the last is set, and words 4 and 5 do not matter |
| TradeData.Int256RoundTrip | internal/matching/trade_units.go:231-241 | a two's-complement word decodes to the integer it encodes |
| TradeData.Int256InRange | internal/api/orders.go:410-420 | every word decodes into the int256 range |
| TradeData.DecodersAgree | internal/api/orders.go:374-408 | the matcher reads what the API accepted as the same tuple, except exactly when the data starts with an upper-case 0X |
| TradeData.UpperPrefixIsAdmitted | internal/api/orders.go:374-408 | under the prefix 0X the API reads every positive tuple and the matcher answers unexpected length |
| TradeData.MatcherImpliesApi | internal/api/orders.go:374-408 | what the matcher reads with positive values the API reads the same way |
| AmountText.TextIsArithmetic | internal/orders/repository.go:877-899 | on the text of integers the amount helpers are integer arithmetic, and only zero prints as "0" |
| Pricing.FormatTicks | internal/pricing/pricing.go:59-90 | padding, trimming and rescaling step by step give the canonical text of ticks times tick size |
| Pricing.DecimalToFraction | internal/pricing/pricing.go:92-131 | the digit scan reads exactly plain decimal text, with an optional plus and missing parts as zero |
| Pricing.DecimalsRead | internal/pricing/pricing.go:92-131 | white space, an optional plus, digits and an optional point with digits read as the number they spell |
| Pricing.OnlyDecimalsRead | internal/pricing/pricing.go:92-131 | nothing else reads: no minus, no second point, no other character |
| Pricing.TicksTextIsExact | internal/pricing/pricing.go:68-89 | display text denotes exactly ticks times tick size, in the one canonical spelling |
| Pricing.ParseMeaning | internal/pricing/pricing.go:36-57 | a price parses to t ticks exactly when it is t times the tick size and t is positive |
| Pricing.ParseUndoesFormat | internal/pricing/pricing.go:36-90 | parsing display text gives back its ticks and the same text, for every positive tick size |
| Pricing.ParseIsIdempotent | internal/pricing/pricing.go:52-56 | parsing the displayed price again changes nothing |
| Pricing.EqualPricesParseAlike | internal/pricing/pricing.go:42-50 | two spellings of one number get the same ticks, text or error |
| Pricing.TickOrderIsPriceOrder | internal/pricing/pricing.go:59-90 | tick order is the order of the displayed prices, and distinct ticks display differently |
| Decimals.FormatDecimal | internal/api/decimals.go:21-51 | the step-by-step printer gives the text of the rounded value, of either sign |
| Decimals.RoundedIsNearest | internal/api/decimals.go:25-30 | from zero on the printed number is within half a unit of the last place, ties upward |
| Decimals.NegativeIsTruncated | internal/api/decimals.go:25-30 | below zero it lies less than one unit toward zero |
| Decimals.NearestExactly | internal/api/decimals.go:25-30 | the printed number is the nearest one, ties upward, if and only if the value is not negative or the digits dropped are worth at most half a unit |
| Decimals.NegativeIsNotNearest | internal/api/decimals.go:25-30 | -0.6 to no places prints as 0 where -1 is the nearest |
| Decimals.DecimalOfDenotes | internal/api/decimals.go:38-50 | the text reads as the rounded number and is canonical, carry into the whole part included |
| Decimals.RoundedIsExact | internal/api/decimals.go:21-30 | multiples of the last place are printed exactly |
| Decimals.RoundedIsMonotone | internal/api/decimals.go:21-30 | a larger value never prints as a smaller number |
| Decimals.SameRatSameText | internal/api/decimals.go:21-51 | only the number matters, not the fraction that carries it |
| Decimals.FormatIsStable | internal/api/decimals.go:53-59 | printed text read and printed again, at the same or a finer scale, is unchanged |
| Decimals.PlainDecimalsRead | internal/api/decimals.go:9-19 | white space, a sign, digits and a point with digits read as the number they spell; without a digit nothing is read |
| DecimalText.ReadPrinted | internal/api/decimals.go:38-50 | a scaled integer printed and read back is the same number |
| DecimalText.PrintSameNumber | internal/pricing/pricing.go:75-89 | equal numbers held at different scales print alike |
| SpotContract.TranslateSpotUIIntent | internal/api/spot_contract.go:77-127 | negating the deltas in place under branches gives the record of the specification |
| SpotContract.DeriveSpotOrderContractEchoFromEngine | internal/api/spot_contract.go:143-188 | likewise for the record derived from a stored order |
| SpotContract.SidesAreInverted | internal/api/spot_contract.go:96-108 | the engine takes the other side; a buyer's record gains USDC and gives cNGN, a seller's the reverse |
| SpotContract.FieldsExactly | internal/api/spot_contract.go:48-75 | which spec, intent and fields sent along are let through, if and only if, and what the engine then gets |
| SpotContract.MatchesMeaning | internal/api/spot_contract.go:201-222 | two decimals match if and only if both can be read and the numbers are within 10^-18 |
| SpotContract.ResubmissionIsAccepted | internal/api/spot_contract.go:59-74 | sending the translated fields back with the same intent is accepted and changes nothing |
| SpotEcho.EchoRoundTrip | internal/api/spot_contract.go:143-188 | for every price and size in millionths whose order is admitted, the derived record equals the user's if and only if the rounded reciprocal passes two arithmetic conditions on the request |
| SpotEcho.EchoWithinBounds | internal/api/spot_contract.go:77-127 | it always does for prices up to 1000000.707106 and notionals below 10^12 cNGN |
| SpotEcho.NextPriceIsLost | internal/api/spot_contract.go:117-120 | no admitted order at 1000000.707107, of whatever size, is echoed as its user meant it |
| SpotEcho.LostPriceIsAdmitted | internal/api/spot_contract.go:77-127 | a million USDC at that price is admitted under enforcement, for either side and any asset, and its echo differs |
| SpotEcho.SpotIsAdmitted | internal/api/orders.go:115-184 | every intent in millionths with a whole cNGN amount is admitted under enforcement when signed for its engine terms |
| SpotEcho.StoredTerms | internal/api/orders.go:115-135 | an admitted spot order stores the reciprocal to 18 places as ticks and display price, and the whole cNGN amount |
| Backfill.PriceTable.BackfillLimitPriceTicks | internal/orders/repository.go:78-140 | in whatever order the query lists the rows, on success every row is backfilled; on the first tick size or price that does not parse, the rows listed before it are filled and all others untouched |
| Backfill.BackfillMeaning | internal/orders/repository.go:116-133 | a row without ticks of a known market gets t ticks if and only if its price is t times the tick size, with a point in it or not |
| Backfill.ResetThenBackfillIsIdentity | migrations/000005_make_limit_price_ticks_backfill_instrument_aware.up.sql:6-8 | resetting and backfilling restores every row the API stored, of a registered market or not, and leaves rows with ticks and no decimal point alone |
| Backfill.DecimalPricesAreRecomputed | migrations/000005_make_limit_price_ticks_backfill_instrument_aware.up.sql:6-8 | whatever ticks it had, a row of a known market whose price has a point ends with exactly the ticks that its price is |
| Backfill.MigrateAndBackfill | migrations/000005_make_limit_price_ticks_backfill_instrument_aware.up.sql:6-8 | the two in sequence leave a table of API-stored rows as it was, and succeed |
| Paging.PagingExactly | internal/api/server.go:277-287 | at any page size, on tables whose ids rise, following the cursor collects every trade the market had at the start exactly once if and only if the last id of every full page separates the ids before it from those after it; then newest first and to the end, whatever is recorded meanwhile |
| Paging.EveryPageSize | internal/api/server.go:277-287 | it does so at every page size, and likewise at size one, if and only if the market's own times never fall as its ids rise |
| Paging.PagingEnumerates | internal/api/server.go:277-287 | in time order it does so within the market's count over the page size plus one requests, by falling ids |
| Paging.PagingStops | internal/api/server.go:277-280 | whatever the clock did, a short page comes back within one request more than there are trades |
| Paging.PageIsUnique | internal/orders/repository.go:535-575 | the ordered and limited query has one answer on every table with distinct ids |
| Paging.ListTrades | internal/orders/repository.go:535-575 | one pass over the table finds the newest selected trades, in order and as many as asked for or there are |
| Paging.CursorSelectsTheRest | internal/api/server.go:277-280 | the cursor selects exactly what was left out, even after further trades, if and only if it separates the ids |
| Paging.ClockSkewSkipsATrade | internal/orders/repository.go:541 | a concrete table with a clock set back on which a trade is skipped |
| Cancelling.HandleCancelOrder | internal/api/server.go:392-457 | undisturbed, the handler cancels the one active order of the key, or reports none or forbidden and changes nothing |
| Cancelling.CancelReachesTheCheckedOrder | internal/api/server.go:427-449 | whatever runs between check and cancel, only the checked order can be cancelled, so a service never cancels a protected order |
| Cancelling.ValidateCancelNamespace | internal/api/server.go:481-493 | allowed exactly when no service is named or no protected prefix fits the order id |
| Cancelling.NamespaceMeaning | internal/api/server.go:481-493 | the comparison character by character: surrounding white space dropped, capitals read as small letters, prefixes as configured |

## Left out

- Several matchers at once: a release does not record who reserved, so exclusive reservation does not hold there; the service runs one matching loop.
- The executor and the contract: the executor's answer is any of accepted, already filled, or failed; agreement of the book with the chain is not claimed, and sorting error messages by their text is not modelled.
- Row locks, isolation levels and `skip locked`: each transaction is one atomic step that commits or leaves the tables alone, possibly without the caller hearing of it.
- Decimals.ReadDecimal: covers plain decimal text only; exponents, quotients, radix prefixes and underscores, which the big-rational reader also takes, enter the model as values of user fields (`SpotContract.Field`).
- TradeData.ToLower: lower-cases ASCII letters only; text with other letters is never valid hexadecimal.
- JSON decoding, the agreement of the action's identity fields with the request, required-field checks, address and custody checks: identity comparisons and I/O; an order's data field is present or not.
- Request side text: a side is buy, sell or blank; any other text is refused at once by the API.
- Instrument registry and configuration: tick size, precision, step and market key are parameters.
- Wall clock, timeouts, detached contexts, logging, HTTP plumbing and presentation records.
- Market statistics, diagnostics, book listing and scripts: aggregate queries and operations without further invariants.
- Migration runner: only the reset of decimal prices is modelled.
- Trade echoes: the record derived for a trade is the same function as for an order, on the trade's price and size; its round trip to a user's intent is not claimed, since a trade's size need not be an order's.
