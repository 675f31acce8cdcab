# Trueup core, modelled in Dafny

Trueup keeps a regulated book of record: a double-entry ledger with two dimensions (money and units),
tax lots, performance fees, published statements, an outbox for work to be done after commit, and
administrative approval of actions proposed by an agent. This project models the parts of its backend
where arithmetic, concurrency or bitemporal storage make correctness hard to see, and proves what
they keep.

- **Fixed-point arithmetic** (`Rounding`, `FixedPoint`, `IntegerQuotients`, `Allocation`,
  `AllocationProofs`, `AllocationTies`). Values are
  integers in smallest units. Every operation goes through a 28-digit half-even decimal and is then
  quantized, as in the code; exact quotients and shares are compared by cross multiplication.
- **Tax lots** (`TaxLots`, `TaxLotDraws`, `TaxLotSales`, `TaxLotBalance`, `TaxLotBook`,
  `TaxLotBasis`, `TaxLotWashes`, `TaxLotSplits`, `TaxLotConcurrency`, `TaxLotService`). Buy fills,
  sell fills over first-in-first-out or named lots, wash-sale adjustments and splits, with the journal
  entry each posts. One customer and one security at a time, as every call of the service is; a named
  lot of someone else is an unknown lot.
- **Protocols as step relations** over arbitrary interleavings, beside the imperative code they
  specify: the outbox and its workers (`Outbox`, `OutboxProtocol`), the idempotent money endpoints
  (`Idempotency`, `IdempotencyProtocol`), ledger transactions with the zero-sum check deferred to
  COMMIT (`Ledger`, `LedgerProtocol`, `LedgerCommits`) and approvals with a savepoint (`AgentActions`, `AgentProtocol`).
  The sequential methods run under a `Rely` condition, and the protocol modules prove that the steps
  of all others meet it.
- **Append-only reads** (`SubPeriodReturns`, `Snapshots`, `SnapshotFlows`, `DailyCloses`): newest visible row, range
  reports, publishing and the later cross-check.
- **Loops and codecs**: keyset pagination and its cursor (`Pagination`, `Cursor`), trading-day
  arithmetic (`TradingDays`), billing periods over the real calendar (`BillingPeriods`), the
  high-water-mark accrual (`HighWaterMark`), the order projection (`OrderProjection`), the envelope
  format, the data-key cache and the cipher around it (`Envelope`, `DekCache`, `KeyVault`).

Clocks, random values, row ids, the SHA-256, AES-GCM and JSON functions, the vault, service outcomes
and the valuation of a book are parameters, constrained only by the laws the code needs (for instance
that opening inverts sealing).

## Where the code does not do what it says

Each of these is a lemma that says exactly when it happens, for most of them beside one with a
concrete input.

- A sell fill over several lots can be refused. Its proceeds are rounded once for the cash leg and
  once per lot for the gains; two one-unit lots sold at 10.12345 miss by 0.0001 and the entry is
  unbalanced (`TaxLotBalance.TwoLotSaleCanFail`, `SellBalancesIff`). A single lot and exact draws
  always balance.
- A lot sold out keeps no basis up to 100 units; beyond that a residue can stay on the closed lot
  (`TaxLotSales.ClosedLotCanKeepResidue`; `ClosedLotResidue` has the condition).
- A disallowed loss can be carried into a replacement lot that is already closed, where no later sell
  ever draws on it (`TaxLotBook.ReplacementCanBeClosed`, `ReplacementIsClosedIff`,
  `ClosedLotIsNeverDrawn`).
- A split by a decimal ratio rounds each lot and the posted units separately, so the position account
  can drift from the lots (`TaxLotSplits.FractionSplitCanDrift`, `DecimalSplitDrift`); an integer ratio
  cannot.
- A sell fill of negative quantity whose money legs round to zero is accepted and posts units no lot
  received (`TaxLotBook.NegativeSellCanDrift`; `SellKeepsInv` gives the exact drift).
- The tie-break of `allocate` "by ascending index" fails when remainders are compared after rounding:
  0.0002 by [4, 1, 1] (`AllocationProofs.TieBreakCanFail`; the condition is `TieBreakIff` and, before
  the call, `AllocationTies.TieBreakIffDigits`). Equal weights are always served by index. For extreme
  `Units` the parts need not add up (`SumCanBreak`, `SumsExactlyIff`).
- `Units / int` can round twice (`FixedPoint.UnitsOverIntCanRoundTwice`,
  `IntegerQuotients.OverIntRoundsOnceIff`), and `(m / p) * p` can miss m above 100 dollars
  (`FixedPoint.RoundTripInexact`, `RoundTripExactIff`). A magnitude of 10^28 smallest units or more
  raises the decimal module's own error, not `ValueError`.
- A cursor whose JSON payload exceeds 1520 bytes is encoded and then refused (`Cursor.CursorRoundTripIff`).
  "Never raises anything but `ValidationError`" does not hold for a payload that is not Unicode text,
  on which `json.loads` raises another error (`Cursor.RaisedIff`).
- A sell and a buy of one security handled at once by two workers do not see each other's rows, and a
  wash sale between them is missed (`TaxLotConcurrency.ConcurrentFillsCanMiss`,
  `ConcurrentFillsMissIff`); one after the other they never miss it.
- A published snapshot stops reproducing once an external flow is recorded later for a date inside its
  period, because the cross-check takes today's boundaries (`SnapshotFlows.LateFlowBreaksCrossCheck`,
  `OneMoreFlowIff`). Deposits and withdrawals are dated the day they are recorded and only past months
  are published, so it takes a correcting entry (`PostingService.correct`), which nothing calls yet. A
  snapshot that reused a row recorded after its watermark is not derived again even at once
  (`Snapshots.ComputeThenDeriveIff`).
- `drain_ready` can return while rows are still due: those another worker's uncommitted claim has
  locked are skipped (`Outbox.OutboxWorker.DrainReady`, `OutboxProtocol.NothingToSelectIff`).
- `_ExecutionFailedError` is documented as caught like the executors' other failures, but it is not in
  the tuple of expected errors: the approval is rolled back and the request stays pending
  (`AgentProtocol.MissingTargetStaysPending`; `DecisionHasItsStep` and
  `FailedSessionIsRecordedIffExpected` say what is recorded as a failure).
- No order status is final: a fill with a later sequence number reopens a canceled order
  (`OrderProjection.CanceledCanStillFill`, `NoStatusIsFinal`).
- The zero-sum trigger looks only at the entry of the NEW row on an UPDATE, so the ledger's balance
  rests on the append-only rule (`Ledger.UpdateCanUnbalance`, `UpdateKeepsBalanceIff`).

## Model

| member | source | states |
|---|---|---|
| Rounding.DoubleRounding | backend/app/core/money.py:79-84 | Rounding to 28 digits and then to an integer equals one half-even rounding of the exact value, for every numerator below 10^27 over any divisor. |
| FixedPoint.PrecisionIsRange | backend/app/core/money.py:93-99 | The digit-count check accepts exactly the values of magnitude below 10^precision smallest units. |
| FixedPoint.ConstructIdempotent | backend/app/core/money.py:52-84 | Constructing from a stored value's own decimal gives that value back, for every value in range. |
| FixedPoint.AddIsExact | backend/app/core/money.py:109-115 | Sums and differences are never rounded: the result is the exact sum or the reason it does not fit. |
| FixedPoint.MoneyOverPriceRoundsOnce | backend/app/core/money.py:252-255 | For all in-range operands the quotient is the single half-even rounding of the exact quotient to a millionth. |
| FixedPoint.MoneyOverUnitsRoundsOnce | backend/app/core/money.py:248-251 | The same for a price, or the range error exactly when that rounding does not fit. |
| IntegerQuotients.OverIntRoundsOnceIff | backend/app/core/money.py:284-292 | For every value of every kind and every non-zero integer the quotient is never refused, and it is the single half-even rounding if and only if the magnitudes are not so close to a midpoint that the 28 digits end on it with the even neighbour on the far side (a condition on quotient, remainder and decimal shift). |
| IntegerQuotients.SmallNeverRoundsTwice | backend/app/core/money.py:256-259 | That never happens below 10^27 smallest units, so never for Money and Price. |
| FixedPoint.UnitsOverIntCanRoundTwice | backend/app/core/money.py:289-292 | A concrete `Units` value whose quotient by 11 differs from the single rounding. |
| FixedPoint.PriceTimesUnitsRoundsOnce | backend/app/core/money.py:305-308 | For all operands the product is the half-even rounding of the exact product, or the range error for it; both operand orders agree. |
| FixedPoint.RoundTripBound | backend/app/core/money.py:252-255 | `(m / p) * p` is within p * 0.5e-6 + 0.5e-4 dollars of m whenever it is accepted. |
| FixedPoint.RoundTripExactIff | backend/app/core/money.py:305-308 | It is exactly m if and only if twice the distance of 10^8 m from a multiple of the price is below 10^8, or equal to it with m even. |
| FixedPoint.AlwaysExactIff | backend/app/core/money.py:305-308 | It is exact for every amount if and only if the price is of magnitude at most 100 dollars. |
| FixedPoint.RoundTripInexact | backend/app/core/money.py:305-308 | Beyond 100 it need not be: 0.0001 at 150 comes back as 0.0002. |
| Allocation.Allocate | backend/app/core/money.py:157-186 | The list-building and increment loops compute the specified split of the magnitude with the sign put back, errors included. |
| Allocation.WeightErrorsIff | backend/app/core/money.py:160-166 | The three errors about weights are raised exactly for no weight, a negative one, and only zeros. |
| Allocation.ChosenIsInitial | backend/app/core/money.py:181-184 | The indices that get an extra unit are the first ones by (larger stored remainder, smaller index): none outside precedes one inside. |
| AllocationProofs.RemainderIsStored | backend/app/core/money.py:178 | Subtracting the integer part from a share is exact for all inputs: the context stores the remainder unrounded. |
| AllocationProofs.BasesAreFloors | backend/app/core/money.py:173-177 | Under the digit bound the base units are the exact integer parts of the proportional shares. |
| AllocationProofs.RemaindersKeepOrder | backend/app/core/money.py:178-181 | Under the bound the stored remainders order like the exact ones whenever those differ. |
| AllocationProofs.LeftoverInRange | backend/app/core/money.py:179 | Under the bound the leftover is in [0, n). |
| AllocationProofs.SumsExactlyIff | backend/app/core/money.py:179-184 | For all inputs, without any bound, the parts add up to the whole if and only if 0 <= leftover <= n. |
| AllocationProofs.SumCanBreak | backend/app/core/money.py:173-184 | A `Units` amount for which they do not. |
| AllocationProofs.LargestRemaindersWin | backend/app/core/money.py:181-184 | A strictly larger exact remainder is never passed over for a smaller one. |
| AllocationProofs.FloorOrCeiling | backend/app/core/money.py:176-184 | Every part is the floor or the ceiling of its exact share, and exactly its share when that is whole (so a zero weight gets zero). |
| AllocationProofs.SplitIsOptimal | backend/app/core/money.py:157-186 | No other integer split with the same total has a smaller sum of absolute deviations from the exact shares. |
| AllocationProofs.TieBreakIff | backend/app/core/money.py:159 | The split is the documented one (exact remainders, ties by index) if and only if no exact tie is stored the other way round across the cut. |
| AllocationTies.TieBreakIffDigits | backend/app/core/money.py:181 | The same, decided before the call: a tie is reversed exactly when rounding the common remainder to the places each share leaves of 28 digits favours the later one. |
| AllocationProofs.TieBreakCanFail | backend/app/core/money.py:159 | 0.0002 by [4, 1, 1] gives the extra unit to index 1 although index 0 ties with it. |
| AllocationProofs.EqualWeightsByIndex | backend/app/core/money.py:181 | Among equal weights the smaller index is never passed over. |
| AllocationProofs.MoneyBound | backend/app/core/money.py:168-171 | For `Money` a total weight below 10^9 always meets the bound. |
| AllocationProofs.AllocateConserves | backend/app/core/money.py:157-186 | Under the bound the call succeeds, its parts sum exactly to the amount and are the signed optimal split. |
| AllocationProofs.AllocateNegates | backend/app/core/money.py:168-186 | Splitting -x gives the negated split of x, errors included, without any bound. |
| TaxLotDraws.DrawConserves | backend/app/services/lots/lot_consumption_service.py:168-201 | Over any pass: units taken plus units left, basis in the lots plus basis consumed, gains and proceeds are moved and never created; nothing else about a lot changes, its designation included. |
| TaxLotDraws.DrawLowers | backend/app/services/lots/lot_consumption_service.py:173-201 | A pass never raises a lot, never takes it below zero, never oversells, and does nothing when nothing is to be sold. |
| TaxLotDraws.EarlierIsEmptied | backend/app/services/lots/lot_consumption_service.py:173-176 | For any order of lots, drawing on one means every other lot before it is used up. |
| TaxLotDraws.ShortBy | backend/app/services/lots/lot_consumption_service.py:203-208 | The shortfall is exactly the quantity less what the order can supply counting each lot once, even if a lot is named twice. |
| TaxLotDraws.DrawnBasisIs | backend/app/services/lots/lot_consumption_service.py:180-181 | For every lot and quantity, whole or partial, the basis a draw takes is the rounded product of the quantity and the rounded basis per unit, and it is found exactly when both roundings are in range. |
| TaxLotBasis.DrawFromDoneIff | backend/app/services/lots/lot_consumption_service.py:173-201 | A draw takes exactly that basis out of the lot, and is refused exactly when one of the amounts it computes leaves its range. |
| TaxLotBasis.DrawIsConsumed | backend/app/services/lots/lot_consumption_service.py:173-201 | A whole pass leaves the lots, the consumptions and the shortfall that the quantities, bases and proceeds written out lot by lot give. |
| TaxLotBasis.SellConsumes | backend/app/services/lots/lot_consumption_service.py:152-278 | An accepted sell is the book with these lots and consumptions and the entry of their totals, followed by the wash-sale checks. |
| TaxLotBasis.SelectIs | backend/app/services/lots/lot_consumption_service.py:282-303 | Without names all open lots are drawn on, oldest first; with names exactly the named ones, in the order given; the sell is refused as unknown exactly when a name has no lot. |
| TaxLotBasis.OthersAreNotConsumed | backend/app/services/lots/lot_consumption_service.py:173-201 | Lots outside the order keep their units and basis. |
| TaxLotBasis.SellFallsShortIff | backend/app/services/lots/lot_consumption_service.py:203-208 | With arithmetic that fits, a sell is refused for lack of lots exactly when it exceeds what its order supplies, by exactly the rest. |
| TaxLotBasis.BuyAcceptedIff | backend/app/services/lots/lot_consumption_service.py:57-150 | A buy is refused exactly for a cost out of range, a negative quantity, a lot id or execution already there, or an adjustment that does not fit; otherwise the lot is opened at its rounded cost. |
| TaxLotBasis.RunFits | backend/app/services/lots/lot_consumption_service.py:57-278 | After any run every basis is within the range of money, which is what the closed forms assume. |
| TaxLotWashes.SellLeaves | backend/app/services/lots/wash_sale_service.py:38-75 | An accepted sell leaves, beyond its draws and posting in closed form, exactly one adjustment for each of its losses with another lot within 30 days: into the earliest of them, of the loss up to that lot's original basis, recorded, posted and applied to both. |
| TaxLotWashes.BuyLeaves | backend/app/services/lots/wash_sale_service.py:63-132 | An accepted buy leaves its new lot and exactly one such adjustment into it for each unadjusted loss within 30 days. |
| TaxLotSales.FifoConsumesOldestFirst | backend/app/models/ledger/tax_lot.py:126-138 | With no designation a lot is drawn on only if every open lot acquired earlier (by id within a day) is used up. |
| TaxLotSales.FifoSufficesIff | backend/app/services/lots/lot_consumption_service.py:203-208 | A fill of non-negative quantity runs out of lots if and only if it exceeds the sum of all open lots. |
| TaxLotBalance.SellBalancesIff | backend/app/services/lots/lot_consumption_service.py:228-252 | For every call whose lots suffice, with the quantities taken computed from lots, order and quantity: without a difference between the rounded fill and the sum of the rounded draws it is never refused for balance; with one it always fails, as unbalanced by exactly that amount if and only if the running total of the legs fits money. |
| TaxLotBalance.SingleLotSellBalances | backend/app/services/lots/lot_consumption_service.py:228-252 | A call that draws on at most one lot has no difference, except a negative fill's own rounded proceeds; without those it is never refused for balance. |
| TaxLotBalance.ExactSellBalances | backend/app/services/lots/lot_consumption_service.py:180-201 | The same when all draws have exact proceeds. |
| TaxLotBalance.ImbalanceBound | backend/app/services/lots/lot_consumption_service.py:180-201 | Beyond a negative fill's own proceeds the difference is at most (n + 1) / 2 ten-thousandths for n lots. |
| TaxLotBalance.TwoLotSaleCanFail | backend/app/services/ledger/posting_service.py:136-139 | In any book with two one-unit lots, selling both at 10.12345 with no designation is refused as unbalanced by 0.0001. |
| TaxLotSales.ClosedLotResidue | backend/app/services/lots/lot_consumption_service.py:176-197 | A draw that sells a lot out leaves it without basis if and only if the condition of the round trip holds for basis and quantity, always up to 100 units; a residue is at most units * 0.5e-6 + 0.5e-4 dollars. |
| TaxLotSales.ClosedLotCanKeepResidue | backend/app/services/lots/lot_consumption_service.py:176-197 | A draw that sells out 150 units with a basis of 0.0001 leaves the closed lot with a basis of -0.0001. |
| TaxLotBook.LotRunSafety | backend/app/services/lots/lot_consumption_service.py:57-278 | After every run of buys, sells and splits, one after another: all entries balance, the cost account is the sum of adjusted bases, the gain account the sum of gains, cash is gains less basis, no lot is overdrawn, every loss is disallowed at most once and none with a replacement within 30 days is missed; with regular actions the position account is the sum of the lots' units. |
| TaxLotConcurrency.ConcurrentFillsMissIff | backend/app/services/lots/wash_sale_service.py:38-75 | A sell and a buy handled at once against one committed book, both committed: ids, balance, the agreement of the accounts and single disallowance are kept, and no wash sale is missed if and only if none of the sell's remaining losses is within 30 days of the buy. |
| TaxLotConcurrency.ConcurrentFillsCanMiss | backend/app/services/lots/wash_sale_service.py:38-75 | A unit bought at 10 is sold at 9 while another is bought at 9 a day later: both commit and the loss stays undisallowed. |
| TaxLotBook.BuyKeepsInv | backend/app/services/lots/lot_consumption_service.py:57-150 | An accepted buy keeps all of that, and its scan finds every loss the new lot makes adjustable. |
| TaxLotBook.SellKeepsInv | backend/app/services/lots/lot_consumption_service.py:152-278 | An accepted sell keeps it, and the position account misses the lots by exactly a negative quantity, else by nothing. |
| TaxLotBook.NegativeSellCanDrift | backend/app/services/lots/lot_consumption_service.py:173-175 | From any book, selling minus a millionth of a unit at a millionth of a dollar is accepted, touches no lot and moves the position account. |
| TaxLotBook.SplitKeepsInv | backend/app/services/lots/corporate_action_service.py:138-192 | A split keeps it; the position account drifts from the lots by exactly the posted units less their growth, and an integer ratio has no drift. |
| TaxLotSplits.WholeSplitIs | backend/app/services/lots/corporate_action_service.py:138-192 | An n-for-one split multiplies the opening and the remaining quantity of each open lot, leaves everything else alone and posts the total times n - 1; it is refused exactly up to one, or when one of these amounts is out of range. |
| TaxLotSplits.SplitLotIs | backend/app/services/lots/corporate_action_service.py:154-156 | For a decimal ratio, below the bound, both quantities of an open lot become the single roundings of their exact products, and the lot is refused exactly when one of them is out of range. |
| TaxLotSplits.DecimalSplitDrift | backend/app/services/lots/corporate_action_service.py:151-158 | For a decimal ratio num/den and a total T with T * num below 10^27 the drift is HalfEven(T(num - den)/den) less the sum of the lots' own roundings plus T, so it is zero if and only if the two agree. |
| TaxLotSplits.FractionSplitCanDrift | backend/app/services/lots/corporate_action_service.py:151-158 | A 3-for-2 split of a millionth of a unit leaves them one millionth apart. |
| TaxLotBook.ApplyKeeps | backend/app/services/lots/wash_sale_service.py:86-132 | An adjustment moves a loss into basis: all three accounts keep their agreement, no other consumption changes, and the loss is marked once. |
| TaxLotBook.KeepsPending | backend/app/services/lots/wash_sale_service.py:86-132 | Adjusting one loss never makes another one adjustable. |
| TaxLotBook.ApplyIs | backend/app/services/lots/wash_sale_service.py:86-132 | An adjustment that is not refused moves the loss, up to the original basis of the replacement, into its adjusted basis, and posts and records just that. |
| TaxLotBook.LossStaysALoss | backend/app/services/lots/wash_sale_service.py:90 | The disallowed part equals the basis it adds and never turns a loss into a gain; it leaves the loss no larger exactly when the replacement's original basis is not negative, and cancels it exactly when that basis covers it. |
| TaxLotBook.ReplacementIsEarliest | backend/app/models/ledger/tax_lot.py:211-233 | The replacement is the earliest other lot within the window, by id within a day, and one is found whenever there is one. |
| TaxLotBook.ReplacementIsClosedIff | backend/app/models/ledger/tax_lot.py:221-233 | In every book the lot chosen for a loss is a closed one if and only if some closed lot in the window was acquired before (by id within a day) every open one there. |
| TaxLotBook.ReplacementCanBeClosed | backend/app/models/ledger/tax_lot.py:221-233 | With a closed lot alone in the window it is chosen. |
| TaxLotBook.ClosedLotIsNeverDrawn | backend/app/services/lots/lot_consumption_service.py:176-178 | No sell ever changes a closed lot, so what was carried into it stays there. |
| TaxLotBook.CashIsGainsLessBasis | backend/app/services/ledger/posting_service.py:119-139 | In a ledger of balanced entries the cash account is the negated sum of the cost and gain accounts. |
| TaxLotService.LotConsumptionService.RecordSellFill | backend/app/services/lots/lot_consumption_service.py:152-278 | The in-place loops with early exit meet the specified sell, whose closed form is `SellConsumes` and `SellLeaves`: its new state and consumptions, or the same error with nothing changed. |
| TaxLotService.LotConsumptionService.RecordBuyFill | backend/app/services/lots/lot_consumption_service.py:57-150 | The same for a buy fill and its carry of earlier losses. |
| TaxLotService.LotConsumptionService.ApplySplit | backend/app/services/lots/corporate_action_service.py:138-192 | The same for a split: both loops, the posted units, and rollback. |
| Outbox.JobOutbox.ClaimNext | backend/app/models/ops/job_outbox.py:66-82 | Claims an oldest one of the due pending rows that no other transaction has locked, locks it and counts the attempt; no other row changes; nothing is claimed exactly when every due row is locked by another. |
| Outbox.JobOutbox.RetryOrDeadLetter | backend/app/models/ops/job_outbox.py:89-104 | Only the holder's row changes, to a dead letter if its attempts have reached the maximum, and otherwise to pending at the given time; in both cases it is unlocked. A row not held is refused unchanged. |
| Outbox.OutboxWorker.DrainOnce | backend/app/workers/outbox.py:85-111 | Finds nothing exactly when every due row is locked by another worker; otherwise it calls the handler once and, whatever others commit in between, completes the row after a call that returned, makes it a dead letter after one that raised on the last attempt, and otherwise leaves it pending 2^(attempts - 1) seconds after the clock; the budget falls. |
| Outbox.OutboxWorker.DrainReady | backend/app/workers/outbox.py:113-118 | Terminates although failed rows fall due again meanwhile; the returned count is the number of handler calls, and with the remaining budget it never exceeds the budget at the start; what is still due at the end is locked by another worker. |
| OutboxProtocol.OutboxSafety | backend/app/models/ops/job_outbox.py:66-115 | In every reachable state: processing exactly when locked, no two workers hold a row, no recorded outcome was refused, handler calls equal attempts and never exceed the maximum. |
| OutboxProtocol.TerminalForever | backend/app/models/ops/job_outbox.py:84-104 | Completed and dead-lettered rows never change and no row disappears. |
| OutboxProtocol.OutcomesDecide | backend/app/workers/outbox.py:94-111 | In every run a row is completed if and only if a process holding it called the handler, the call returned and the process recorded it, and a dead letter if and only if such a call raised on the last attempt. |
| OutboxProtocol.StepRecords | backend/app/models/ops/job_outbox.py:66-104 | What a committed claim and a recorded outcome leave in the row, retry time included; no other row changes. |
| OutboxProtocol.ClaimGoesOn | backend/app/workers/outbox.py:85-111 | A process in a claim can always go on to its commit, its handler call and the recording of either outcome. |
| OutboxProtocol.NothingToSelectIff | backend/app/models/ops/job_outbox.py:66-77 | In the protocol an idle worker has no claim to make exactly when every due row is selected by an uncommitted claim of another one. |
| OutboxProtocol.OthersRespectRely | backend/app/workers/outbox.py:85-111 | Every step of every other worker is one that `DrainOnce` allows for. |
| OutboxProtocol.ClaimsAreBounded | backend/app/workers/outbox.py:113-118 | While nothing is enqueued all workers together commit at most as many claims as the budget at the start. |
| Idempotency.UnitOfWork.Commit | backend/app/core/uow.py:114-117 | All staged rows or none; it fails exactly on a stored key and then leaves the transaction unfinalized. |
| Idempotency.UnitOfWork.Exit | backend/app/core/uow.py:99-112 | An unfinalized transaction loses its staged rows; the tables are not touched. |
| Idempotency.Submit | backend/app/controllers/api/orders.py:237-302 | Whatever other requests commit in between: created carries the service's answer and means that the effect of the request's own endpoint and key is committed, once, with its record; every other answer means nothing was; a replay is the stored answer for an equal hash; rejection means that the service refused and failure that the key was taken; and there is one effect per key. |
| IdempotencyProtocol.AtMostOneEffect | backend/app/models/ops/idempotency_key.py:25-27 | Under every interleaving on the three endpoints each (customer, key) has at most one committed effect, and has one exactly when its record is stored. |
| IdempotencyProtocol.RecordsAreForever | backend/app/models/ops/idempotency_key.py:69-97 | A stored record never changes or disappears. |
| IdempotencyProtocol.SuccessesAgree | backend/app/controllers/api/funding.py:320-359 | Any two successful answers for one key carry the same status, body and body hash, at any two moments. |
| IdempotencyProtocol.DifferentHashCommitsNothing | backend/app/core/idempotency.py:68-77 | A request whose hash differs from the stored one has committed nothing and never succeeds. |
| IdempotencyProtocol.OnlyCreatedCommits | backend/app/controllers/api/funding.py:380-415 | A request has a committed effect exactly when its answer is a created one. |
| IdempotencyProtocol.AnswersHaveReasons | backend/app/controllers/api/orders.py:256-300 | In every run a created answer carries the body of its service call, its request has the effect of its own endpoint and key and its record has that body; rejected answers come from refused calls only, and a failure only from another request's record under the key. No request has an effect of another endpoint or key. |
| IdempotencyProtocol.RequestGoesOnIff | backend/app/controllers/api/funding.py:320-359 | A request can always take its next step, except that it waits exactly for an insert of its key whose commit can go on. |
| IdempotencyProtocol.OthersRespectRely | backend/app/core/uow.py:81-122 | The steps of all other requests are the interference `Submit` allows for. |
| Ledger.BeforeInsert | backend/app/models/ledger/posting.py:52-84 | A posting is accepted exactly when it has one dimension, its account's, and existing account and entry; it gets the account's customer and nothing else changes. |
| Ledger.RunDeferredCheck | backend/app/models/ledger/posting.py:86-112 | The row-by-row trigger, each row with what it sees of others, passes exactly when every new posting's entry sums to zero. |
| Ledger.PassingMeansBalanced | backend/app/models/ledger/posting.py:86-112 | Against balanced snapshots, one per row, passing means that the transaction's own rows balance for every entry. |
| Ledger.BalancedIsVisiblyBalanced | backend/app/models/ledger/journal_entry.py:55-60 | If every entry balances, so does every combination of effective-date and recorded-at cutoffs. |
| Ledger.FlushAllowed | backend/app/core/repository.py:90-102 | The append-only guard lets a flush through exactly when no row is dirty or deleted. |
| Ledger.UpdateKeepsBalanceIff | backend/app/models/ledger/posting.py:86-112 | An UPDATE of a balanced table that passes the check leaves every entry balanced if and only if the posting stays in its entry or carried no money. |
| Ledger.UpdateCanUnbalance | backend/app/models/ledger/posting.py:86-112 | Moving a posting of 5 to another entry passes the check and leaves its old entry at -5. |
| LedgerProtocol.LedgerBalances | backend/app/models/ledger/posting.py:86-112 | In every committed state of every run, for all cutoffs, the visible money sums to zero, although the check of each row saw only a snapshot of its own. |
| LedgerProtocol.PostingsFitAccounts | backend/app/models/ledger/posting.py:52-84 | Every committed posting has its account's dimension and customer. |
| LedgerProtocol.CommittedIsForever | backend/app/core/repository.py:57-102 | Committed postings and entries are only ever added to, in every run. |
| LedgerCommits.LedgerIsCommitted | backend/app/core/uow.py:114-117 | In every state of every run the accounts, the entries and the postings are exactly those that the steps give: the rows of the accepted commits, in their order, and an open transaction holds what it has inserted since it began. |
| LedgerCommits.CommitAddsIff | backend/app/models/ledger/posting.py:86-112 | From an accepted commit on, every posting of the transaction, with its account's customer, and every entry of it are in the ledger, and a refused one adds nothing; it is accepted if and only if nothing was changed, no entry id was taken and each row's entry sums to zero over what its check saw and the own rows. |
| LedgerCommits.CheckPassesIff | backend/app/models/ledger/posting.py:86-112 | In every reachable state the deferred check passes, whichever snapshots its rows see, exactly when the own rows of each entry sum to zero. |
| LedgerCommits.PostingAcceptedIff | backend/app/models/ledger/posting.py:52-84 | A posting ends its transaction exactly when its account is not open, its entry is neither committed nor the transaction's own, or it does not carry its account's dimension alone; otherwise only a commit or an abort ends it. |
| LedgerProtocol.SupersededForever | backend/app/models/ledger/journal_entry.py:91-96 | An entry superseded once stays superseded. |
| AgentActions.ApprovalQueue.Approve | backend/app/controllers/admin/agent_requests.py:213-237 | Effects are committed exactly with an executed request, at its time; an expected error keeps the approval as a failure with its message and without writes; any other error changes nothing; not found and not pending are told apart exactly. |
| AgentActions.ApprovalQueue.Reject | backend/app/controllers/admin/agent_requests.py:240-255 | Only a pending request is rejected, by its reviewer, and only its row changes. |
| AgentProtocol.ApprovalSafety | backend/app/controllers/admin/agent_requests.py:157-255 | In every committed state under concurrent reviews: no request rests in approved, and its effect is present once exactly when it is executed. |
| AgentProtocol.DecidedOnce | backend/app/models/ops/agent_action_request.py:95-136 | A decided request and its effects never change again. |
| AgentProtocol.DecisionHasItsStep | backend/app/controllers/admin/agent_requests.py:213-255 | Under every interleaving each committed decision comes from a step of the run on that request: a failure only from an expected executor error with its message, an execution only from a success with staged effects, a rejection only from its reviewer. |
| AgentProtocol.FailedSessionIsRecordedIffExpected | backend/app/controllers/admin/agent_requests.py:213-237 | Conversely, a session whose executor fails either ends there and leaves its request as it was, or, for an expected error, leaves it from its commit on as a failure with that message and without effects. |
| AgentProtocol.DecisionIsCommitted | backend/app/controllers/admin/agent_requests.py:157-255 | A decided session that commits puts its decision, and its effects exactly for an execution, into the tables for good. |
| AgentProtocol.PendingCanBeDecided | backend/app/controllers/admin/agent_requests.py:157-255 | A pending request that no session has locked can be executed, recorded as failed and rejected by the steps of one session, which leave exactly that decision of its reviewer, its effect count included, and nothing else. |
| AgentProtocol.MissingTargetStaysPending | backend/app/controllers/admin/agent_requests.py:66-68 | The executors' own precondition error leaves the request pending with nothing committed. |
| SubPeriodReturns.AsOfForSubPeriod | backend/app/models/marketdata/sub_period_return.py:86-105 | A newest row of the window visible at the cutoff, None exactly when there is none. |
| SubPeriodReturns.NewestIsUnique | backend/app/models/marketdata/sub_period_return.py:33-41 | The unique constraint makes that row well defined. |
| SubPeriodReturns.ListInRange | backend/app/models/marketdata/sub_period_return.py:107-143 | The sort-then-setdefault pass returns the newest visible row of every overlapping window, one each, in order, none missing. |
| SubPeriodReturns.Containing | backend/app/models/marketdata/sub_period_return.py:145-164 | Returns the report of the range [d, d] at a cutoff covering every row. |
| SubPeriodReturns.ReportIsUnique | backend/app/models/marketdata/sub_period_return.py:107-143 | That specification has one solution, so any two readers agree. |
| SubPeriodReturns.AsOfIsStable | backend/app/core/watermark.py:36-42 | Rows recorded beyond a watermark never change a single-window read at it. |
| SubPeriodReturns.ReportIsStable | backend/app/core/watermark.py:36-42 | Nor a range report. |
| SubPeriodReturns.ReportMatchesAsOf | backend/app/models/marketdata/sub_period_return.py:107-143 | Every row of a range report is what the single-window read returns. |
| Snapshots.FlowKeepsBoundariesIff | backend/app/services/valuation/twr_service.py:105-127 | One more external flow leaves the period's boundaries alone exactly when it is outside the period or on a date that already has one. |
| Snapshots.ComputeThenDeriveIff | backend/app/services/valuation/twr_service.py:61-76 | What computing a period reuses or stores is what deriving it at that watermark reads, if and only if no row it reuses was recorded after the watermark. |
| Snapshots.ComputeAppends | backend/app/services/valuation/twr_service.py:164-188 | Computing a period appends one row for every window whose figures differ from the newest stored ones, in order, and nothing else. |
| Snapshots.PublishIs | backend/app/services/restatement/snapshot_service.py:79-103 | A snapshot carries the linked return of one stored row for each window from the start to the end of the period, with the computed figures, and the value at the end of the last one as its balance. |
| Snapshots.CrossCheckIff | backend/app/services/restatement/snapshot_service.py:130-144 | The cross-check passes if and only if every window has a row at the watermark and these link to the published return and end with the published balance; it fails its comparison exactly when one of the two differs. |
| Snapshots.SnapshotReproduces | backend/app/services/restatement/snapshot_service.py:79-144 | A published snapshot whose reused rows were visible passes its cross-check after any later rows (the customer's beyond its watermark), as long as the boundaries are the same. |
| SnapshotFlows.DerivationFailsIff | backend/app/services/restatement/snapshot_service.py:105-128 | The derivation error is raised exactly when a window between today's boundaries had no row at the watermark. |
| SnapshotFlows.LateFlowBreaksCrossCheck | backend/app/services/restatement/snapshot_service.py:130-144 | A flow recorded later for a date inside the period, where no stored window starts, makes the check fail with that error. |
| SnapshotFlows.OneMoreFlowIff | backend/app/services/restatement/snapshot_service.py:130-144 | With one more flow on any date a published snapshot reproduces if and only if the date is outside the period, or had a flow before, or both halves of the window it splits were stored by the watermark and link to the published return and balance. |
| DailyCloses.LatestIsLatest | backend/app/models/marketdata/daily_close.py:108-128 | The newest correction of the latest stored day, absent exactly without rows. |
| DailyCloses.PreviousIsPrevious | backend/app/models/marketdata/daily_close.py:130-167 | The newest correction of the second-latest distinct day, with no stored day in between; absent exactly with fewer than two days. |
| DailyCloses.BatchedReads | backend/app/models/marketdata/daily_close.py:108-167 | Which securities each dictionary holds (those asked for with a close, and with closes on two distinct days) and what each value is. |
| DailyCloses.LateCorrectionKeepsLatest | backend/app/models/marketdata/daily_close.py:111-114 | A late correction to an older day never changes the latest close. |
| DailyCloses.SameDayCorrectionKeepsDays | backend/app/models/marketdata/daily_close.py:135-142 | A correction to a stored day never shifts which day counts as latest or previous. |
| DailyCloses.OtherSecuritiesDoNotMatter | backend/app/models/marketdata/daily_close.py:117-155 | Rows of other securities change neither the latest close nor the previous one. |
| Pagination.PageIsNext | backend/app/core/pagination.py:107-121 | A page is the strictly ordered next rows after the cursor, and every row it skips lies beyond its next cursor; there is one exactly when rows remain, and the page is then full. |
| Pagination.WalkIsOrdered | backend/app/models/ledger/tax_lot.py:179-195 | Ascending or descending, whatever enters or leaves the table between pages, a walk is in strict key order, so no row comes twice. |
| Pagination.WalkIsComplete | backend/app/models/orders/order.py:145-161 | A finished walk returns every row that stays in the result set throughout, by its key, also when its other columns are updated between the pages. |
| Pagination.StaticWalk | backend/app/models/ops/agent_action_request.py:204-220 | On an unchanging table a finished walk is exactly the table, in key order. |
| Cursor.Base64RoundTrip | backend/app/core/pagination.py:63-90 | URL-safe base64 without padding (section 5 of RFC 4648), padded again by length, decodes to the same bytes. |
| Cursor.CursorRoundTripIff | backend/app/core/pagination.py:63-104 | Given that JSON reads back the values at hand, a cursor decodes to them if and only if the JSON payload has at most 1520 bytes; a longer one is refused. |
| Cursor.PayloadIff | backend/app/core/pagination.py:80-93 | A cursor is accepted if and only if it is ASCII of 1 to 2048 characters whose bytes are a non-empty payload and that payload's own checksum. |
| Cursor.WrongChecksumIsInvalid | backend/app/core/pagination.py:88-91 | Any payload with another checksum is refused. |
| Cursor.DecodesIff | backend/app/core/pagination.py:94-104 | A cursor decodes to some values if and only if its payload is the JSON text of a non-empty array of exactly these scalars. |
| Cursor.LawfulCodec | backend/app/core/pagination.py:68-97 | The assumed laws can be met, for any values and any payload length. |
| Cursor.RaisedIff | backend/app/core/pagination.py:88-97 | Decoding raises something else than the validation error exactly for a payload that passes the checksum and on which `json.loads` raises another error than its decode error, and every such payload of 1 to 1520 bytes has a cursor. |
| TradingDays.Add | backend/app/core/clock.py:76-104 | The two search loops and the step loop, forward and backward, compute the n-fold step or the exhaustion error. |
| TradingDays.ForwardCounts | backend/app/core/clock.py:98-104 | A successful result for n > 0 is a trading day with exactly n trading days in (d, result]. |
| TradingDays.BackwardCounts | backend/app/core/clock.py:98-104 | The mirror image for n < 0. |
| TradingDays.ResultIsTheNth | backend/app/core/clock.py:98-104 | It is the only such day. |
| TradingDays.AddComposes | backend/app/core/clock.py:98-104 | Steps of the same sign compose additively, failures included. |
| TradingDays.AddInverts | backend/app/core/clock.py:76-104 | From a trading day, n days one way and back return to it without exhausting the calendar. |
| TradingDays.ExhaustedIff | backend/app/core/clock.py:76-96 | The error occurs if and only if some step along the way faces 14 closed days. |
| TradingDays.InMemoryNeverExhausts | backend/app/core/clock.py:33-46 | With fewer than ten holidays in any fourteen days the in-memory calendar never raises it, in either direction. |
| BillingPeriods.OrdinalOrder | backend/app/jobs/monthly_fee_charge.py:34-39 | Field-by-field comparison of dates is comparison of day numbers counted month by month, leap years included. |
| BillingPeriods.PeriodIsMonthBefore | backend/app/jobs/monthly_fee_charge.py:34-39 | The period holds exactly the dates of the month before the run's month; it fails exactly in the first representable month. |
| BillingPeriods.OnlyTheMonthMatters | backend/app/jobs/monthly_fee_charge.py:34-39 | Only the month of the argument matters. |
| BillingPeriods.ConsecutivePeriodsAreAdjacent | backend/app/jobs/monthly_fee_charge.py:34-39 | In consecutive months the day after one period is the first of the next, across year ends and leap years. |
| BillingPeriods.RunBillsItsMonth | backend/app/models/fees/fee_accrual.py:81-106 | One run over its driver query picks up every accrual of its month as often as it is stored, for every customer, and no other. |
| BillingPeriods.BilledByItsRunOnly | backend/app/jobs/monthly_fee_charge.py:63-80 | Over consecutive runs an accrual is picked up as it stood at the one run for its month, even if the table grows between runs. |
| BillingPeriods.SpanIsBilledExactlyOnce | backend/app/models/fees/fee_accrual.py:81-93 | With the span in place, consecutive runs pick up exactly the accruals from the first period's start to the last one's end, each once. |
| HighWaterMark.FeeAccrualService.AccrueForCustomer | backend/app/services/fees/fee_accrual_service.py:51-70 | Accrues if and only if there is a shadow value, the date is not accrued yet and the amounts fit: the rise over the peak (the shadow value itself on the first call) and its fee; otherwise mark and accruals are as they were, and it fails exactly when the amounts do not fit. |
| HighWaterMark.AccruesIff | backend/app/services/fees/high_water_mark_service.py:60-81 | The same of the specification, with the new mark, which is the higher of peak and shadow value, and the error of the first amount that does not fit. |
| HighWaterMark.CountedIsCharged | backend/app/services/fees/fee_accrual_service.py:51-70 | After any run there is exactly one accrual for each counted call, of the rise over the peak of those before it; which calls count is found from the calls alone: those with a shadow value whose amounts fit, the first of each date. |
| HighWaterMark.GainsAreChargedOnce | backend/app/services/fees/high_water_mark_service.py:60-81 | After any run the mark is the highest shadow value of the counted calls, the gains add up to exactly its rise, none is negative and no day is accrued twice. |
| HighWaterMark.FeesFollowGains | backend/app/services/fees/fee_accrual_service.py:61-67 | After any run of n accruals the summed fees are within n/2 ten-thousandths, and one part in 2 * 10^27, of the rate times the summed gains. |
| OrderProjection.Fold | backend/app/services/orders/order_projection_service.py:40-73 | The loop over the sorted events computes the projection, or its first arithmetic error. |
| OrderProjection.ArrivalOrderDoesNotMatter | backend/app/services/orders/order_projection_service.py:46 | Under unique sequence numbers the projection depends only on which events are on file. |
| OrderProjection.ProjectionIs | backend/app/services/orders/order_projection_service.py:46-73 | The last event by sequence decides the status, the fills the quantity, and the average is one rounding of notional over quantity. |
| OrderProjection.ProjectsIff | backend/app/services/orders/order_projection_service.py:46-73 | The projection is refused exactly when the amount of a fill, a running total or the average price is out of range; without events it is approved and empty. |
| OrderProjection.NoStatusIsFinal | backend/app/services/orders/order_projection_service.py:46-66 | Appending an event with the highest sequence number makes the projected status what that event says, whatever it was before. |
| OrderProjection.CanceledCanStillFill | backend/app/services/orders/order_projection_service.py:51-64 | The projection of a cancellation is canceled, and filled once a fill of the whole quantity follows. |
| Envelope.UnpackInvertsPack | backend/app/core/crypto.py:68-99 | Packing succeeds exactly for a 12-byte nonce and a wrapped key below 64 KiB, and unpacking gives the parts back. |
| Envelope.PackInvertsUnpack | backend/app/core/crypto.py:81-99 | Whatever bytes unpacking accepts are exactly what packing its result writes. |
| Envelope.UnpacksIff | backend/app/core/crypto.py:81-99 | Bytes unpack if and only if packing gives them; others are refused for their version exactly when they have a header with another one, and as truncated otherwise. |
| Envelope.TruncationIsRejected | backend/app/core/crypto.py:84-93 | A value cut anywhere before the end of its nonce is rejected as truncated. |
| DekCache.CacheIsLru | backend/app/integrations/azure/keyvault_cipher.py:31-54 | After every run of calls: the size is within the maximum, each entry is its key's last put, iteration order is last-use order, and a live key is missing only if that many other keys were used since. |
| DekCache.ServedIsFresh | backend/app/integrations/azure/keyvault_cipher.py:39-48 | A served key is the last one put for it, strictly within its time to live. |
| DekCache.RecentIsServed | backend/app/integrations/azure/keyvault_cipher.py:31-48 | A live key with fewer than the maximum of others used since is served strictly before the end of its time to live and expires from then on; a miss means it is not live or that many others were used. |
| DekCache.Cache.Lookup | backend/app/integrations/azure/keyvault_cipher.py:39-48 | Hit, expiry and miss change the dictionary as the run says, and a hit serves a stored entry. |
| DekCache.Cache.Store | backend/app/integrations/azure/keyvault_cipher.py:50-54 | The in-place assignment, the move and the eviction loop leave what the run says, never above the maximum. |
| KeyVault.KeyVaultCipher.Encrypt | backend/app/integrations/azure/keyvault_cipher.py:73-83 | Any envelope it returns decrypts without a cache to the plaintext; it fails exactly on a failed wrap or an oversized wrapped key, and every cached key stays the vault's. |
| KeyVault.KeyVaultCipher.Decrypt | backend/app/integrations/azure/keyvault_cipher.py:85-105 | The cacheless answer whenever the vault answers or the key is cached and unexpired, an outage otherwise; which of text, tag failure and text error follows exactly from opening with the vault's key; exactly which cache calls it makes. |

## Left out

- Row-level security, roles, authentication, MFA, CSRF, provider adapters, webhooks, chat, MCP tools, views and the frontend: framework behaviour, I/O or thin wrappers.
- Cash policy, deposits and withdrawals, reconciliation, valuation, rebalancing and dividends: queries and sums whose hard part (balance, rounding, visibility) is covered above.
- The creation of missing accounts (and the error for a missing cash account), lot settlement obligations, the restatement and disclosure that a wash sale or split triggers, and the designation check at order placement.
- TaxLots.CarryInto: takes the unadjusted losses in table order; the query leaves their order open, and each loss goes to the same lot in any order.
- TaxLots.Sell: ids and fill uniqueness of sell fills are enforced by the order-event table, which is not part of the lot model.
- TaxLotBook.LotRunSafety: its statement about the position account excludes negative sell quantities and decimal split ratios, for which the exact drift of each call is in `SellKeepsInv` and `SplitKeepsInv`.
- TaxLotSplits.DecimalSplitDrift: writes the drift in single roundings below T * num = 10^27 only; beyond it `SplitKeepsInv` has it in the code's own operations.
- AllocationProofs.AllocateConserves: assumes 10 * t * W < 10^28; the exact condition without it is in `SumsExactlyIff`.
- Cursor.CursorRoundTripIff: floats are finite ones; a NaN, which JSON reads back as another NaN, is not among the values.
- SubPeriodReturns.AsOfIsStable: that later rows are recorded beyond the cutoff is assumed; with a transaction-start clock it is not a fact of the code.
- Snapshots.SnapshotReproduces: the valuation and the linking of returns are opaque functions; the holdings of a snapshot are not modelled.
- Pagination.WalkIsComplete: is about walks that finish; a client may stop early, and a table that grows forever may never be finished.
- DailyCloses.BatchedReads: one security's group at a time, which is what `DISTINCT ON` and the ranking partition by; the single SQL statement is not modelled.
- KeyVault.KeyVaultCipher.Decrypt: AES-GCM, key wrapping and UTF-8 are function parameters with their inverse laws; key lengths are not checked.
- DekCache.Cache.Store: the maximum size is a natural number; a negative one would raise on the first put.
- HighWaterMark.GainsAreChargedOnce: the shadow value of a day is a parameter.
- BillingPeriods.RunBillsItsMonth: the charge that is created from a run's accruals (skipped when their sum is zero or one exists for the period) is not modelled.
- OrderProjection.ArrivalOrderDoesNotMatter: assumes the unique constraint on sequence numbers; deriving a sequence number from a timestamp truncates a float and is not modelled.
- Money and units multiplied or divided by a decimal scalar, other than in a split and a fee.
- The overflow of NUMERIC(18, 4) in the balance total of the deferred trigger.
- Outbox.OutboxWorker.DrainOnce: the retry delay 2^(attempts - 1) seconds is unbounded; from about the 39th attempt on it no longer fits a timedelta or a date, the retry raises and the row stays processing.
- TaxLotConcurrency.ConcurrentFillsMissIff: one sell beside one buy; two sells of a lot and two buys around one loss wait for each other's row locks.
- Outbox liveness after a crash: a row left processing is never reclaimed by the code. Worker ids may coincide in the model, as process ids may.
- A scheduled job's at-most-once run per date: the run row is only flushed at commit, so the code does not give it.
- The `superseded_by IS NULL` filter of the curated views, which reads the field the other way round than `is_superseded`.
- The conversion of instants to market dates, the in-memory calendar's session times, and the listen loop of the worker.
- Isolation is READ COMMITTED with row locks and unique constraints, as the step relations spell out; serialization failures are not modelled.
