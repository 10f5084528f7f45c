# Drift clearing house: verified model

A Dafny model of the exchange's lending ledger, its virtual AMM, its partial
liquidation, and the client library's event containers and number printer, with
proofs of what they keep over every run.

`dafny verify dfyconfig.toml` checks the project.

## What is modelled

**Ledger** (`Checked`, `BankMath`, `Booking`, `BookingOutcomes`, `Ledger`, `LedgerLaws`,
`Legs`, `Outcomes`, `LedgerTheorems`, `Underflow`, `Backing`, `Credits`,
`LedgerExamples`, `BankController`, `InterestMirror`). One bank, every account with a balance in it
(users and PnL pools), and the vault as a token counter. All arithmetic is the
program's: `u128` with checked operations, each of which can fail, and truncating
casts where it casts. `BankController` has the on-chain accounts as mutable objects
and the instructions as methods on them; a failing instruction is rolled back, as
the runtime does. Each method is proved against its transition in `Ledger`, and
the laws are proved about runs of those transitions. `Legs` breaks an instruction
into the bookings it makes, which lifts what holds of one booking to instructions.
`BookingOutcomes` and `Outcomes` say when a booking, an accrual and each instruction
succeed, and what they then leave, in plain numbers.
The main results are `Conservation`, `Solvency`, `SurplusIsEarned`,
`ReachableUnderflowIff`, `RoomBacksBorrows` and `UsersGetWhatTheRunSays`.
`InterestMirror` is the client library's computation of the accrued interest.

**AMM** (`Bn`, `Amm`, `TradeRuns`, `Orders`, `OrderRuns`, `SquareRoot`, `LimitSizing`,
`Repeg`). bn.js integers, unbounded, with a division that truncates toward zero
and throws on zero. Main results: `NoFreeLoop`, `OrderAccounting`, `FlatToFlat`,
`SquareRootBN`, `CalculateMaxBaseAssetAmountToTrade`, `PrepegAffordable`.

**Liquidation** (`Liquidation`). The partial-liquidation loop, with the totals
computed from the per-market figures as the margin code computes them, the oracle
and slippage guards as arbitrary decisions, and the cost the position controller
takes off a position for whatever base the curve exchanges. Main results:
`LiquidationWithinLimits`, `LiquidatedUnderflowIff` and `NeverUnderflowsIff`.

**Event containers** (`RecentEntries`, `TxEventCache`, `EventOrder`, `EventList`).
Nodes with `next` and `prev` pointers, proved against sequences.

**Number printing** (`Decimal`, `BigNum`, `PrettyPrinter`). Printing, shortening and
grouping against parsing.

## What the code does that its design does not say

- `PNLPool.decrease_balance` adds its argument (`programs/clearing_house/src/state/market.rs:74-77`),
  so paying a user out of a pool makes the pool's balance grow. Account balances
  then no longer add up to the bank's totals: `Conservation` says by exactly how
  much, `ConservedStepIff` and `TakesFromPoolIff` say exactly which instruction
  does it, and `PoolBreaksConservation` is a run after which a user cannot
  withdraw his own balance. `ReachableUnderflowIff` says of every reachable state
  exactly which instruction fails that way, and `UnderflowNeedsPoolPayment` that it
  takes a run in which some pool has paid.
- `withdraw_fees` sends tokens from the bank vault without booking them
  (`programs/clearing_house/src/lib.rs:2148-2184`); they are a term of their own in
  `Solvency`.
- Accrual can leave borrows above deposits (`AccrualCanBreakBacking`).
  `AccrualKeepsBackingIff` gives the exact condition in whole tokens before the
  accrual, `AccrualErosion` bounds what one accrual can take by the rate and the
  elapsed time, `CoverKeepsBacking` turns that into a condition that needs no interest
  computed, and `RoomBacksBorrows` keeps the backing over every run whose accruals
  meet it or leave a token to spare.
- `reduce_only` caps nothing on an account that is already on the instruction's
  side (`ReduceOnlyDeposit`, `ReduceOnlyWithdrawal`).
- The client library's interest mirror (`sdk/src/math/bankBalance.ts:83-90`) divides
  the lower slope by one minus the optimal utilization, where the program
  (`programs/clearing_house/src/math/bank_balance.rs:129-142`) divides by the optimal
  utilization: the rates agree exactly where that is a half (`LowerSlopeAgreesIff`),
  as `tests/testHelpers.ts:772` sets it. At an optimal utilization of one the mirror
  divides by zero and beyond it its rate is not positive (`LowerSlopeSide`). It also
  has no early exit at zero utilization (`MirrorAgrees`). The ledger follows the
  program.
- A trade of the full size `calculateMaxBaseAssetAmountToTrade` returns can cross
  the limit (`FullSizeCanCross`); one unit less cannot. On the exact price a full-size
  long stays below the limit only if the computed bound is one short of the square
  of the reserve reached (`FullSizeIff`, `FullSizeReachesLimit`).
- An event appended at the end of an `EventList` does not move its tail pointer, so
  the next eviction removes whichever event the tail still names. The first events
  of the order are kept exactly when it was not stale and the insert does not append
  (`EvictionKeepsFirstIff`). In ascending order these are the newest
  (`EvictionKeepsNewestIff`, without assuming events distinct, and
  `StaleTailDropsNewest`). In descending order the newest stand at the other end,
  and the stale tail is what keeps them: `EvictionKeepsLastIff` says exactly when,
  `StaleTailKeepsNewest` shows it.
- `sdk/src/math/amm.ts:55` asserts that the ratio chosen does not cost. At the smallest
  one, 978/1000, that holds at every peg exactly if eleven times a long inventory is at
  least the remainder of 489 times the base reserve by 500, or a short inventory fits
  the scaled reserve (`SmallestRatioNeverCostsIff`; `NeverCostsIff` for any ratio).
  `PrepegAssertionFails` is an input for which it does not.
- The percentages of a partial liquidation can be set above one
  (`programs/clearing_house/src/lib.rs:2603-2627`). The limits of
  `LiquidationWithinLimits` hold all the same. `LiquidatedUnderflowIff` says exactly when
  a liquidation underflows, `NeverUnderflowsIff` which closing percentages are safe for
  every user of the partial branch whose positions cover their cost, and
  `ImproperPercentageUnderflows` is a user due for one at a closing percentage of two.
- `printShort` drops the zeros of an integer without decimal places, and `print`
  puts the sign of a small negative number behind the delimiter;
  `ShortRoundTripIff` and `PrintRoundTripIff` give the exact conditions.

## Model

| member | source | states |
|---|---|---|
| `BankMath.ZeroTokensIffZeroBalance` | programs/clearing_house/src/math/bank_balance.rs:41-65 | with indices of at least 10^10 and at least six decimals, a balance is worth no tokens exactly when it is zero |
| `BankMath.BankBalanceBounds` | programs/clearing_house/src/math/bank_balance.rs:11-39 | deposits are booked rounded down and borrows rounded up, within one index unit of the tokens; a borrow that rounds to nothing is not rounded up |
| `BankMath.PartialPaymentFits` | programs/clearing_house/src/controller/bank_balance.rs:53-64 | paying fewer tokens than a balance is worth never takes more units than it holds |
| `BankMath.PrecisionScales` | programs/clearing_house/src/math/bank_balance.rs:17-23 | the precision times ten to the decimals is 10^16 |
| `BankMath.TokenAmountInNumbers` | programs/clearing_house/src/math/bank_balance.rs:41-65 | tokens are balance times index over precision, rounded down; the two ways it fails |
| `BankMath.BankBalanceInNumbers` | programs/clearing_house/src/math/bank_balance.rs:11-39 | units are tokens times precision over index, borrows one more unless nothing; the four ways it fails |
| `BankMath.InterestIsCovered` | programs/clearing_house/src/math/bank_balance.rs:72-185 | for every rate and elapsed time, interest credited to deposits is at most the interest charged to borrows plus the index growth of one deposit unit |
| `BankMath.InterestIsCoveredProportionally` | programs/clearing_house/src/math/bank_balance.rs:72-185 | the same cover as a ratio: deposits times credit times tokens is at most (tokens + 1) times borrows times charge |
| `BankMath.BorrowRateMonotone` | programs/clearing_house/src/math/bank_balance.rs:98-142 | the borrow rate never falls as utilization rises, also across the kink |
| `BankMath.BorrowRateSetPoints` | programs/clearing_house/src/math/bank_balance.rs:98-142 | the rate meets the optimal rate at the kink and the maximum at full utilization, to within one; for an optimal utilization above one, which nothing refuses, the error at the kink is bounded by it |
| `Booking.BookingKeepsTerms` | programs/clearing_house/src/controller/bank_balance.rs:35-90 | a booking changes balances only: indices, decimals and rates stay |
| `Booking.UserBookingClosedForm` | programs/clearing_house/src/controller/bank_balance.rs:41-74 | the balance after a booking in each case; the type flips exactly when more is booked than the balance is worth, and the new balance is made of the excess alone |
| `Booking.BookingMirrors` | programs/clearing_house/src/controller/bank_balance.rs:41-74 | account and bank totals move together on both sides, except that a pool paid from grows by what the bank loses |
| `Booking.BookingDrift` | programs/clearing_house/src/controller/bank_balance.rs:41-74 | net debt changes by the tokens booked, with an error of at most one unit of each index |
| `Booking.UserBookingWorth` | programs/clearing_house/src/controller/bank_balance.rs:41-74 | the worth of a user account changes by the tokens booked, with the same error |
| `Booking.BookingKeepsBacking` | programs/clearing_house/src/controller/bank_balance.rs:76-87 | deposit tokens stay at least borrow tokens through any successful booking |
| `Booking.BookingUnderflowIff` | programs/clearing_house/src/controller/bank_balance.rs:115-136 | a booking underflows exactly when it goes against the account and takes more units than the bank records on that side; never because of the account itself |
| `BookingOutcomes.BookedSucceedsIff` | programs/clearing_house/src/controller/bank_balance.rs:41-74 | a booking goes through, but for the check, exactly when its numbers fit their width, a total covers what is taken, and a pool is not turned round |
| `BookingOutcomes.BookingSucceedsIff` | programs/clearing_house/src/controller/bank_balance.rs:35-90 | it succeeds exactly if besides, and only in the Borrow direction, the borrows it leaves are worth at most the deposits |
| `BookingOutcomes.InsufficientDepositsIff` | programs/clearing_house/src/controller/bank_balance.rs:76-87 | it is refused for want of deposits exactly in the Borrow direction with borrows worth more; a deposit or repayment never is |
| `BookingOutcomes.PoolBookingClosedForm` | programs/clearing_house/src/state/market.rs:60-82 | the balance of a pool and the total of the bank after a booking on a pool |
| `BankController.Bank.constructor` | programs/clearing_house/src/lib.rs:271-297 | a new bank has empty totals and both indices at 10^10 |
| `BankController.Bank.IncreaseBankBalance` | programs/clearing_house/src/controller/bank_balance.rs:92-113 | in place, the total of one side grows or the call overflows |
| `BankController.Bank.DecreaseBankBalance` | programs/clearing_house/src/controller/bank_balance.rs:115-136 | in place, the total of one side shrinks or the call underflows |
| `BankController.Bank.UpdateCumulativeInterest` | programs/clearing_house/src/controller/bank_balance.rs:12-33 | in place, both indices and the time stamp move as one, or none does |
| `BankController.BankBalance.DecreaseBalance` | programs/clearing_house/src/state/market.rs:74-77 | in place; a PnL pool grows where a user balance shrinks |
| `BankController.BankBalance.UpdateBalanceType` | programs/clearing_house/src/state/market.rs:79-81 | in place; a pool refuses |
| `BankController.UpdateBankBalances` | programs/clearing_house/src/controller/bank_balance.rs:35-90 | the in-place controller does to bank and account what the booking specification says, with the same error in every failing case |
| `BankController.ClearingHouse.Deposit` | programs/clearing_house/src/lib.rs:491-566 | the deposit instruction on the objects is the ledger transition |
| `BankController.ClearingHouse.Withdraw` | programs/clearing_house/src/lib.rs:571-653 | the withdraw instruction is the ledger transition |
| `BankController.ClearingHouse.Transfer` | programs/clearing_house/src/lib.rs:655-739 | the transfer instruction is the ledger transition |
| `BankController.ClearingHouse.SettlePnl` | programs/clearing_house/src/lib.rs:1496-1581 | the settle_pnl instruction is the ledger transition and returns what stays unsettled |
| `BankController.ClearingHouse.CollectLiquidationFee` | programs/clearing_house/src/lib.rs:2045-2105 | the fee tail of liquidate is the ledger transition |
| `BankController.ClearingHouse.Execute` | programs/clearing_house/src/lib.rs:491-748 | a transaction either takes effect or leaves bank, accounts and vault as they were |
| `BankController.ClearingHouse.ExecuteAll` | programs/clearing_house/src/lib.rs:491-748 | every run of the objects is the same run of the ledger |
| `LedgerLaws.AccrueEffect` | programs/clearing_house/src/controller/bank_balance.rs:12-33 | an accrual takes from the net debt what it charges less what it credits, and adds at most the growth of the deposit index |
| `LedgerLaws.BookEffect` | programs/clearing_house/src/controller/bank_balance.rs:35-90 | one booking as an effect on totals, net debt and backing |
| `LedgerLaws.EffectsCompose` | programs/clearing_house/src/controller/bank_balance.rs:35-90 | effects compose: errors add up, measured at the later indices |
| `LedgerLaws.StepEffect` | programs/clearing_house/src/lib.rs:491-748 | the effect of every instruction, tied to the tokens that moved through the vault |
| `LedgerLaws.RunEffect` | programs/clearing_house/src/lib.rs:491-748 | the effect of every run, by induction |
| `Ledger.CappedAmountInNumbers` | programs/clearing_house/src/lib.rs:524-534 | the whole amount moves without reduce_only or on an account of the same side, and otherwise the smaller of it and the low 64 bits of what the account is worth |
| `Outcomes.RateInNumbers` | programs/clearing_house/src/math/bank_balance.rs:98-142 | both slopes of the borrow rate and when it can be computed |
| `Outcomes.InterestInNumbers` | programs/clearing_house/src/math/bank_balance.rs:72-185 | interest over the seconds elapsed of a year of 365 days, in plain numbers, and exactly when it can be computed |
| `Outcomes.AccrualInNumbers` | programs/clearing_house/src/controller/bank_balance.rs:12-33 | both indices and the time stamp move exactly if depositors are credited something and borrowers charged more than one unit |
| `Outcomes.DepositOutcome` | programs/clearing_house/src/lib.rs:491-566 | exactly when a deposit succeeds, and what it leaves: the vault gains what the account is booked, the whole amount unless capped |
| `Outcomes.WithdrawalOutcome` | programs/clearing_house/src/lib.rs:571-653 | exactly when a withdrawal succeeds, and what it leaves |
| `Outcomes.TransferOutcome` | programs/clearing_house/src/lib.rs:655-739 | exactly when a transfer succeeds, and the two bookings it leaves |
| `Outcomes.SettlementOutcome` | programs/clearing_house/src/lib.rs:1496-1581 | exactly when a settlement succeeds in each of its cases, what it pays and what stays unsettled |
| `Outcomes.FeeOutcome` | programs/clearing_house/src/lib.rs:2045-2105 | exactly when a fee is collected, from whom, and who gets which part |
| `Outcomes.FeeWithdrawalOutcome` | programs/clearing_house/src/lib.rs:2148-2184 | up to the limit of the market and what the vault holds |
| `Outcomes.OpeningOutcome` | programs/clearing_house/src/state/bank.rs:71-75 | an account starts empty, a user as a depositor |
| `LedgerTheorems.Conservation` | programs/clearing_house/src/controller/bank_balance.rs:92-136 | in every reachable state borrows add up exactly and deposits are overstated by twice what pools paid; the books balance exactly when pools paid nothing |
| `LedgerTheorems.ConservedStepIff` | programs/clearing_house/src/state/market.rs:74-77 | one instruction keeps balanced books balanced exactly when it takes no units from a pool |
| `LedgerTheorems.TakesFromPoolIff` | programs/clearing_house/src/lib.rs:1524-1552 | when that is, from what settle_pnl sees before it pays |
| `LedgerTheorems.Solvency` | programs/clearing_house/src/controller/bank_balance.rs:41-74 | in every reachable state vault and loans cover the recorded deposits up to one unit of each index per booking, the growth of the deposit index, and unbooked fee withdrawals |
| `LedgerTheorems.SurplusIsEarned` | programs/clearing_house/src/controller/bank_balance.rs:12-90 | over every run, what vault and loans hold beyond the deposits is what the accruals earned, on both sides within one unit of each index per booking |
| `LedgerTheorems.SolvencyWithoutInterest` | programs/clearing_house/src/controller/bank_balance.rs:41-74 | with no accrual the drift is bounded on both sides |
| `LedgerTheorems.ClaimsAreCovered` | programs/clearing_house/src/controller/bank_balance.rs:41-74 | solvency against what the accounts claim rather than what the bank records |
| `Backing.DepositsBackBorrows` | programs/clearing_house/src/controller/bank_balance.rs:76-87 | in every run without accrual deposit tokens are at least borrow tokens |
| `Backing.AccrualKeepsBackingIff` | programs/clearing_house/src/controller/bank_balance.rs:12-33 | after an accrual deposits back the borrows exactly when tokens held, whole tokens added and carries of both sides allow it |
| `Backing.RoomKeepsBacking` | programs/clearing_house/src/controller/bank_balance.rs:12-33 | one token to spare after what is charged and credited is enough; without it backing survives by the carries at most |
| `Backing.AccrualErosion` | programs/clearing_house/src/math/bank_balance.rs:72-185 | what one accrual can take from the cover of the borrows, in terms of the borrow rate and the elapsed time |
| `Backing.CoverKeepsBacking` | programs/clearing_house/src/math/bank_balance.rs:72-185 | where the cover outweighs that, borrows stay covered and backed through the accrual |
| `Backing.RoomBacksBorrows` | programs/clearing_house/src/controller/bank_balance.rs:76-87 | deposits back the borrows after every run, accruals included, each of which finds that room or that cover |
| `Legs.StepFollowsPlan` | programs/clearing_house/src/lib.rs:491-748 | a successful instruction is its bookings carried out one after the other, and only a booking can underflow |
| `Underflow.UnderflowIff` | programs/clearing_house/src/controller/bank_balance.rs:115-136 | from any state, an instruction underflows exactly when its checks pass and one of its bookings overdraws the bank |
| `Underflow.ReachableUnderflowIff` | programs/clearing_house/src/controller/bank_balance.rs:115-136 | in every reachable state, exactly when the booking that debits an account needs more deposit units than the bank records by then |
| `Underflow.WithdrawalUnderflowIff` | programs/clearing_house/src/lib.rs:571-653 | the condition written out for a withdrawal, on the accrued bank |
| `Underflow.NoUnderflowOnBalancedBooks` | programs/clearing_house/src/controller/bank_balance.rs:115-136 | on balanced books no instruction drives a balance or a total below zero |
| `Underflow.UnderflowNeedsPoolPayment` | programs/clearing_house/src/state/market.rs:74-77 | an underflow needs a run in which some pool has paid |
| `LedgerTheorems.PoolTypeErrorUnreachable` | programs/clearing_house/src/state/market.rs:79-81 | no instruction ever reaches the pool-type error |
| `LedgerTheorems.SettlementIsExact` | programs/clearing_house/src/lib.rs:1496-1581 | unsettled pnl moves toward zero by exactly what both ledger legs carry; other accounts and the vault stay |
| `LedgerTheorems.ReduceOnlyNeverFlips` | programs/clearing_house/src/lib.rs:524-541 | a capped amount keeps the type of the account and never grows its balance, through the truncating cast |
| `LedgerTheorems.ReduceOnlyDeposit` | programs/clearing_house/src/lib.rs:524-541 | a reduce-only deposit ends as a deposit exactly when the account was one, in which case nothing was capped |
| `LedgerTheorems.ReduceOnlyWithdrawal` | programs/clearing_house/src/lib.rs:602-620 | a reduce-only withdrawal ends as a borrow exactly when the account was one |
| `LedgerTheorems.FeeSplitIsExact` | programs/clearing_house/src/lib.rs:2045-2059 | the two parts of a liquidation fee are the whole fee, the first one its floored share |
| `Credits.UsersGetWhatTheInstructionSays` | programs/clearing_house/src/lib.rs:491-748 | each user is credited the amount the instruction moves, up to one index unit for each booking that names him, and accounts it does not name stay as they were |
| `Credits.UsersGetWhatTheRunSays` | programs/clearing_house/src/lib.rs:491-748 | over every run a user gains what the successful instructions say and the interest on what he held, up to one index unit for each booking that named him |
| `LedgerExamples.PoolBreaksConservation` | programs/clearing_house/src/state/market.rs:74-77 | a concrete run after which accounts claim four times the recorded deposits and a user cannot withdraw |
| `LedgerExamples.AccrualCanBreakBacking` | programs/clearing_house/src/math/bank_balance.rs:164-179 | a run from an empty bank, all but one token lent out, after which one second of accrual puts borrows above deposits |
| `LedgerExamples.TransferGoesIntoDebt` | programs/clearing_house/src/lib.rs:655-739 | a transfer that leaves its giver a borrower |
| `LedgerExamples.FeeIsCollected` | programs/clearing_house/src/lib.rs:2045-2105 | a fee of 50, of which a third is shared |
| `LedgerExamples.DepositPaysDebt` | programs/clearing_house/src/lib.rs:524-534 | a plain deposit on a borrow account against a reduce-only one |
| `InterestMirror.UpperSlopeAgrees` | sdk/src/math/bankBalance.ts:73-82 | above the optimal utilization the client rate is the program rate |
| `InterestMirror.LowerSlopeSide` | sdk/src/math/bankBalance.ts:83-91 | up to the optimum the client understates the rate where that is at most a half, overstates it from there to one, divides by zero at one, and gives no positive rate beyond |
| `InterestMirror.LowerSlopeAgreesIff` | sdk/src/math/bankBalance.ts:83-91 | for every optimal utilization: the lower slopes agree for all rates and utilizations exactly where it is a half, or zero, where the program has none |
| `InterestMirror.MirrorAgrees` | sdk/src/math/bankBalance.ts:46-112 | the accrued interest agrees above the optimum, and everywhere if that is a half; the client throws up to an optimum of one, charges and credits next to nothing beyond, and charges one index unit at zero utilization |
| `InterestMirror.MirrorOverstatesInterest` | sdk/src/math/bankBalance.ts:83-91 | a bank with an optimum of eighty percent, for which the client predicts four times the interest |
| `Amm.TradeMovesAlongCurve` | sdk/src/math/amm.ts:231-266 | a base-sized trade moves along the curve by its amount, in the direction its side says |
| `Amm.Directions` | sdk/src/math/position.ts:176-190 | which side closes a position, and which a position is on |
| `Amm.WithoutCurve` | sdk/src/math/amm.ts:231-266 | no position is worth nothing, a negative swap throws |
| `TradeRuns.LegBounds` | sdk/src/math/amm.ts:514-528 | a long pays more than the exact price and a short receives no more, each within one unit |
| `TradeRuns.RunBounds` | sdk/src/math/amm.ts:405-419 | over a run the net bill tracks the quote reserve within one unit a leg |
| `TradeRuns.ReservesDependOnNetBase` | sdk/src/math/amm.ts:405-419 | two routes with the same net base reach the same reserves |
| `TradeRuns.NoFreeLoop` | sdk/src/math/amm.ts:514-528 | a closed loop ends with identical reserves and costs between nothing and one unit a leg, at least one unit if any leg was long |
| `TradeRuns.ClosingValueIsLegPrice` | sdk/src/math/position.ts:58-79 | the value of a position is what its closing leg brings in or costs |
| `TradeRuns.QuoteSwapIsWorthItsSize` | sdk/src/math/amm.ts:245-255 | a swap sized in quote moves the quote reserve by its size at the peg, rounded down, and is never charged more |
| `Orders.OrderAccounting` | sdk/src/orders.ts:62-153 | an order below the minimum does nothing; in all three branches base is conserved between market and position, cash changes by exactly the quote exchanged, and an empty position carries no cost |
| `Orders.ReductionAccounting` | sdk/src/orders.ts:121-151 | the reducing branch, whatever the rounding of the realised cost |
| `Orders.ReversalAccounting` | sdk/src/orders.ts:85-120 | the reversing branch, through both of its legs |
| `Orders.ReductionSplit` | sdk/src/orders.ts:121-151 | a partial close leaves the share of the cost that belongs to the part kept, rounded, and the collateral takes quote less the cost realised |
| `Orders.IncreaseSplit` | sdk/src/orders.ts:62-84 | an increase leaves the collateral alone and adds its quote to the cost |
| `Orders.ReversalSplit` | sdk/src/orders.ts:85-120 | a reversal realises the whole cost against the closing leg, and the new position costs the opening one |
| `OrderRuns.ReversalMatchesSingleSwap` | sdk/src/orders.ts:85-120 | a reversal reaches the reserves of one swap of the whole amount, and its two quotes add up to the single one or one less |
| `OrderRuns.RunAccounting` | sdk/src/orders.ts:36-155 | over every run base is conserved, and cash tracks the quote reserve, above it by less than one unit a long leg and below by less than one a short leg |
| `OrderRuns.FlatToFlat` | sdk/src/orders.ts:36-155 | a run that starts and ends flat restores the reserves; the collateral rises by less than the number of long legs or falls by less than the number of short legs |
| `SquareRoot.StepBounds` | sdk/src/math/utils.ts:17-24 | a step never goes below the root, and above it strictly decreases and halves the excess |
| `SquareRoot.StopsAtRoot` | sdk/src/math/utils.ts:23 | the break fires only at the root, or one above it when n + 1 is a perfect square |
| `SquareRoot.SquareRootBN` | sdk/src/math/utils.ts:3-29 | throws exactly on zero; otherwise leaves by its break within the bit length plus one steps, at the root |
| `SquareRoot.CloseRootIff` | sdk/src/math/utils.ts:3-29 | the answer in terms of the floor of the square root, both ways |
| `LimitSizing.ExactPriceIff` | sdk/src/math/amm.ts:479-486 | a reserve is beyond the computed bound exactly when its exact price is below the limit |
| `LimitSizing.PriceBelowLimit` | sdk/src/math/amm.ts:204-218 | the floored price is then below the limit too |
| `LimitSizing.PriceAtLeastLimit` | sdk/src/math/amm.ts:204-218 | otherwise the price with one more quote unit is at least the limit |
| `LimitSizing.FullSizeIff` | sdk/src/math/amm.ts:470-512 | at the root the exact price is below the limit exactly when the root squared is the bound plus one |
| `LimitSizing.FullSizeReachesLimit` | sdk/src/math/amm.ts:470-512 | unless the bound plus one is a square, a full-size long reaches or passes the limit on the exact price and a full-size short never falls below it |
| `LimitSizing.CalculateMaxBaseAssetAmountToTrade` | sdk/src/math/amm.ts:470-512 | the size reaches the computed root, throws exactly on a zero limit or bound, any smaller trade stays within the limit on either side, and when the full size does |
| `LimitSizing.FullSizeCanCross` | sdk/src/math/amm.ts:470-512 | a concrete market where the full size overshoots the limit by half |
| `LimitSizing.CalculateAmountToTradeForLimit` | sdk/src/orders.ts:191-229 | an order with a fixed or floating price, post-only or not: throws exactly without its oracle, on a zero limit or bound; otherwise trades up to the limit if that is on its side, no more than it asks for, and within the limit short of that |
| `LimitSizing.PostOnlyKeepsBothPrices` | sdk/src/orders.ts:205-208 | a post-only order with an offset stays within its own price and the floating one |
| `LimitSizing.LimitPriceInNumbers` | sdk/src/orders.ts:191-211 | the order price without an offset; oracle price plus offset with one; the stricter of both if post-only |
| `LimitSizing.ExecutableInNumbers` | sdk/src/orders.ts:213-229 | no more than asked for, not beyond the root, and all of it short of the root |
| `Repeg.PegStepBounds` | sdk/src/math/repeg.ts:174-188 | the two divisions of the budgeted step are one floor |
| `Repeg.TargetPegMeetsPrice` | sdk/src/math/repeg.ts:132-143 | the price at the target peg is at most the target, and at the next peg at least |
| `Repeg.IdealPegIsNearest` | sdk/src/math/amm.ts:36-41 | the ideal peg is the nearest to the exact one, and its neighbours price on either side of the target |
| `Repeg.RepegCostInNumbers` | sdk/src/math/repeg.ts:57-66 | the cost is inventory times change of peg, truncated once |
| `Repeg.BudgetedPegStep` | sdk/src/math/repeg.ts:132-189 | the target when moving there is free, otherwise a step on the side of the inventory, for either sign |
| `Repeg.RepegWithinBudget` | sdk/src/math/repeg.ts:57-66 | the budgeted repeg costs nothing or spends the budget, within one part in the inventory above and one in a thousand of the inventory below |
| `Repeg.BudgetedPegAffordable` | sdk/src/math/repeg.ts:132-189 | the same for any AMM the function returns on: without a whole unit of inventory the division would have thrown |
| `Repeg.PrepegAffordable` | sdk/src/math/amm.ts:29-103 | the pre-trade repeg stays within the fee budget, or within it plus what shrinking the curve made up |
| `Repeg.PrepegAmmConsistent` | sdk/src/math/amm.ts:105-142 | the re-pegged AMM lies on its own curve with its own terminal reserve, and a covered repeg leaves the protocol half of its fees or what it had |
| `Repeg.BudgetInNumbers` | sdk/src/math/amm.ts:45-46 | the budget is what is kept of the fees beyond half of them, or nothing |
| `Repeg.RatioNotBelow` | sdk/src/math/amm.ts:50-53 | the budgeted ratio where it is at least 978/1000, and that otherwise |
| `Repeg.RescaledInNumbers` | sdk/src/math/amm.ts:66-90 | what scaling by the ratio does to reserves, root and terminal reserve, and what it leaves |
| `Repeg.PrepegOutcome` | sdk/src/math/amm.ts:29-103 | the ideal peg where the budget covers it; otherwise a throw or the budgeted peg on the rescaled curve, case by case |
| `Repeg.PrepegAmmOutcome` | sdk/src/math/amm.ts:105-142 | no change without intensity; otherwise the peg, the rescaled curve and the cost taken off the fees |
| `Repeg.UnscaledCurveCostsNothing` | sdk/src/math/repeg.ts:20-48 | scaling k by one costs nothing |
| `Repeg.ExactRatioSolves` | sdk/src/math/repeg.ts:70-130 | the formula behind the budgeted ratio solves for the cost exactly, before rounding |
| `Repeg.BudgetedKNearExact` | sdk/src/math/repeg.ts:70-130 | both parts of the computed ratio differ from the exact ones by their truncations alone |
| `Repeg.RescalingCostSign` | sdk/src/math/repeg.ts:20-48 | the sign of the cost from the tilt of both quotients, for any signs of inventory, ratio and divisors, and exactly when it divides by zero |
| `Repeg.NeverCostsIff` | sdk/src/math/repeg.ts:20-48 | rescaling never costs at any peg exactly where the tilt is not negative, and never pays exactly where it is not positive |
| `Repeg.ShrinkingNeverCostsIff` | sdk/src/math/repeg.ts:20-48 | for ratios up to one: exactly if a long inventory outweighs the remainder the floored reserve drops, or a short one fits the scaled reserve |
| `Repeg.GrowingNeverPaysIff` | sdk/src/math/repeg.ts:20-48 | for ratios from one up, likewise |
| `Repeg.SmallestRatioNeverCostsIff` | sdk/src/math/amm.ts:50-55 | the condition at 978/1000, in whole numbers |
| `Repeg.PrepegAssertionFails` | sdk/src/math/amm.ts:29-55 | an AMM and target price for which the assertion of the pre-trade repeg fails |
| `Liquidation.MostClosedWithinTotal` | programs/clearing_house/src/lib.rs:1849-1853 | the floored shares of the positions add up to at most the floored share of the total |
| `Liquidation.MostReleasedWithinTotal` | programs/clearing_house/src/math/margin.rs:372-388 | the per-market requirements, divided one by one, add up to at most the total divided once |
| `Liquidation.AdjustedAtLeast` | programs/clearing_house/src/math/margin.rs:304-330 | collateral is never adjusted below its unadjusted value |
| `Liquidation.CollateralInNumbers` | programs/clearing_house/src/math/margin.rs:390-397 | collateral from deposits, pnl and unsettled pnl, never below zero |
| `Liquidation.TermsInNumbers` | programs/clearing_house/src/lib.rs:1843-1853 | the maximum fee and value closed, and exactly when they can be computed |
| `Liquidation.QuoteInNumbers` | programs/clearing_house/src/lib.rs:1886-1961 | the closing share of a position, less in proportion above the maximum slippage |
| `Liquidation.CloseMarketInNumbers` | programs/clearing_house/src/lib.rs:1956-2029 | fee, value closed and margin requirement after one market |
| `Liquidation.RemainingCostInNumbers` | programs/clearing_house/src/controller/position.rs:302-318 | a position loses the share of its cost that goes with the base exchanged |
| `Liquidation.AdjustedIsBetter` | programs/clearing_house/src/math/margin.rs:283-330 | the better of mark and oracle pnl where the oracle is consulted |
| `Liquidation.BranchInNumbers` | programs/clearing_house/src/math/margin.rs:399-408 | which users are liquidated fully, partially or not at all, and which of them the partial loop sees |
| `Liquidation.GuardsDecide` | programs/clearing_house/src/lib.rs:1854-1954 | which markets are passed over and which end the liquidation |
| `Liquidation.CloseMarketKeeps` | programs/clearing_house/src/lib.rs:1956-2029 | fee and margin are exact floored shares within their maxima, for any percentages; a closing share that never exceeds the whole never releases more margin than is left |
| `Liquidation.CloseFromUnderflowIff` | programs/clearing_house/src/lib.rs:1854-2037 | the loop underflows exactly when its walk meets a cost, a margin or a fee that does |
| `Liquidation.NothingUnderflows` | programs/clearing_house/src/lib.rs:1854-2037 | from any point of the loop, for any skips and any early exit, none is met if the closing share never exceeds the whole, the collateral covers the fee and the positions cover their cost |
| `Liquidation.CloseFromKeeps` | programs/clearing_house/src/lib.rs:1854-2037 | from any point of the loop, for any skips, any early exit and any percentages, the totals stay within their maxima |
| `Liquidation.StopsWhenEnough` | programs/clearing_house/src/lib.rs:2031-2037 | it stops only when the requirement plus the fee is below the adjusted collateral or every market not skipped is closed |
| `Liquidation.StopsAtFirstMet` | programs/clearing_house/src/lib.rs:2031-2037 | it stops behind the first market after which the requirement is met, and at the end if there is none |
| `Liquidation.LiquidatedOutcome` | programs/clearing_house/src/lib.rs:2040-2042 | the tally of the loop, or an error if nothing was closed |
| `Liquidation.LiquidatePartially` | programs/clearing_house/src/lib.rs:1843-2042 | the loop computes the specification |
| `Liquidation.LiquidatedUnderflowIff` | programs/clearing_house/src/lib.rs:1843-2042 | the same condition for a whole partial liquidation, from the figures it starts with |
| `Liquidation.LiquidationWithinLimits` | programs/clearing_house/src/lib.rs:1843-2042 | for any percentages fee and value closed stay within their maxima, the fee in proportion to the value closed to within a unit a market; with shares that never exceed the whole no subtraction underflows |
| `Liquidation.NeverUnderflowsIff` | programs/clearing_house/src/lib.rs:2603-2615 | no user of the partial branch underflows at a closing percentage exactly if its share, where computable, never exceeds the whole |
| `Liquidation.ImproperPercentageUnderflows` | programs/clearing_house/src/controller/position.rs:309-318 | a user due for partial liquidation at a closing percentage of two: the cost of the position underflows, or the margin if it cost nothing |
| `RecentEntries.LastIndexFinds` | sdk/src/events/txEventCache.ts:21-44 | the position of the latest add of a key: it holds the key, and nothing after it does |
| `RecentEntries.LatestIsLatest` | sdk/src/events/txEventCache.ts:21-44 | the specification lists each key once, at its latest value, in the order of latest adds |
| `RecentEntries.AddToPrefix` | sdk/src/events/txEventCache.ts:21-44 | adding to a bounded prefix of the latest entries gives the bounded prefix of the new ones |
| `RecentEntries.CacheHoldsLatest` | sdk/src/events/txEventCache.ts:21-44 | after any history the bounded cache is the last maxTx distinct keys by latest add |
| `TxEventCache.Cache.constructor` | sdk/src/events/txEventCache.ts:15-19 | an empty cache |
| `TxEventCache.Cache.Detach` | sdk/src/events/txEventCache.ts:54-66 | unlinking a node anywhere in the chain keeps it a chain |
| `TxEventCache.Cache.Add` | sdk/src/events/txEventCache.ts:21-44 | in place, the cache holds what the specification says; map, chain and size agree |
| `TxEventCache.Cache.Has` | sdk/src/events/txEventCache.ts:46-48 | membership among the keys held |
| `TxEventCache.Cache.Get` | sdk/src/events/txEventCache.ts:50-52 | the value held for the key, leaving the order alone |
| `TxEventCache.Cache.Clear` | sdk/src/events/txEventCache.ts:68-73 | an empty cache again |
| `TxEventCache.Cache.AddAll` | sdk/src/events/txEventCache.ts:21-44 | a run of adds leaves the last maxTx distinct keys, newest first |
| `EventOrder.ArrangedIsSortedPermutation` | sdk/src/events/eventList.ts:36-60 | inserting a history one by one gives a permutation of it, in slot order |
| `EventOrder.ClientOrderReverses` | sdk/src/events/sort.ts:11-17 | client order is the history reversed, in either direction |
| `EventOrder.TiesByArrival` | sdk/src/events/sort.ts:19-34 | events of one slot stand in order of arrival when descending, and the other way round when ascending |
| `EventOrder.ReplayKeepsTop` | sdk/src/events/eventList.ts:28-64 | without a stale eviction the list is the first maxSize events of the arranged history |
| `EventOrder.WithinCapacity` | sdk/src/events/eventList.ts:62-64 | up to maxSize inserts nothing is evicted, wherever events land |
| `EventOrder.ClientOrderNeverStale` | sdk/src/events/sort.ts:11-17 | client order never makes the tail stale |
| `EventOrder.StaleIff` | sdk/src/events/eventList.ts:46-59 | the tail is stale after an insert exactly when it was before or the insert appends |
| `EventOrder.EvictionKeepsNewestIff` | sdk/src/events/eventList.ts:46-81 | in ascending slot order an eviction keeps the newest events exactly when the tail was not stale and the insert does not append |
| `EventOrder.EvictionKeepsFirstIff` | sdk/src/events/eventList.ts:46-81 | in any order, an eviction keeps the first events of the arranged history exactly when the tail was not stale and the insert does not append |
| `EventOrder.EvictionKeepsLastIff` | sdk/src/events/eventList.ts:46-81 | and it keeps the last ones, the newest of descending order, exactly in the first eviction with the tail still at the head and the new event not in front of it, or, in a list of one, when the new event is the last |
| `EventOrder.StaleTailDropsNewest` | sdk/src/events/eventList.ts:46-81 | three events in a list of two: the newest is evicted |
| `EventOrder.StaleTailKeepsNewest` | sdk/src/events/eventList.ts:46-81 | in descending order three events in a list of two: the oldest is evicted and the tail detached |
| `EventList.List.constructor` | sdk/src/events/eventList.ts:21-26 | an empty list |
| `EventList.List.Walk` | sdk/src/events/eventList.ts:46-52 | the walk stops at the place the ordering says |
| `EventList.List.Detach` | sdk/src/events/eventList.ts:66-81 | the node at the tail pointer goes, wherever in the chain it is |
| `EventList.List.Insert` | sdk/src/events/eventList.ts:28-64 | in place, chain and tail are what the specification says, down to the node a stale tail evicts |
| `EventList.List.ToArray` | sdk/src/events/eventList.ts:83-93 | iteration gives the chain from the head |
| `EventList.List.InsertAll` | sdk/src/events/eventList.ts:28-64 | a run without a stale eviction holds the first maxSize events of the arranged history |
| `BigNum.PrintForm` | sdk/src/factory/bigNum.ts:183-215 | the printed form of a number: sign, whole part without leading zeros, and exactly as many decimals as the precision |
| `BigNum.ParseForm` | sdk/src/factory/bigNum.ts:449-466 | parsing a form scales its digits to the precision |
| `BigNum.ParseLongForm` | sdk/src/factory/bigNum.ts:449-466 | decimals beyond the precision are dropped |
| `BigNum.ParseIff` | sdk/src/factory/bigNum.ts:449-466 | digits behind an optional minus sign are accepted and nothing else |
| `BigNum.EmptyIsZero` | sdk/src/factory/bigNum.ts:449-466 | an empty string or a delimiter alone is zero |
| `BigNum.SecondDelimiterEnds` | sdk/src/factory/bigNum.ts:449-466 | what stands behind a second delimiter is ignored |
| `BigNum.ShortForm` | sdk/src/factory/bigNum.ts:248-259 | the short form has the same whole part, no trailing zero among its decimals, and the same value |
| `BigNum.PrintRoundTripIff` | sdk/src/factory/bigNum.ts:183-215 | fromPrint(print) is the identity exactly when the precision is below 100 and the number has a digit for every decimal place or is not negative |
| `BigNum.ShortRoundTripIff` | sdk/src/factory/bigNum.ts:248-259 | fromPrint(printShort) is the identity exactly when, besides, there are decimal places or the number does not end in a zero |
| `PrettyPrinter.InsertSpacers` | sdk/src/factory/bigNum.ts:227-239 | the splice loop groups the integer part |
| `PrettyPrinter.GroupedKeepsText` | sdk/src/factory/bigNum.ts:227-239 | grouping adds spacers and nothing else |
| `PrettyPrinter.GroupsOfThree` | sdk/src/factory/bigNum.ts:227-239 | a spacer stands exactly at every fourth place from the right |
| `PrettyPrinter.PrettyPrint` | sdk/src/factory/bigNum.ts:217-244 | the method computes the specification |
| `PrettyPrinter.PrettyKeepsText` | sdk/src/factory/bigNum.ts:217-244 | without its spacers the pretty form is the short form |
| `PrettyPrinter.PrettyRoundTripIff` | sdk/src/factory/bigNum.ts:217-244 | parsing it back without spacers succeeds in exactly the cases of the short form |
| `PrettyPrinter.ShortLosesZeros` | sdk/src/factory/bigNum.ts:258 | ten thousand without decimal places prints as one |
| `PrettyPrinter.SignCanLandBehindDelimiter` | sdk/src/factory/bigNum.ts:192-201 | minus five thousandths print with the sign behind the delimiter |

## Left out

- BankController.ClearingHouse: one bank at a time; a user's eight balance slots, the lookup of one by bank index and running out of them are not modelled, because the ledger law of each bank is the same. Accounts of the bank start as empty deposits.
- BankController.BankBalance: the program's trait with two implementations is one class with a constant flag.
- Ledger.Step: margin checks, token transfers, funding settlement and the signer check enter as booleans; which of several failing checks is reported first may differ, with no effect on the state.
- Checked.Error: the program reports every arithmetic failure as one error; the model keeps the cause.
- LedgerTheorems.Solvency: stated with the code's roundings, which favour either side: a withdrawal from a deposit is rounded down and a borrow below one balance unit is not booked.
- Full liquidation: the same loop and fee split with other percentages, on amounts the position controller returns.
- The position, funding and order controllers of the program, oracles and the margin system beyond the figures partial liquidation uses.
- Liquidation.Reduction: of the position controller, the cost taken off a position and its underflow; the swap that gives the base exchanged, the realised pnl and the open interest are not part of this model.
- Liquidation.Liquidated: the sort by margin requirement; the results hold for every order of the markets. The user NeverUnderflowsIff shows for closing percentages above 10^20 has its markets unsorted.
- Orders.OrderAccounting: the amount to trade is a parameter; trigger orders only choose it.
- LimitSizing.CalculateAmountToTradeForLimit: limits of at least zero; an oracle offset that takes the floating price below zero is not followed into the square root of a negative number. The base reserve with the spread applied is a parameter, as the spread is computed in floating point.
- SquareRoot.SquareRootBN: natural numbers, with the default closeness; the callers use no other.
- Repeg.BudgetedKNearExact: the ratio as it is computed, against the exact one that solves for the cost; how far the cost at the computed ratio is from the cost asked for is not bounded, as the truncations can take its parts to zero.
- Repeg.RescalingCostSign: the sign of the cost, not its size.
- Spreads, funding estimates and liquidation-price estimates of the client library: floating point and wall-clock time.
- TxEventCache.Cache.Add: maxTx of at least one, as with zero the code dereferences a missing tail; keys such as "constructor", which a JavaScript object inherits, are not modelled.
- EventOrder.Ordering: the trade-record comparison, which mixes two keys.
- EventOrder.Replay: not continued after an eviction through a stale tail, from where the tail points to a detached node.
- EventOrder.EvictionKeepsFirstIff: events are told apart by slot and signature, and taken as distinct; equal events could hide a wrong eviction.
- BigNum.Parse: bn.js is not part of this model; a string with a character other than digits behind an optional sign is taken as rejected.
- BigNum.PrintShort: without its precision override; toFixed, toPrecision and toMillified, which are lossy.
- Account contexts, token program calls, subscriptions, transaction senders, the command line and the stress scripts: input and output.
