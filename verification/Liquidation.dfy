/** Partial liquidation (the partial branch of liquidate in lib.rs, on the figures
    calculate_liquidation_status of math/margin.rs prepares). */
module Liquidation {
  import opened Arithmetic
  import opened Checked
  import opened Wrappers

  const MARGIN_PRECISION: u128 := 10_000
  const MAX_LIQUIDATION_SLIPPAGE: u128 := 10_000
  const QUOTE_PRECISION: u128 := 1_000_000

  /** What the oracle and slippage guards decide for a market. */
  datatype Guard =
    | Proceed
    | Shrink(slippage: u128) // slippage above the maximum: close less
    | Skip // oracle invalid and mark too far from its average
    | Refuse // closing would push the mark too far from the oracle

  /** What the position controller sees: the base held and its quote cost, and the
      base the curve exchanges for the quote to be closed. */
  datatype Reduction = Reduction(held: u128, cost: u128, swapped: u128) {
    /** The part of the cost that goes with the base exchanged. */
    function ClosedCost(): Result<u128> {
      Share(cost, Percentage(swapped, held))
    }

    function RemainingCost(): Result<u128> {
      var closedCost :- ClosedCost();
      CheckedSub(cost, closedCost)
    }

    /** No more cost is closed than there is: for one, if no more base is exchanged
        than is held. */
    predicate Covered() {
      ClosedCost().Ok? ==> ClosedCost().value <= cost
    }
  }

  /** A position's value, its partial and maintenance margin requirements before the
      division by MARGIN_PRECISION, its pnl at the mark and, where consulted, at the
      oracle price, what the guards decided, and what reducing it meets. */
  datatype MarketStatus = MarketStatus(
    baseAssetValue: u128,
    rawMarginRequirement: u128,
    rawMaintenanceRequirement: u128,
    pnl: int,
    oraclePnl: Option<int>,
    guard: Guard,
    position: Reduction
  ) {
    /** The oracle's pnl counts only where it is consulted and better. */
    function AdjustedPnl(): int {
      if oraclePnl.Some? && oraclePnl.value > pnl then oraclePnl.value else pnl
    }

    function MarginRequirement(): u128 {
      assert rawMarginRequirement / MARGIN_PRECISION <= rawMarginRequirement;
      rawMarginRequirement / MARGIN_PRECISION
    }
  }

  datatype Percentage = Percentage(numerator: u128, denominator: u128)

  datatype Tally = Tally(fee: u128, closed: u128, marginRequirement: u128)

  datatype Terms = Terms(closePercentage: Percentage, maximumFee: u128, maximumClosed: u128, adjustedCollateral: u128)

  function Share(x: u128, percentage: Percentage): Result<u128> {
    var scaled :- CheckedMul(x, percentage.numerator);
    CheckedDiv(scaled, percentage.denominator)
  }

  predicate Skipped(status: MarketStatus) {
    status.baseAssetValue == 0 || status.guard == Skip
  }

  /** How much of a position to close. */
  function QuoteToClose(status: MarketStatus, terms: Terms): Result<u128> {
    var quote :- Share(status.baseAssetValue, terms.closePercentage);
    match status.guard
    case Shrink(slippage) =>
      var scaled :- CheckedMul(quote, MAX_LIQUIDATION_SLIPPAGE);
      CheckedDiv(scaled, slippage)
    case _ => Ok(quote)
  }

  /** One market: add to the value closed and the fee, reduce the position, and
      release its margin. */
  function CloseMarket(status: MarketStatus, terms: Terms, tally: Tally): Result<Tally> {
    var _ :- Need(status.guard != Refuse, OracleMarkSpreadLimit);
    var quote :- QuoteToClose(status, terms);
    var closed :- CheckedAdd(tally.closed, quote);
    var _ :- status.position.RemainingCost();
    var released :- Share(status.MarginRequirement(), Percentage(quote, status.baseAssetValue));
    var marginRequirement :- CheckedSub(tally.marginRequirement, released);
    var marketFee :- Share(terms.maximumFee, Percentage(quote, terms.maximumClosed));
    var fee :- CheckedAdd(tally.fee, marketFee);
    Ok(Tally(fee, closed, marginRequirement))
  }

  /** Enough has been closed: the remaining requirement is below the collateral
      left after the fee. */
  function EnoughClosed(terms: Terms, tally: Tally): Result<bool> {
    var left :- CheckedSub(terms.adjustedCollateral, tally.fee);
    Ok(tally.marginRequirement < left)
  }

  /** The whole loop from market `i` on. */
  function CloseFrom(statuses: seq<MarketStatus>, i: nat, terms: Terms, tally: Tally): Result<Tally>
    requires i <= |statuses|
    decreases |statuses| - i
  {
    if i == |statuses| then Ok(tally)
    else if Skipped(statuses[i]) then CloseFrom(statuses, i + 1, terms, tally)
    else
      var tally' :- CloseMarket(statuses[i], terms, tally);
      var enough :- EnoughClosed(terms, tally');
      if enough then Ok(tally') else CloseFrom(statuses, i + 1, terms, tally')
  }

  // ------------------------------------------------------- the figures going in

  function TotalValue(statuses: seq<MarketStatus>): nat {
    if statuses == [] then 0 else statuses[0].baseAssetValue + TotalValue(statuses[1..])
  }

  function TotalRawMargin(statuses: seq<MarketStatus>): nat {
    if statuses == [] then 0 else statuses[0].rawMarginRequirement + TotalRawMargin(statuses[1..])
  }

  function TotalRawMaintenance(statuses: seq<MarketStatus>): nat {
    if statuses == [] then 0 else statuses[0].rawMaintenanceRequirement + TotalRawMaintenance(statuses[1..])
  }

  /** Value closed if every market from `i` on is closed by the full percentage. */
  function MostClosed(statuses: seq<MarketStatus>, percentage: Percentage): nat
    requires percentage.denominator != 0
  {
    if statuses == [] then 0
    else
      MulNonNegative(statuses[0].baseAssetValue, percentage.numerator);
      statuses[0].baseAssetValue * percentage.numerator / percentage.denominator + MostClosed(statuses[1..], percentage)
  }

  function MostReleased(statuses: seq<MarketStatus>): nat {
    if statuses == [] then 0 else statuses[0].MarginRequirement() + MostReleased(statuses[1..])
  }

  /** The sum of the floors is within the floor of the sum. */
  lemma {:induction false} MostClosedWithinTotal(statuses: seq<MarketStatus>, percentage: Percentage)
    requires percentage.denominator != 0
    ensures MostClosed(statuses, percentage) <= TotalValue(statuses) * percentage.numerator / percentage.denominator
  {
    if statuses != [] {
      MostClosedWithinTotal(statuses[1..], percentage);
      SharesAddUp(statuses[0].baseAssetValue, TotalValue(statuses[1..]), percentage.numerator, percentage.denominator);
    }
  }

  lemma SharesAddUp(v: nat, rest: nat, n: nat, d: nat)
    requires 0 < d
    ensures 0 <= v * n && 0 <= rest * n && v * n / d + rest * n / d <= (v + rest) * n / d
  {
    MulNonNegative(v, n);
    MulNonNegative(rest, n);
    assert (v + rest) * n == v * n + rest * n;
    FloorOfSum(v * n, rest * n, d);
  }

  lemma {:induction false} MostReleasedWithinTotal(statuses: seq<MarketStatus>)
    ensures MostReleased(statuses) <= TotalRawMargin(statuses) / MARGIN_PRECISION
  {
    if statuses != [] {
      MostReleasedWithinTotal(statuses[1..]);
      FloorOfSum(statuses[0].rawMarginRequirement, TotalRawMargin(statuses[1..]), MARGIN_PRECISION);
    }
  }

  function TotalPnl(statuses: seq<MarketStatus>): int {
    if statuses == [] then 0 else statuses[0].pnl + TotalPnl(statuses[1..])
  }

  function TotalAdjustedPnl(statuses: seq<MarketStatus>): int {
    if statuses == [] then 0 else statuses[0].AdjustedPnl() + TotalAdjustedPnl(statuses[1..])
  }

  lemma {:induction false} AdjustedAtLeast(statuses: seq<MarketStatus>)
    ensures TotalPnl(statuses) <= TotalAdjustedPnl(statuses)
  {
    if statuses != [] {
      AdjustedAtLeast(statuses[1..]);
    }
  }

  /** calculate_updated_collateral: a loss takes the collateral to zero at worst. */
  function UpdatedCollateral(collateral: nat, pnl: int): nat {
    if pnl < 0 && -pnl > collateral then 0 else collateral + pnl
  }

  // ------------------------------------------------------- in plain numbers

  lemma ShareInNumbers(x: u128, percentage: Percentage)
    ensures var n, d := percentage.numerator, percentage.denominator;
            Share(x, percentage)
            == if x * n > U128_MAX then Err(Overflow)
               else if d == 0 then Err(DivisionByZero)
               else Ok(x * n / d)
  {
    MulNonNegative(x, percentage.numerator);
  }

  /** Closing share of the value, and above the maximum slippage, over ten thousand,
      that much less: both rounded down. */
  lemma QuoteInNumbers(status: MarketStatus, terms: Terms)
    requires QuoteToClose(status, terms).Ok?
    ensures terms.closePercentage.denominator != 0
    ensures var full := status.baseAssetValue * terms.closePercentage.numerator / terms.closePercentage.denominator;
            match status.guard
            case Shrink(slippage) => slippage != 0 && QuoteToClose(status, terms).value == full * 10_000 / slippage
            case _ => QuoteToClose(status, terms).value == full
  {
    ShareInNumbers(status.baseAssetValue, terms.closePercentage);
    hide Share;
  }

  /** What closing one market leaves: margin in proportion to the position's value, fee
      in proportion to the most that may be closed. */
  lemma CloseMarketInNumbers(status: MarketStatus, terms: Terms, tally: Tally)
    requires CloseMarket(status, terms, tally).Ok?
    ensures status.guard != Refuse && status.baseAssetValue != 0 && terms.maximumClosed != 0
    ensures QuoteToClose(status, terms).Ok?
    ensures var quote := QuoteToClose(status, terms).value;
            CloseMarket(status, terms, tally).value
            == Tally(tally.fee + terms.maximumFee * quote / terms.maximumClosed,
                     tally.closed + quote,
                     tally.marginRequirement - status.rawMarginRequirement / 10_000 * quote / status.baseAssetValue)
  {
    var quote := QuoteToClose(status, terms).value;
    ShareInNumbers(status.MarginRequirement(), Percentage(quote, status.baseAssetValue));
    ShareInNumbers(terms.maximumFee, Percentage(quote, terms.maximumClosed));
    hide Share, QuoteToClose;
  }

  /** A position loses the part of its cost that goes with the base exchanged. */
  lemma RemainingCostInNumbers(position: Reduction)
    requires position.RemainingCost().Ok?
    ensures position.held != 0
    ensures position.RemainingCost().value == position.cost - position.cost * position.swapped / position.held
  {
    ShareInNumbers(position.cost, Percentage(position.swapped, position.held));
    hide Share;
  }

  /** The requirement left is below the collateral left after the fee. */
  predicate IsMet(terms: Terms, tally: Tally) {
    tally.marginRequirement + tally.fee < terms.adjustedCollateral
  }

  lemma EnoughIsMet(terms: Terms, tally: Tally)
    ensures EnoughClosed(terms, tally)
            == if tally.fee > terms.adjustedCollateral then Err(Underflow) else Ok(IsMet(terms, tally))
  {
  }

  /** The better of both figures where the oracle's is consulted. */
  lemma AdjustedIsBetter(status: MarketStatus)
    ensures status.AdjustedPnl()
            == match status.oraclePnl
               case Some(oraclePnl) => if status.pnl < oraclePnl then oraclePnl else status.pnl
               case None => status.pnl
  {
  }

  // ------------------------------------------------------- what underflows

  /** More of the cost would be closed than the position has. */
  predicate ClosesTooMuch(status: MarketStatus, terms: Terms, tally: Tally) {
    && status.guard != Refuse
    && QuoteToClose(status, terms).Ok? && CheckedAdd(tally.closed, QuoteToClose(status, terms).value).Ok?
    && status.position.ClosedCost().Ok? && status.position.ClosedCost().value > status.position.cost
  }

  /** More margin would be released than is left. */
  predicate ReleasesTooMuch(status: MarketStatus, terms: Terms, tally: Tally) {
    && status.guard != Refuse
    && QuoteToClose(status, terms).Ok? && CheckedAdd(tally.closed, QuoteToClose(status, terms).value).Ok?
    && status.position.RemainingCost().Ok?
    && var released := Share(status.MarginRequirement(),
                             Percentage(QuoteToClose(status, terms).value, status.baseAssetValue));
    && released.Ok? && released.value > tally.marginRequirement
  }

  /** The walk meets a market whose cost or margin underflows, or a fee the collateral
      does not cover. */
  predicate SomeUnderflows(statuses: seq<MarketStatus>, i: nat, terms: Terms, tally: Tally)
    requires i <= |statuses|
    decreases |statuses| - i
  {
    i < |statuses| &&
    if Skipped(statuses[i]) then SomeUnderflows(statuses, i + 1, terms, tally)
    else
      || ClosesTooMuch(statuses[i], terms, tally)
      || ReleasesTooMuch(statuses[i], terms, tally)
      || (CloseMarket(statuses[i], terms, tally).Ok?
          && var tally' := CloseMarket(statuses[i], terms, tally).value;
             (tally'.fee > terms.adjustedCollateral
              || (!IsMet(terms, tally') && SomeUnderflows(statuses, i + 1, terms, tally'))))
  }

  lemma CloseMarketUnderflowIff(status: MarketStatus, terms: Terms, tally: Tally)
    ensures CloseMarket(status, terms, tally) == Err(Underflow)
            <==> ClosesTooMuch(status, terms, tally) || ReleasesTooMuch(status, terms, tally)
  {
    hide CheckedMul, CheckedDiv;
    ShareErrors();
  }

  lemma ShareErrors()
    ensures forall x, percentage :: Share(x, percentage) != Err(Underflow)
    ensures forall a, b :: CheckedMul(a, b) != Err(Underflow) && CheckedDiv(a, b) != Err(Underflow)
  {
  }

  lemma {:induction false} CloseFromUnderflowIff(statuses: seq<MarketStatus>, i: nat, terms: Terms, tally: Tally)
    requires i <= |statuses|
    ensures CloseFrom(statuses, i, terms, tally) == Err(Underflow) <==> SomeUnderflows(statuses, i, terms, tally)
    decreases |statuses| - i
  {
    hide CloseMarket, ClosesTooMuch, ReleasesTooMuch;
    if i < |statuses| {
      if Skipped(statuses[i]) {
        CloseFromUnderflowIff(statuses, i + 1, terms, tally);
      } else {
        CloseMarketUnderflowIff(statuses[i], terms, tally);
        if CloseMarket(statuses[i], terms, tally).Ok? {
          CloseFromUnderflowIff(statuses, i + 1, terms, CloseMarket(statuses[i], terms, tally).value);
        }
      }
    }
  }

  // ------------------------------------------------------- what the loop keeps

  /** The fee so far is in proportion to the value closed so far, to within a unit
      a market, and what remains to be closed fits into what is left. */
  predicate Within(statuses: seq<MarketStatus>, i: nat, terms: Terms, tally: Tally)
    requires i <= |statuses|
  {
    && terms.closePercentage.denominator != 0
    && tally.fee * terms.maximumClosed <= terms.maximumFee * tally.closed <= (tally.fee + i) * terms.maximumClosed
    && tally.closed + MostClosed(statuses[i..], terms.closePercentage) <= terms.maximumClosed
  }

  /** The margin the remaining markets require is all still required. */
  predicate MarginLeft(statuses: seq<MarketStatus>, i: nat, tally: Tally)
    requires i <= |statuses|
  {
    MostReleased(statuses[i..]) <= tally.marginRequirement
  }

  /** Where it can be computed at all, the share never exceeds the whole. */
  predicate AtMostWhole(percentage: Percentage) {
    var n, d := percentage.numerator, percentage.denominator;
    n <= d || (U128_MAX / n) * (n - d) < d
  }

  lemma ShareAtMostWhole(x: u128, percentage: Percentage)
    requires AtMostWhole(percentage) && Share(x, percentage).Ok?
    ensures Share(x, percentage).value <= x
  {
    var n, d := percentage.numerator, percentage.denominator;
    if n <= d {
      PercentageShrinks(x, n, d);
    } else {
      DivAtLeast(U128_MAX, n, x);
      MulMono(x, U128_MAX / n, n - d);
      assert x * n == x * (n - d) + x * d;
      assert (x + 1) * d == x * d + d;
      DivAtMost(x * n, d, x);
    }
  }

  /** Slippage guards only ever shrink what is closed. */
  predicate GuardsShrink(statuses: seq<MarketStatus>) {
    forall i :: 0 <= i < |statuses| && statuses[i].guard.Shrink? ==>
                  MAX_LIQUIDATION_SLIPPAGE < statuses[i].guard.slippage
  }

  lemma ShrunkQuote(quote: nat, slippage: nat)
    requires MAX_LIQUIDATION_SLIPPAGE < slippage
    ensures quote * MAX_LIQUIDATION_SLIPPAGE / slippage <= quote
  {
    MulMono(MAX_LIQUIDATION_SLIPPAGE, slippage, quote);
    MulMono(slippage, slippage + 1, quote);
    assert quote * MAX_LIQUIDATION_SLIPPAGE < (quote + 1) * slippage by {
      assert (quote + 1) * slippage == quote * slippage + slippage;
    }
    DivAtMost(quote * MAX_LIQUIDATION_SLIPPAGE, slippage, quote);
  }

  lemma QuoteBounds(status: MarketStatus, terms: Terms)
    requires status.guard.Shrink? ==> MAX_LIQUIDATION_SLIPPAGE < status.guard.slippage
    requires QuoteToClose(status, terms).Ok?
    ensures terms.closePercentage.denominator != 0
    ensures QuoteToClose(status, terms).value
            <= status.baseAssetValue * terms.closePercentage.numerator / terms.closePercentage.denominator
  {
    var quote := Share(status.baseAssetValue, terms.closePercentage).value;
    if status.guard.Shrink? {
      ShrunkQuote(quote, status.guard.slippage);
    }
  }

  lemma PercentageShrinks(x: nat, n: nat, d: nat)
    requires n <= d && 0 < d
    ensures x * n / d <= x
  {
    MulMono(n, d, x);
    assert x * n < (x + 1) * d by {
      assert (x + 1) * d == x * d + d;
    }
    DivAtMost(x * n, d, x);
  }

  lemma FeeStaysCovered(fee: nat, marketFee: nat, maxFee: nat, closed: nat, quote: nat, maxClosed: nat, i: nat)
    requires 0 < maxClosed && fee * maxClosed <= maxFee * closed <= (fee + i) * maxClosed
    requires marketFee == maxFee * quote / maxClosed
    ensures (fee + marketFee) * maxClosed <= maxFee * (closed + quote) <= (fee + marketFee + i + 1) * maxClosed
  {
    DivFloor(maxFee * quote, maxClosed);
    assert (fee + marketFee) * maxClosed == fee * maxClosed + marketFee * maxClosed;
    assert (fee + marketFee + i + 1) * maxClosed == (fee + i) * maxClosed + (marketFee + 1) * maxClosed;
    assert maxFee * (closed + quote) == maxFee * closed + maxFee * quote;
  }

  lemma FeeWithinMaximum(fee: nat, maxFee: nat, closed: nat, maxClosed: nat)
    requires fee * maxClosed <= maxFee * closed && closed <= maxClosed
    ensures maxClosed != 0 ==> fee <= maxFee
  {
    MulMono(closed, maxClosed, maxFee);
    if maxClosed != 0 {
      MulCancel(fee, maxFee, maxClosed);
    }
  }

  predicate AllCovered(statuses: seq<MarketStatus>) {
    forall i :: 0 <= i < |statuses| ==> statuses[i].position.Covered()
  }

  /** `share` is the floor of `n / d` of `whole`. */
  predicate IsShare(whole: int, n: int, d: int, share: int) {
    share * d <= whole * n < (share + 1) * d
  }

  /** Closing one market keeps fee and value closed within their maxima; and as long
      as at most the whole of a position is closed, it never releases more margin
      than is required. */
  lemma CloseMarketKeeps(statuses: seq<MarketStatus>, i: nat, terms: Terms, tally: Tally)
    requires i < |statuses| && Within(statuses, i, terms, tally)
    requires GuardsShrink(statuses)
    requires statuses[i].baseAssetValue != 0
    ensures AtMostWhole(terms.closePercentage) && MarginLeft(statuses, i, tally) ==>
              && !ReleasesTooMuch(statuses[i], terms, tally)
              && (statuses[i].position.Covered() ==> CloseMarket(statuses[i], terms, tally) != Err(Underflow))
              && (CloseMarket(statuses[i], terms, tally).Ok? ==>
                    MarginLeft(statuses, i + 1, CloseMarket(statuses[i], terms, tally).value))
    ensures CloseMarket(statuses[i], terms, tally).Ok? ==>
              var tally' := CloseMarket(statuses[i], terms, tally).value;
              && Within(statuses, i + 1, terms, tally')
              && tally.closed <= tally'.closed <= terms.maximumClosed
              && tally'.fee <= terms.maximumFee
              && tally'.marginRequirement <= tally.marginRequirement
              && IsShare(statuses[i].MarginRequirement(), tally'.closed - tally.closed, statuses[i].baseAssetValue,
                         tally.marginRequirement - tally'.marginRequirement)
              && IsShare(terms.maximumFee, tally'.closed - tally.closed, terms.maximumClosed, tally'.fee - tally.fee)
  {
    var status, percentage := statuses[i], terms.closePercentage;
    CloseMarketUnderflowIff(status, terms, tally);
    assert statuses[i..][0] == status && statuses[i..][1..] == statuses[i + 1..];
    if QuoteToClose(status, terms).Ok? {
      var quote := QuoteToClose(status, terms).value;
      QuoteBounds(status, terms);
      if AtMostWhole(percentage) {
        ShareAtMostWhole(status.baseAssetValue, percentage);
        PercentageShrinks(status.MarginRequirement(), quote, status.baseAssetValue);
      }
      if CloseMarket(status, terms, tally).Ok? {
        hide QuoteToClose;
        var tally' := CloseMarket(status, terms, tally).value;
        DivFloor(status.MarginRequirement() * quote, status.baseAssetValue);
        DivFloor(terms.maximumFee * quote, terms.maximumClosed);
        FeeStaysCovered(tally.fee, tally'.fee - tally.fee, terms.maximumFee,
                        tally.closed, quote, terms.maximumClosed, i);
        FeeWithinMaximum(tally'.fee, terms.maximumFee, tally'.closed, terms.maximumClosed);
      }
    }
  }

  lemma SkipKeeps(statuses: seq<MarketStatus>, i: nat, terms: Terms, tally: Tally)
    requires i < |statuses| && Within(statuses, i, terms, tally)
    ensures Within(statuses, i + 1, terms, tally)
    ensures MarginLeft(statuses, i, tally) ==> MarginLeft(statuses, i + 1, tally)
  {
    assert statuses[i..][1..] == statuses[i + 1..];
    MulMono(tally.fee + i, tally.fee + i + 1, terms.maximumClosed);
    DivFloor(statuses[i].baseAssetValue * terms.closePercentage.numerator, terms.closePercentage.denominator);
  }

  /** From any point of the loop nothing underflows, if the closing share never exceeds
      the whole, the collateral covers the fee and the positions cover their cost. */
  lemma {:induction false} NothingUnderflows(statuses: seq<MarketStatus>, i: nat, terms: Terms, tally: Tally)
    requires i <= |statuses| && Within(statuses, i, terms, tally) && MarginLeft(statuses, i, tally)
    requires GuardsShrink(statuses) && AllCovered(statuses)
    requires AtMostWhole(terms.closePercentage) && terms.maximumFee <= terms.adjustedCollateral
    ensures !SomeUnderflows(statuses, i, terms, tally)
    ensures CloseFrom(statuses, i, terms, tally) != Err(Underflow)
    decreases |statuses| - i
  {
    hide CloseMarket, Within, MarginLeft, AtMostWhole, ReleasesTooMuch, CloseFrom;
    CloseFromUnderflowIff(statuses, i, terms, tally);
    if i < |statuses| {
      if Skipped(statuses[i]) {
        SkipKeeps(statuses, i, terms, tally);
        NothingUnderflows(statuses, i + 1, terms, tally);
      } else {
        CloseMarketKeeps(statuses, i, terms, tally);
        if CloseMarket(statuses[i], terms, tally).Ok? {
          NothingUnderflows(statuses, i + 1, terms, CloseMarket(statuses[i], terms, tally).value);
        }
      }
    }
  }

  /** From any point of the loop, whatever is skipped and wherever it stops, the
      totals stay within their maxima. */
  lemma {:induction false} CloseFromKeeps(statuses: seq<MarketStatus>, i: nat, terms: Terms, tally: Tally)
    requires i <= |statuses| && Within(statuses, i, terms, tally)
    requires GuardsShrink(statuses)
    requires tally.fee <= terms.maximumFee
    ensures var result := CloseFrom(statuses, i, terms, tally);
            result.Ok? ==>
              && tally.closed <= result.value.closed <= terms.maximumClosed
              && result.value.fee <= terms.maximumFee
              && result.value.fee * terms.maximumClosed <= terms.maximumFee * result.value.closed
                 <= (result.value.fee + |statuses|) * terms.maximumClosed
              && result.value.marginRequirement <= tally.marginRequirement
    decreases |statuses| - i
  {
    hide CloseMarket, Within, MarginLeft, AtMostWhole, ReleasesTooMuch;
    if i == |statuses| {
      WithinMeans(statuses, i, terms, tally);
    } else if Skipped(statuses[i]) {
      SkipKeeps(statuses, i, terms, tally);
      CloseFromKeeps(statuses, i + 1, terms, tally);
    } else {
      CloseMarketKeeps(statuses, i, terms, tally);
      if CloseMarket(statuses[i], terms, tally).Ok? {
        var tally' := CloseMarket(statuses[i], terms, tally).value;
        WithinMeans(statuses, i + 1, terms, tally');
        CloseFromKeeps(statuses, i + 1, terms, tally');
      }
    }
  }

  lemma WithinMeans(statuses: seq<MarketStatus>, i: nat, terms: Terms, tally: Tally)
    requires i <= |statuses| && Within(statuses, i, terms, tally)
    ensures tally.closed <= terms.maximumClosed
    ensures tally.fee * terms.maximumClosed
            <= terms.maximumFee * tally.closed <= (tally.fee + |statuses|) * terms.maximumClosed
  {
    MulMono(tally.fee + i, tally.fee + |statuses|, terms.maximumClosed);
  }

  // ------------------------------------------------------- the instruction

  /** Figures calculate_liquidation_status hands over, and the program's
      percentages. */
  datatype Liquidatee = Liquidatee(
    statuses: seq<MarketStatus>,
    depositValue: nat,
    unsettledPnl: int
  ) {
    function BaseAssetValue(): nat {
      TotalValue(statuses)
    }

    /** Divided once, after summing. */
    function MarginRequirement(): nat {
      TotalRawMargin(statuses) / MARGIN_PRECISION
    }

    function MaintenanceRequirement(): nat {
      TotalRawMaintenance(statuses) / MARGIN_PRECISION
    }

    function TotalCollateral(): nat {
      UpdatedCollateral(UpdatedCollateral(depositValue, TotalPnl(statuses)), unsettledPnl)
    }

    function AdjustedCollateral(): nat {
      UpdatedCollateral(UpdatedCollateral(depositValue, TotalAdjustedPnl(statuses)), unsettledPnl)
    }
  }

  datatype LiquidationType = Full | Partial | NotDue

  function TypeOf(user: Liquidatee): LiquidationType {
    if user.AdjustedCollateral() < user.MaintenanceRequirement() then Full
    else if user.AdjustedCollateral() < user.MarginRequirement() then Partial
    else NotDue
  }

  /** Users the partial loop is run for: a dust position is liquidated fully. */
  predicate TakesPartialBranch(user: Liquidatee) {
    TypeOf(user) == Partial && user.AdjustedCollateral() > QUOTE_PRECISION
  }

  predicate Proper(percentage: Percentage) {
    0 < percentage.denominator && percentage.numerator <= percentage.denominator
  }

  function CastToU128(x: nat): Result<u128> {
    if x <= U128_MAX then Ok(x) else Err(Overflow)
  }

  function TermsFor(user: Liquidatee, closing: Percentage, penalty: Percentage): Result<Terms> {
    var totalCollateral :- CastToU128(user.TotalCollateral());
    var adjustedCollateral :- CastToU128(user.AdjustedCollateral());
    var baseAssetValue :- CastToU128(user.BaseAssetValue());
    var maximumFee :- Share(totalCollateral, penalty);
    var maximumClosed :- Share(baseAssetValue, closing);
    Ok(Terms(closing, maximumFee, maximumClosed, adjustedCollateral))
  }

  function Liquidated(user: Liquidatee, closing: Percentage, penalty: Percentage): Result<Tally> {
    var terms :- TermsFor(user, closing, penalty);
    var marginRequirement :- CastToU128(user.MarginRequirement());
    var tally :- CloseFrom(user.statuses, 0, terms, Tally(0, 0, marginRequirement));
    var _ :- Need(tally.closed != 0, NoPositionsLiquidatable);
    Ok(tally)
  }

  /** The partial-liquidation loop of liquidate. */
  method LiquidatePartially(user: Liquidatee, closing: Percentage, penalty: Percentage) returns (result: Result<Tally>)
    ensures result == Liquidated(user, closing, penalty)
  {
    hide CloseMarket;
    var terms :- TermsFor(user, closing, penalty);
    var marginRequirement :- CastToU128(user.MarginRequirement());
    var tally := Tally(0, 0, marginRequirement);
    var i := 0;
    while i < |user.statuses|
      invariant i <= |user.statuses|
      invariant CloseFrom(user.statuses, 0, terms, Tally(0, 0, marginRequirement))
              == CloseFrom(user.statuses, i, terms, tally)
    {
      if !Skipped(user.statuses[i]) {
        tally :- CloseMarket(user.statuses[i], terms, tally);
        var enough :- EnoughClosed(terms, tally);
        if enough {
          break;
        }
      }
      i := i + 1;
    }
    var _ :- Need(tally.closed != 0, NoPositionsLiquidatable);
    return Ok(tally);
  }

  /** A partial liquidation underflows exactly when its walk meets a cost, a margin or
      a fee that does. */
  lemma LiquidatedUnderflowIff(user: Liquidatee, closing: Percentage, penalty: Percentage)
    ensures Liquidated(user, closing, penalty) == Err(Underflow)
            <==> && TermsFor(user, closing, penalty).Ok? && user.MarginRequirement() <= U128_MAX
                 && SomeUnderflows(user.statuses, 0, TermsFor(user, closing, penalty).value,
                                   Tally(0, 0, user.MarginRequirement()))
  {
    hide CloseFrom, SomeUnderflows, CheckedMul, CheckedDiv;
    ShareErrors();
    if TermsFor(user, closing, penalty).Ok? && user.MarginRequirement() <= U128_MAX {
      CloseFromUnderflowIff(user.statuses, 0, TermsFor(user, closing, penalty).value,
                            Tally(0, 0, user.MarginRequirement()));
    }
  }

  /** A partial liquidation, whatever the percentages are set to, whatever markets
      are skipped and wherever it stops: the fee stays within the penalty share of
      the collateral, the value closed within the closing share of the positions,
      and the fee in proportion to the value closed, to within a unit a market.
      With shares that never exceed the whole, as proper ones do not, it never
      underflows and the collateral covers the fee. */
  lemma LiquidationWithinLimits(user: Liquidatee, closing: Percentage, penalty: Percentage)
    requires GuardsShrink(user.statuses)
    ensures Liquidated(user, closing, penalty).Ok? ==> closing.denominator != 0 && penalty.denominator != 0
    ensures Proper(closing) ==> AtMostWhole(closing)
    ensures var result := Liquidated(user, closing, penalty);
            && (AtMostWhole(closing) && AtMostWhole(penalty) && AllCovered(user.statuses) ==> result != Err(Underflow))
            && (result.Ok? ==>
                  var maximumFee := user.TotalCollateral() * penalty.numerator / penalty.denominator;
                  var maximumClosed := user.BaseAssetValue() * closing.numerator / closing.denominator;
                  && 0 < result.value.closed <= maximumClosed
                  && result.value.fee <= maximumFee
                  && result.value.fee * maximumClosed <= maximumFee * result.value.closed
                     <= (result.value.fee + |user.statuses|) * maximumClosed
                  && result.value.marginRequirement <= user.MarginRequirement()
                  && (AtMostWhole(penalty) ==> result.value.fee <= user.TotalCollateral()))
  {
    hide CloseFrom, AtMostWhole, AllCovered, SomeUnderflows;
    ProperIsAtMostWhole(closing);
    LiquidatedUnderflowIff(user, closing, penalty);
    if TermsFor(user, closing, penalty).Ok? {
      var terms := TermsFor(user, closing, penalty).value;
      if AtMostWhole(penalty) {
        ShareAtMostWhole(user.TotalCollateral(), penalty);
      }
      MostClosedWithinTotal(user.statuses, closing);
      MostReleasedWithinTotal(user.statuses);
      assert user.statuses[0..] == user.statuses;
      AdjustedAtLeast(user.statuses);
      if user.MarginRequirement() <= U128_MAX {
        CloseFromKeeps(user.statuses, 0, terms, Tally(0, 0, user.MarginRequirement()));
        if AtMostWhole(closing) && AtMostWhole(penalty) && AllCovered(user.statuses) {
          NothingUnderflows(user.statuses, 0, terms, Tally(0, 0, user.MarginRequirement()));
        }
      }
    }
  }

  lemma ProperIsAtMostWhole(percentage: Percentage)
    ensures Proper(percentage) ==> AtMostWhole(percentage)
  {
  }

  // ------------------------------------------------------- closing shares above one

  /** At this setting no user of the partial branch underflows. */
  ghost predicate NeverUnderflows(closing: Percentage) {
    forall user: Liquidatee, penalty: Percentage ::
      TakesPartialBranch(user) && GuardsShrink(user.statuses) && AllCovered(user.statuses) && Proper(penalty) ==>
        Liquidated(user, closing, penalty) != Err(Underflow)
  }

  /** Two markets, of which the first is closed and the second only adds margin. */
  function Witness(value: u128, margin: u128, more: u128): Liquidatee
    requires margin * MARGIN_PRECISION <= U128_MAX && more * MARGIN_PRECISION <= U128_MAX
  {
    Liquidatee([MarketStatus(value, margin * MARGIN_PRECISION, 0, 0, None, Proceed, Reduction(1, 0, 0)),
                MarketStatus(0, more * MARGIN_PRECISION, 0, 0, None, Proceed, Reduction(1, 0, 0))],
               1_000_001, 0)
  }

  lemma WitnessFigures(value: u128, margin: u128, more: u128)
    requires margin * MARGIN_PRECISION <= U128_MAX && more * MARGIN_PRECISION <= U128_MAX
    ensures var user := Witness(value, margin, more);
            && user.MarginRequirement() == margin + more && user.BaseAssetValue() == value
            && user.MaintenanceRequirement() == 0
            && user.TotalCollateral() == 1_000_001 && user.AdjustedCollateral() == 1_000_001
            && GuardsShrink(user.statuses) && AllCovered(user.statuses)
            && user.statuses[0].MarginRequirement() == margin
  {
    var statuses := Witness(value, margin, more).statuses;
    TotalsOfTwo(statuses[0], statuses[1]);
    assert Reduction(1, 0, 0).ClosedCost() == Ok(0);
  }

  lemma TotalsOfOne(a: MarketStatus)
    ensures TotalValue([a]) == a.baseAssetValue
    ensures TotalRawMargin([a]) == a.rawMarginRequirement && TotalRawMaintenance([a]) == a.rawMaintenanceRequirement
    ensures TotalPnl([a]) == a.pnl && TotalAdjustedPnl([a]) == a.AdjustedPnl()
  {
    assert [a][1..] == [];
  }

  lemma TotalsOfTwo(a: MarketStatus, b: MarketStatus)
    ensures TotalValue([a, b]) == a.baseAssetValue + b.baseAssetValue
    ensures TotalRawMargin([a, b]) == a.rawMarginRequirement + b.rawMarginRequirement
    ensures TotalRawMaintenance([a, b]) == a.rawMaintenanceRequirement + b.rawMaintenanceRequirement
    ensures TotalPnl([a, b]) == a.pnl + b.pnl && TotalAdjustedPnl([a, b]) == a.AdjustedPnl() + b.AdjustedPnl()
  {
    assert [a, b][1..] == [b];
    TotalsOfOne(b);
  }

  lemma WitnessUnderflows(closing: Percentage, value: u128, quote: u128, margin: u128, more: u128)
    requires margin * MARGIN_PRECISION <= U128_MAX && more * MARGIN_PRECISION <= U128_MAX
    requires 2 * QUOTE_PRECISION <= margin + more <= U128_MAX
    requires value != 0 && Share(value, closing) == Ok(quote)
    requires Share(margin, Percentage(quote, value)).Ok?
            && Share(margin, Percentage(quote, value)).value > margin + more
    ensures !NeverUnderflows(closing)
  {
    var user, penalty := Witness(value, margin, more), Percentage(0, 1);
    WitnessFigures(value, margin, more);
    hide Witness;
    assert Share(1_000_001, penalty) == Ok(0);
    hide Share;
    LiquidatedUnderflowIff(user, closing, penalty);
    assert ReleasesTooMuch(user.statuses[0], TermsFor(user, closing, penalty).value, Tally(0, 0, margin + more));
    assert TakesPartialBranch(user) && Proper(penalty);
  }

  /** A closing share that can exceed the whole underflows for some user. */
  lemma ExceedingUnderflows(closing: Percentage)
    requires closing.denominator != 0 && !AtMostWhole(closing)
    ensures !NeverUnderflows(closing)
  {
    hide NeverUnderflows, Share;
    if closing.numerator < 2 * closing.denominator {
      var value, quote, margin := JustExceeding(closing);
      WitnessUnderflows(closing, value, quote, margin, 0);
    } else {
      DoublingUnderflows(closing);
    }
  }

  lemma ShareOfOne(n: u128, d: u128)
    requires 0 < d
    ensures 0 <= n / d <= n && Share(1, Percentage(n, d)) == Ok(n / d)
  {
    MulMono(1, d, n + 1);
    DivAtMost(n, d, n);
    DivFloor(n, d);
  }

  lemma ShareOverOne(x: u128, quote: u128)
    requires 0 <= x * quote <= U128_MAX
    ensures Share(x, Percentage(quote, 1)) == Ok(x * quote)
  {
  }

  lemma DoublingUnderflows(closing: Percentage)
    requires 0 < closing.denominator && 2 * closing.denominator <= closing.numerator
    ensures !NeverUnderflows(closing)
  {
    var n, d := closing.numerator, closing.denominator;
    DivAtLeast(n, d, 2);
    ShareOfOne(n, d);
    var quote: u128 := n / d;
    hide NeverUnderflows, Share;
    if quote <= 100_000_000_000_000_000_000 {
      ShareOverOne(2_000_000, quote);
      WitnessUnderflows(closing, 1, quote, 2_000_000, 0);
    } else {
      ShareOverOne(1, quote);
      WitnessUnderflows(closing, 1, quote, 1, 2_000_000);
    }
  }

  /** The smallest value whose share is more than the whole, and a margin that shows it. */
  lemma JustExceeding(closing: Percentage) returns (value: u128, quote: u128, margin: u128)
    requires 0 < closing.denominator < closing.numerator < 2 * closing.denominator && !AtMostWhole(closing)
    ensures value != 0 && Share(value, closing) == Ok(quote)
    ensures 2 * QUOTE_PRECISION <= margin && margin * MARGIN_PRECISION <= U128_MAX
    ensures Share(margin, Percentage(quote, value)).Ok? && Share(margin, Percentage(quote, value)).value > margin
  {
    var n, d := closing.numerator, closing.denominator;
    var v := SmallestExceeding(n, d, U128_MAX / n);
    DivFloor(U128_MAX, n);
    MulMono(v, U128_MAX / n, n);
    value, quote := v, v + 1;
    margin := if v < 2 * QUOTE_PRECISION then 2 * QUOTE_PRECISION else v;
    MarginFits(v, n, margin);
    ShareAboveMargin(v, margin);
    hide AtMostWhole;
  }

  lemma SmallestExceeding(n: nat, d: nat, most: nat) returns (v: nat)
    requires 0 < d < n < 2 * d && most * (n - d) >= d
    ensures 1 <= v <= most && v <= d && v * n / d == v + 1
  {
    var excess := n - d;
    v := (d + excess - 1) / excess;
    DivFloor(d + excess - 1, excess);
    CeilingAtMost(d, excess, most);
    MulMono(1, excess, d);
    CeilingAtMost(d, excess, d);
    ShareIsOneMore(v, excess, d);
    assert n == d + excess;
  }

  lemma CeilingAtMost(d: nat, excess: nat, most: nat)
    requires 0 < excess && d <= most * excess
    ensures (d + excess - 1) / excess <= most
  {
    assert (most + 1) * excess == most * excess + excess;
    DivAtMost(d + excess - 1, excess, most);
  }

  lemma ShareIsOneMore(v: nat, excess: nat, d: nat)
    requires 0 < excess < d && v * excess <= d + excess - 1 < v * excess + excess
    ensures 1 <= v && v * (d + excess) / d == v + 1
  {
    assert v * (d + excess) == v * d + v * excess;
    assert (v + 1) * d == v * d + d && (v + 1 + 1) * d == v * d + 2 * d;
    DivUnique(v * (d + excess), d, v + 1);
  }

  lemma MarginFits(v: nat, n: nat, margin: nat)
    requires 1 <= v < n && v * n <= U128_MAX
    requires margin == if v < 2 * QUOTE_PRECISION then 2 * QUOTE_PRECISION else v
    ensures margin * MARGIN_PRECISION <= U128_MAX && margin * (v + 1) <= U128_MAX
  {
    if v >= 2 * QUOTE_PRECISION {
      MulMono(v + 1, n, v);
      MulMono(MARGIN_PRECISION, v, v);
    }
  }

  lemma ShareAboveMargin(v: nat, margin: nat)
    requires 1 <= v <= margin
    ensures margin * (v + 1) / v > margin
  {
    assert margin * (v + 1) == margin * v + margin;
    assert (margin + 1) * v == margin * v + v;
    DivAtLeast(margin * (v + 1), v, margin + 1);
  }

  /** No user of the partial branch underflows at a setting exactly when the closing
      share never exceeds the whole: beyond that the setters accept it all the same. */
  lemma NeverUnderflowsIff(closing: Percentage)
    ensures NeverUnderflows(closing) <==> closing.denominator == 0 || AtMostWhole(closing)
  {
    if closing.denominator != 0 && !AtMostWhole(closing) {
      ExceedingUnderflows(closing);
    } else {
      forall user: Liquidatee, penalty: Percentage
        | TakesPartialBranch(user) && GuardsShrink(user.statuses) && AllCovered(user.statuses) && Proper(penalty)
        ensures Liquidated(user, closing, penalty) != Err(Underflow)
      {
        ProperIsAtMostWhole(penalty);
        hide *;
        if closing.denominator == 0 {
          NoShareNoUnderflow(user, closing, penalty);
        } else {
          LiquidationWithinLimits(user, closing, penalty);
        }
      }
    }
  }

  lemma NoShareNoUnderflow(user: Liquidatee, closing: Percentage, penalty: Percentage)
    requires closing.denominator == 0
    ensures Liquidated(user, closing, penalty) != Err(Underflow)
  {
    hide CloseFrom;
  }

  /** A user due for partial liquidation at a closing percentage of two, whose position
      cost twice over cannot be closed; and one whose cost is nothing, where it is the
      margin that cannot be released. */
  lemma ImproperPercentageUnderflows(cost: u128)
    requires cost == 0 || cost == 1_000_000_000
    ensures var position := Reduction(10_000_000_000_000, cost, 20_000_000_000_000);
            var status := MarketStatus(1_000_000_000, 625_000_000_000, 500_000_000_000, 0, None, Proceed, position);
            var user := Liquidatee([status], 60_000_000, 0);
            && TakesPartialBranch(user)
            && Liquidated(user, Percentage(2, 1), Percentage(25, 1000)) == Err(Underflow)
  {
    var position := Reduction(10_000_000_000_000, cost, 20_000_000_000_000);
    var status := MarketStatus(1_000_000_000, 625_000_000_000, 500_000_000_000, 0, None, Proceed, position);
    var statuses := [status];
    TotalsOfOne(status);
    var user := Liquidatee(statuses, 60_000_000, 0);
    var terms := Terms(Percentage(2, 1), 1_500_000, 2_000_000_000, 60_000_000);
    assert TermsFor(user, Percentage(2, 1), Percentage(25, 1000)) == Ok(terms);
    assert position.ClosedCost() == Ok(2 * cost);
    assert CloseMarket(status, terms, Tally(0, 0, 62_500_000)) == Err(Underflow);
    assert CloseFrom(statuses, 0, terms, Tally(0, 0, 62_500_000)) == Err(Underflow);
  }

  // ------------------------------------------------------- when it stops

  /** What closing every market from `i` on that is not skipped would close. */
  function AllQuotes(statuses: seq<MarketStatus>, i: nat, terms: Terms): nat
    requires i <= |statuses|
    decreases |statuses| - i
  {
    if i == |statuses| then 0
    else
      (match QuoteToClose(statuses[i], terms)
       case Ok(quote) => if Skipped(statuses[i]) then 0 else quote
       case Err(_) => 0)
      + AllQuotes(statuses, i + 1, terms)
  }

  /** The loop stops only when the requirement left is met after the fee, or when
      it has closed every market it did not skip. */
  lemma {:induction false} StopsWhenEnough(statuses: seq<MarketStatus>, i: nat, terms: Terms, tally: Tally)
    requires i <= |statuses| && CloseFrom(statuses, i, terms, tally).Ok?
    ensures var result := CloseFrom(statuses, i, terms, tally).value;
            || result.marginRequirement + result.fee < terms.adjustedCollateral
            || result.closed == tally.closed + AllQuotes(statuses, i, terms)
    decreases |statuses| - i
  {
    hide QuoteToClose, EnoughClosed, Share;
    if i < |statuses| {
      if Skipped(statuses[i]) {
        StopsWhenEnough(statuses, i + 1, terms, tally);
      } else {
        var tally' := CloseMarket(statuses[i], terms, tally).value;
        EnoughIsMet(terms, tally');
        if !IsMet(terms, tally') {
          StopsWhenEnough(statuses, i + 1, terms, tally');
        }
      }
    }
  }

  /** Every market from `i` up to `n` that is not skipped is closed, whatever the tally. */
  function CloseUpTo(statuses: seq<MarketStatus>, i: nat, n: nat, terms: Terms, tally: Tally): Result<Tally>
    requires i <= n <= |statuses|
    decreases n - i
  {
    if i == n then Ok(tally)
    else if Skipped(statuses[i]) then CloseUpTo(statuses, i + 1, n, terms, tally)
    else
      var tally' :- CloseMarket(statuses[i], terms, tally);
      CloseUpTo(statuses, i + 1, n, terms, tally')
  }

  /** The loop stops behind market `n - 1`, and had no reason to stop before. */
  ghost predicate StopsAt(statuses: seq<MarketStatus>, i: nat, n: nat, terms: Terms, tally: Tally, result: Tally)
    requires i <= n <= |statuses|
  {
    && CloseUpTo(statuses, i, n, terms, tally) == Ok(result)
    && (n < |statuses| ==> i < n && !Skipped(statuses[n - 1]) && IsMet(terms, result))
    && forall m :: i < m < n && !Skipped(statuses[m - 1]) ==>
                     && CloseUpTo(statuses, i, m, terms, tally).Ok?
                     && !IsMet(terms, CloseUpTo(statuses, i, m, terms, tally).value)
  }

  /** It stops behind the first market closed after which the requirement is met, and
      at the end if there is none. */
  lemma {:induction false} StopsAtFirstMet(statuses: seq<MarketStatus>, i: nat, terms: Terms, tally: Tally)
      returns (n: nat)
    requires i <= |statuses| && CloseFrom(statuses, i, terms, tally).Ok?
    ensures i <= n <= |statuses|
    ensures StopsAt(statuses, i, n, terms, tally, CloseFrom(statuses, i, terms, tally).value)
    decreases |statuses| - i
  {
    hide CloseMarket, Skipped, EnoughClosed, IsMet, StopsAt;
    n := i;
    if i == |statuses| {
      StopsHere(statuses, i, i, terms, tally, tally);
    } else if Skipped(statuses[i]) {
      n := StopsAtFirstMet(statuses, i + 1, terms, tally);
      OneMore(statuses, i, n, terms, tally, tally, CloseFrom(statuses, i, terms, tally).value);
    } else {
      var tally' := CloseMarket(statuses[i], terms, tally).value;
      EnoughIsMet(terms, tally');
      if IsMet(terms, tally') {
        n := i + 1;
        StopsHere(statuses, i, n, terms, tally, tally');
      } else {
        n := StopsAtFirstMet(statuses, i + 1, terms, tally');
        OneMore(statuses, i, n, terms, tally, tally', CloseFrom(statuses, i, terms, tally).value);
      }
    }
  }

  lemma StopsHere(statuses: seq<MarketStatus>, i: nat, n: nat, terms: Terms, tally: Tally, result: Tally)
    requires i <= n <= |statuses|
    requires if i == |statuses| then n == i && result == tally
             else
               && n == i + 1 && !Skipped(statuses[i])
               && CloseMarket(statuses[i], terms, tally) == Ok(result) && IsMet(terms, result)
    ensures StopsAt(statuses, i, n, terms, tally, result)
  {
    hide CloseMarket, Skipped, IsMet;
    if i < |statuses| {
      assert CloseUpTo(statuses, i + 1, i + 1, terms, result) == Ok(result);
    }
  }

  lemma OneMore(statuses: seq<MarketStatus>, i: nat, n: nat, terms: Terms, tally: Tally, tally': Tally, result: Tally)
    requires i < |statuses| && i + 1 <= n <= |statuses| && StopsAt(statuses, i + 1, n, terms, tally', result)
    requires if Skipped(statuses[i]) then tally' == tally
             else CloseMarket(statuses[i], terms, tally) == Ok(tally') && !IsMet(terms, tally')
    ensures StopsAt(statuses, i, n, terms, tally, result)
  {
    hide CloseMarket, Skipped, IsMet;
    forall m | i < m <= n
      ensures CloseUpTo(statuses, i, m, terms, tally) == CloseUpTo(statuses, i + 1, m, terms, tally')
    {
    }
    assert CloseUpTo(statuses, i + 1, i + 1, terms, tally') == Ok(tally');
  }

  // ------------------------------------------------------- the figures it starts with

  /** Terms in plain numbers, and when there are any. */
  lemma TermsInNumbers(user: Liquidatee, closing: Percentage, penalty: Percentage)
    ensures TermsFor(user, closing, penalty).Ok?
            <==> && user.TotalCollateral() <= U128_MAX && user.AdjustedCollateral() <= U128_MAX
                 && user.BaseAssetValue() <= U128_MAX
                 && user.TotalCollateral() * penalty.numerator <= U128_MAX && penalty.denominator != 0
                 && user.BaseAssetValue() * closing.numerator <= U128_MAX && closing.denominator != 0
    ensures TermsFor(user, closing, penalty).Ok? ==>
              TermsFor(user, closing, penalty).value
              == Terms(closing, user.TotalCollateral() * penalty.numerator / penalty.denominator,
                       user.BaseAssetValue() * closing.numerator / closing.denominator, user.AdjustedCollateral())
  {
    if user.TotalCollateral() <= U128_MAX && user.BaseAssetValue() <= U128_MAX {
      ShareInNumbers(user.TotalCollateral(), penalty);
      ShareInNumbers(user.BaseAssetValue(), closing);
    }
    hide Share;
  }

  /** Losses take collateral to zero at worst, first the positions' and then what is
      unsettled. */
  lemma CollateralInNumbers(user: Liquidatee)
    ensures var open := user.depositValue + TotalPnl(user.statuses);
            var marked := if open < 0 then 0 else open;
            user.TotalCollateral() == if marked + user.unsettledPnl < 0 then 0 else marked + user.unsettledPnl
    ensures var open := user.depositValue + TotalAdjustedPnl(user.statuses);
            var adjusted := if open < 0 then 0 else open;
            user.AdjustedCollateral() == if adjusted + user.unsettledPnl < 0 then 0 else adjusted + user.unsettledPnl
  {
  }

  /** Which branch a user takes, from what he has and what is required of him. */
  lemma BranchInNumbers(user: Liquidatee)
    ensures var adjusted := user.AdjustedCollateral();
            var partial, maintenance :=
                TotalRawMargin(user.statuses) / 10_000, TotalRawMaintenance(user.statuses) / 10_000;
            && (TypeOf(user) == Full <==> adjusted < maintenance)
            && (TypeOf(user) == Partial <==> maintenance <= adjusted < partial)
            && (TakesPartialBranch(user) <==> maintenance <= adjusted < partial && 1_000_000 < adjusted)
  {
  }

  /** What the guards decide: a market without value, or with an invalid oracle too far
      off, is passed over; one that must not be pushed further off ends it all. */
  lemma GuardsDecide(statuses: seq<MarketStatus>, i: nat, terms: Terms, tally: Tally)
    requires i < |statuses|
    ensures var status, result := statuses[i], CloseFrom(statuses, i, terms, tally);
            && (status.baseAssetValue == 0 || status.guard == Skip ==>
                  result == CloseFrom(statuses, i + 1, terms, tally))
            && (status.baseAssetValue != 0 && status.guard == Refuse ==> result == Err(OracleMarkSpreadLimit))
            && (status.baseAssetValue != 0 && status.guard != Skip && result.Ok? ==>
                  CloseMarket(status, terms, tally).Ok?)
  {
  }

  /** A partial liquidation ends with the loop's tally, unless that closed nothing. */
  lemma LiquidatedOutcome(user: Liquidatee, closing: Percentage, penalty: Percentage, terms: Terms)
    requires TermsFor(user, closing, penalty) == Ok(terms) && user.MarginRequirement() <= U128_MAX
    ensures var result := CloseFrom(user.statuses, 0, terms, Tally(0, 0, user.MarginRequirement()));
            Liquidated(user, closing, penalty)
            == if result.Ok? && result.value.closed == 0 then Err(NoPositionsLiquidatable) else result
  {
  }
}
