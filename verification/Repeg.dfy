/** Moving the peg on a budget (sdk/src/math/repeg.ts, and calculatePrepeg and
    calculatePrepegAMM of amm.ts). */
module Repeg {
  import opened Arithmetic
  import opened Bn
  import opened Amm

  const AMM_RESERVE_PRECISION := 10_000_000_000_000
  const QUOTE_PRECISION := 1_000_000

  function CalculateRepegCost(amm: AMM, newPeg: int): int {
    var dqar := amm.quoteAssetReserve - amm.terminalQuoteAssetReserve;
    TruncDiv(TruncDiv(dqar * (newPeg - amm.pegMultiplier), AMM_TO_QUOTE_PRECISION_RATIO), PEG_PRECISION)
  }

  function TargetPeg(amm: AMM, targetPrice: int): Attempt<int> {
    var scaled :- Div(targetPrice * amm.baseAssetReserve, amm.quoteAssetReserve);
    Done(TruncDiv(scaled, MARK_PRICE_PRECISION / PEG_PRECISION))
  }

  /** Quote the curve would give up if the net position were closed. */
  function DeltaQuoteReserves(amm: AMM): Attempt<int> {
    var terminal :- Div(amm.Invariant(), amm.baseAssetReserve + amm.netBaseAssetAmount);
    Done(amm.quoteAssetReserve - terminal)
  }

  predicate UsesTargetPeg(delta: int, pegChange: int) {
    delta == 0 || (delta < 0 && pegChange > 0) || (delta > 0 && pegChange < 0)
  }

  function CalculateBudgetedPeg(amm: AMM, cost: int, targetPrice: int): Attempt<int> {
    var targetPeg :- TargetPeg(amm, targetPrice);
    var delta :- DeltaQuoteReserves(amm);
    if UsesTargetPeg(delta, targetPeg - amm.pegMultiplier) then Done(targetPeg)
    else
      var deltaPegMultiplier :- Div(-cost * MARK_PRICE_PRECISION, TruncDiv(delta, AMM_TO_QUOTE_PRECISION_RATIO));
      Done(amm.pegMultiplier - TruncDiv(deltaPegMultiplier * PEG_PRECISION, MARK_PRICE_PRECISION))
  }

  // ------------------------------------------------------- the budget

  /** The terminal reserve recorded in the AMM is the curve's. */
  predicate TerminalOnCurve(amm: AMM) {
    DeltaQuoteReserves(amm) == Done(amm.quoteAssetReserve - amm.terminalQuoteAssetReserve)
  }

  /** Inventory in whole quote units: the divisor of the budgeted step. */
  function WholeInventory(amm: AMM): nat {
    Abs(amm.quoteAssetReserve - amm.terminalQuoteAssetReserve) / AMM_TO_QUOTE_PRECISION_RATIO
  }

  /** The peg step a budget buys, before its sign is chosen. */
  function PegStep(budget: nat, inventory: nat): nat
    requires 0 < inventory
  {
    budget * MARK_PRICE_PRECISION / inventory * PEG_PRECISION / MARK_PRICE_PRECISION
  }

  lemma PegStepBounds(budget: nat, inventory: nat)
    requires 0 < inventory
    ensures PegStep(budget, inventory) == budget * PEG_PRECISION / inventory
    ensures inventory * PegStep(budget, inventory) <= budget * PEG_PRECISION
            < inventory * PegStep(budget, inventory) + inventory
  {
    var scaled := budget * MARK_PRICE_PRECISION;
    var q := scaled / inventory;
    DivFloor(scaled, inventory);
    DivFloor(q * PEG_PRECISION, MARK_PRICE_PRECISION);
    var step := PegStep(budget, inventory);
    assert q == budget * MARK_PRICE_PRECISION / inventory;
    // step <= q / 10^7 < step + 1
    assert step * 10_000_000 <= q < (step + 1) * 10_000_000;
    MulMono(step * 10_000_000, q, inventory);
    MulMono(q + 1, (step + 1) * 10_000_000, inventory);
    assert (step * 10_000_000) * inventory == (inventory * step) * 10_000_000;
    assert ((step + 1) * 10_000_000) * inventory == (inventory * step + inventory) * 10_000_000;
    assert (step + 1) * inventory == inventory * step + inventory;
    DivUnique(budget * PEG_PRECISION, inventory, step);
  }

  /** The cost of a peg step, as one floor. */
  lemma StepCost(moved: nat, step: nat)
    ensures TruncDiv(TruncDiv(moved * step, AMM_TO_QUOTE_PRECISION_RATIO), PEG_PRECISION)
            == moved * step / AMM_TIMES_PEG_TO_QUOTE_PRECISION_RATIO
  {
    MulNonNegative(moved, step);
    TruncIsFloor(moved * step, AMM_TO_QUOTE_PRECISION_RATIO);
    TruncIsFloor(moved * step / AMM_TO_QUOTE_PRECISION_RATIO, PEG_PRECISION);
    DivDiv(moved * step, AMM_TO_QUOTE_PRECISION_RATIO, PEG_PRECISION);
  }

  /** The budgeted step spends the budget: within one part in the inventory above
      it, and within one part in a thousand of the inventory, and a unit, below. */
  lemma SpentWithinBudget(budget: nat, moved: nat)
    requires 0 < moved / AMM_TO_QUOTE_PRECISION_RATIO
    ensures var inventory := moved / AMM_TO_QUOTE_PRECISION_RATIO;
            var spent := moved * PegStep(budget, inventory) / AMM_TIMES_PEG_TO_QUOTE_PRECISION_RATIO;
            && spent * inventory <= (inventory + 1) * budget
            && 1_000 * budget < 1_000 * (spent + 1) + inventory
  {
    var ratio, r := AMM_TO_QUOTE_PRECISION_RATIO, AMM_TIMES_PEG_TO_QUOTE_PRECISION_RATIO;
    var inventory := moved / ratio;
    var step := PegStep(budget, inventory);
    PegStepBounds(budget, inventory);
    DivFloor(moved, ratio);
    MulNonNegative(moved, step);
    DivFloor(moved * step, r);
    var spent := moved * step / r;
    SpentAbove(budget, moved, inventory, step, spent);
    SpentBelow(budget, moved, inventory, step, spent);
  }

  lemma SpentAbove(budget: nat, moved: nat, inventory: nat, step: nat, spent: nat)
    requires moved < (inventory + 1) * AMM_TO_QUOTE_PRECISION_RATIO
    requires inventory * step <= budget * PEG_PRECISION
    requires spent * AMM_TIMES_PEG_TO_QUOTE_PRECISION_RATIO <= moved * step
    ensures spent * inventory <= (inventory + 1) * budget
  {
    var r := AMM_TIMES_PEG_TO_QUOTE_PRECISION_RATIO;
    MulMono(spent * r, moved * step, inventory);
    MulMono(moved, (inventory + 1) * AMM_TO_QUOTE_PRECISION_RATIO, step * inventory);
    MulMono(inventory * step, budget * PEG_PRECISION, (inventory + 1) * AMM_TO_QUOTE_PRECISION_RATIO);
    calc <= {
      (spent * inventory) * r;
      { assert (spent * inventory) * r == (spent * r) * inventory; }
      (moved * step) * inventory;
      { assert (moved * step) * inventory == moved * (step * inventory); }
      ((inventory + 1) * AMM_TO_QUOTE_PRECISION_RATIO) * (step * inventory);
      ((inventory + 1) * AMM_TO_QUOTE_PRECISION_RATIO) * (budget * PEG_PRECISION);
      { assert ((inventory + 1) * AMM_TO_QUOTE_PRECISION_RATIO) * (budget * PEG_PRECISION)
               == ((inventory + 1) * budget) * r; }
      ((inventory + 1) * budget) * r;
    }
    MulCancel(spent * inventory, (inventory + 1) * budget, r);
  }

  lemma SpentBelow(budget: nat, moved: nat, inventory: nat, step: nat, spent: nat)
    requires inventory * AMM_TO_QUOTE_PRECISION_RATIO <= moved
    requires budget * PEG_PRECISION < inventory * step + inventory
    requires moved * step < (spent + 1) * AMM_TIMES_PEG_TO_QUOTE_PRECISION_RATIO
    ensures 1_000 * budget < 1_000 * (spent + 1) + inventory
  {
    MulMono(inventory * AMM_TO_QUOTE_PRECISION_RATIO, moved, step);
    assert (inventory * AMM_TO_QUOTE_PRECISION_RATIO) * step == (inventory * step) * AMM_TO_QUOTE_PRECISION_RATIO;
  }

  /** A budgeted peg: the target when moving there costs nothing, and otherwise a
      step away from the inventory's side that spends the budget. */
  lemma BudgetedPegStep(amm: AMM, budget: nat, targetPrice: int)
    requires TerminalOnCurve(amm) && 0 < WholeInventory(amm) && TargetPeg(amm, targetPrice).Done?
    ensures var delta := amm.quoteAssetReserve - amm.terminalQuoteAssetReserve;
            var step := PegStep(budget, WholeInventory(amm));
            CalculateBudgetedPeg(amm, budget, targetPrice)
            == Done(if delta == 0 || delta * (TargetPeg(amm, targetPrice).value - amm.pegMultiplier) < 0
                    then TargetPeg(amm, targetPrice).value
                    else amm.pegMultiplier + (if delta > 0 then step else -(step as int)))
  {
    hide TruncDiv;
    var delta := amm.quoteAssetReserve - amm.terminalQuoteAssetReserve;
    AwayFromInventory(delta, TargetPeg(amm, targetPrice).value - amm.pegMultiplier);
    SignedDivisor(delta);
    SignedStep(budget * MARK_PRICE_PRECISION, WholeInventory(amm));
  }

  /** Moving to the target is free without inventory, or against its side. */
  lemma AwayFromInventory(delta: int, pegChange: int)
    ensures UsesTargetPeg(delta, pegChange) <==> delta == 0 || delta * pegChange < 0
  {
  }

  lemma SignedDivisor(delta: int)
    ensures var inventory := Abs(delta) / AMM_TO_QUOTE_PRECISION_RATIO;
            TruncDiv(delta, AMM_TO_QUOTE_PRECISION_RATIO) == if delta > 0 then inventory else -inventory
  {
    TruncIsFloor(Abs(delta), AMM_TO_QUOTE_PRECISION_RATIO);
    TruncOfNegative(Abs(delta), AMM_TO_QUOTE_PRECISION_RATIO);
  }

  lemma SignedStep(scaled: int, inventory: int)
    requires 0 <= scaled && 0 < inventory
    ensures var step := scaled / inventory * PEG_PRECISION / MARK_PRICE_PRECISION;
            && TruncDiv(TruncDiv(-scaled, inventory) * PEG_PRECISION, MARK_PRICE_PRECISION) == -step
            && TruncDiv(TruncDiv(-scaled, -inventory) * PEG_PRECISION, MARK_PRICE_PRECISION) == step
  {
    hide TruncDiv;
    SignedQuotient(scaled, inventory);
    SignedScaling(scaled / inventory);
  }

  lemma SignedQuotient(scaled: int, inventory: int)
    requires 0 <= scaled && 0 < inventory
    ensures 0 <= scaled / inventory
    ensures TruncDiv(-scaled, inventory) == -(scaled / inventory)
    ensures TruncDiv(-scaled, -inventory) == scaled / inventory
  {
    hide TruncDiv;
    TruncIsFloor(scaled, inventory);
    TruncOfNegative(scaled, inventory);
    TruncOfNegative(-scaled, inventory);
    DivFloor(scaled, inventory);
  }

  lemma SignedScaling(q: int)
    requires 0 <= q
    ensures TruncDiv(-q * PEG_PRECISION, MARK_PRICE_PRECISION) == -(q * PEG_PRECISION / MARK_PRICE_PRECISION)
    ensures TruncDiv(q * PEG_PRECISION, MARK_PRICE_PRECISION) == q * PEG_PRECISION / MARK_PRICE_PRECISION
  {
    hide TruncDiv;
    TruncIsFloor(q * PEG_PRECISION, MARK_PRICE_PRECISION);
    TruncOfNegative(q * PEG_PRECISION, MARK_PRICE_PRECISION);
    assert -q * PEG_PRECISION == -(q * PEG_PRECISION);
  }

  /** The repeg to the budgeted peg costs nothing, or spends the budget to within
      one part in the inventory, whichever side the inventory is on. */
  lemma RepegWithinBudget(amm: AMM, budget: nat, targetPrice: int)
    requires TerminalOnCurve(amm) && 0 < WholeInventory(amm) && TargetPeg(amm, targetPrice).Done?
    ensures CalculateBudgetedPeg(amm, budget, targetPrice).Done?
    ensures var cost := CalculateRepegCost(amm, CalculateBudgetedPeg(amm, budget, targetPrice).value);
            var inventory := WholeInventory(amm);
            var delta := amm.quoteAssetReserve - amm.terminalQuoteAssetReserve;
            if delta == 0 || delta * (TargetPeg(amm, targetPrice).value - amm.pegMultiplier) < 0 then cost <= 0
            else
              && 0 <= cost
              && cost * inventory <= (inventory + 1) * budget
              && 1_000 * budget < 1_000 * (cost + 1) + inventory
  {
    hide TruncDiv, PegStep, TargetPeg, DeltaQuoteReserves, CalculateBudgetedPeg;
    BudgetedPegStep(amm, budget, targetPrice);
    var delta := amm.quoteAssetReserve - amm.terminalQuoteAssetReserve;
    var targetPeg, inventory := TargetPeg(amm, targetPrice).value, WholeInventory(amm);
    AwayFromInventory(delta, targetPeg - amm.pegMultiplier);
    if UsesTargetPeg(delta, targetPeg - amm.pegMultiplier) {
      OppositeSignsCostNothing(delta, targetPeg - amm.pegMultiplier);
    } else {
      var step := PegStep(budget, inventory);
      SameSignProduct(delta, step);
      StepCost(Abs(delta), step);
      SpentWithinBudget(budget, Abs(delta));
    }
  }

  lemma SameSignProduct(delta: int, step: nat)
    requires delta != 0
    ensures delta * (if delta > 0 then step else -(step as int)) == Abs(delta) * step
  {
  }

  lemma OppositeSignsCostNothing(a: int, b: int)
    requires a == 0 || (a < 0 < b) || (b < 0 < a)
    ensures TruncDiv(TruncDiv(a * b, AMM_TO_QUOTE_PRECISION_RATIO), PEG_PRECISION) <= 0
  {
    var moved := Abs(a) * Abs(b);
    MulNonNegative(Abs(a), Abs(b));
    assert a * b == -moved;
    TruncIsFloor(moved, AMM_TO_QUOTE_PRECISION_RATIO);
    TruncOfNegative(moved, AMM_TO_QUOTE_PRECISION_RATIO);
    var q := moved / AMM_TO_QUOTE_PRECISION_RATIO;
    TruncIsFloor(q, PEG_PRECISION);
    TruncOfNegative(q, PEG_PRECISION);
  }

  // ------------------------------------------------------- scaling the curve

  datatype Ratio = Ratio(numerator: int, denominator: int)

  function CalculateBudgetedK(amm: AMM, cost: int): Ratio {
    var x, y, d, peg, c :=
        amm.baseAssetReserve, amm.quoteAssetReserve, amm.netBaseAssetAmount, amm.pegMultiplier, -cost;
    var numer1 := TruncDiv(TruncDiv(y * d * peg, AMM_RESERVE_PRECISION), PEG_PRECISION);
    var numer2 := TruncDiv(c * (x + d), QUOTE_PRECISION);
    var denom1 := TruncDiv(TruncDiv(c * x * (x + d), AMM_RESERVE_PRECISION), QUOTE_PRECISION);
    var denom2 := TruncDiv(TruncDiv(TruncDiv(y * d * d * peg, AMM_RESERVE_PRECISION), AMM_RESERVE_PRECISION),
                           PEG_PRECISION);
    Ratio(TruncDiv(TruncDiv(TruncDiv(d * (numer1 - numer2), AMM_RESERVE_PRECISION), AMM_RESERVE_PRECISION),
                   AMM_TO_QUOTE_PRECISION_RATIO),
          TruncDiv(TruncDiv(denom1 + denom2, AMM_RESERVE_PRECISION), AMM_TO_QUOTE_PRECISION_RATIO))
  }

  function CalculateAdjustKCost(amm: AMM, k: Ratio): Attempt<int> {
    var x, y, d := amm.baseAssetReserve, amm.quoteAssetReserve, amm.netBaseAssetAmount;
    var quoteScale := y * d * amm.pegMultiplier;
    var p :- Div(k.numerator * MARK_PRICE_PRECISION, k.denominator);
    var before :- Div(quoteScale, x + d);
    var after :- Div(TruncDiv(quoteScale * p, MARK_PRICE_PRECISION), TruncDiv(x * p, MARK_PRICE_PRECISION) + d);
    Done(-TruncDiv(TruncDiv(before - after, AMM_TO_QUOTE_PRECISION_RATIO), PEG_PRECISION))
  }

  /** The ratio to scale k by, not below 978 / 1000. */
  function ScaleToMakeUp(amm: AMM, deficit: int): Ratio {
    var k := CalculateBudgetedK(amm, deficit);
    if k.numerator * 1000 < k.denominator * 978 then Ratio(978, 1000) else k
  }

  /** The AMM with its reserves scaled and its terminal reserve recomputed. */
  function Rescaled(amm: AMM, k: Ratio): Attempt<AMM> {
    var base :- Div(amm.baseAssetReserve * k.numerator, k.denominator);
    var sqrtK :- Div(amm.sqrtK * k.numerator, k.denominator);
    var quote :- Div(sqrtK * sqrtK, base);
    WithTerminal(amm.(baseAssetReserve := base, sqrtK := sqrtK, quoteAssetReserve := quote))
  }

  function WithTerminal(amm: AMM): Attempt<AMM> {
    var direction := if amm.netBaseAssetAmount > 0 then Short else Long;
    var (quote, _) :- CalculateAmmReservesAfterSwap(amm, Base, Abs(amm.netBaseAssetAmount),
                                                    GetSwapDirection(Base, direction));
    Done(amm.(terminalQuoteAssetReserve := quote))
  }

  lemma TerminalIsOnCurve(amm: AMM)
    requires WithTerminal(amm).Done?
    ensures TerminalOnCurve(WithTerminal(amm).value)
    ensures WithTerminal(amm).value
            == amm.(terminalQuoteAssetReserve := WithTerminal(amm).value.terminalQuoteAssetReserve)
  {
  }

  function Budget(amm: AMM): nat {
    var spare := amm.totalFeeMinusDistributions - TruncDiv(amm.totalFee, 2);
    if spare < 0 then 0 else spare
  }

  datatype Prepeg = Prepeg(cost: int, k: Ratio, newPeg: int)

  /** The peg that would put the mark price at the oracle's, rounded to nearest. */
  function IdealPeg(amm: AMM, targetPrice: int): Attempt<int> {
    var scaled :- Div(targetPrice * amm.baseAssetReserve, amm.quoteAssetReserve);
    var unit := MARK_PRICE_PRECISION / PEG_PRECISION;
    Done(TruncDiv(scaled + unit / 2, unit))
  }

  function CalculatePrepeg(amm: AMM, targetPrice: int): Attempt<Prepeg> {
    var ideal :- IdealPeg(amm, targetPrice);
    var idealCost := CalculateRepegCost(amm, ideal);
    if idealCost <= Budget(amm) then Done(Prepeg(idealCost, Ratio(1, 1), ideal))
    else
      var k := ScaleToMakeUp(amm, Budget(amm) - idealCost);
      var madeUp :- CalculateAdjustKCost(amm, k);
      var _ :- Assert(madeUp <= 0);
      var scaled :- Rescaled(amm, k);
      var newPeg :- CalculateBudgetedPeg(scaled, Budget(amm) + Abs(madeUp), targetPrice);
      Done(Prepeg(CalculateRepegCost(scaled, newPeg), k, newPeg))
  }

  function CalculatePrepegAMM(amm: AMM, targetPrice: int): Attempt<AMM> {
    if amm.curveUpdateIntensity == 0 then Done(amm)
    else
      var prepeg :- CalculatePrepeg(amm, targetPrice);
      var scaled :- Rescaled(amm, prepeg.k);
      Done(scaled.(pegMultiplier := prepeg.newPeg,
                   totalFeeMinusDistributions := scaled.totalFeeMinusDistributions - prepeg.cost))
  }

  /** What shrinking the curve frees, on top of the fee budget. */
  function MadeUp(amm: AMM, k: Ratio): nat {
    match CalculateAdjustKCost(amm, k)
    case Done(cost) => Abs(cost)
    case Throws => 0
  }

  /** A budgeted peg that comes out at all either costs nothing or stays within its
      budget: with no whole unit of inventory the division would have thrown. */
  lemma BudgetedPegAffordable(amm: AMM, budget: nat, targetPrice: int)
    requires TerminalOnCurve(amm) && CalculateBudgetedPeg(amm, budget, targetPrice).Done?
    ensures var cost, inventory :=
        CalculateRepegCost(amm, CalculateBudgetedPeg(amm, budget, targetPrice).value), WholeInventory(amm);
            cost <= 0 || (0 < inventory && cost * inventory <= (inventory + 1) * budget)
  {
    hide CalculateRepegCost, TruncDiv;
    if 0 < WholeInventory(amm) {
      RepegWithinBudget(amm, budget, targetPrice);
    } else {
      NoInventoryUsesTarget(amm, budget, targetPrice);
    }
  }

  lemma NoInventoryUsesTarget(amm: AMM, budget: nat, targetPrice: int)
    requires TerminalOnCurve(amm) && CalculateBudgetedPeg(amm, budget, targetPrice).Done?
    requires WholeInventory(amm) == 0
    ensures CalculateRepegCost(amm, CalculateBudgetedPeg(amm, budget, targetPrice).value) <= 0
  {
    hide TruncDiv;
    var delta := amm.quoteAssetReserve - amm.terminalQuoteAssetReserve;
    SignedDivisor(delta);
    OppositeSignsCostNothing(delta, TargetPeg(amm, targetPrice).value - amm.pegMultiplier);
  }

  /** The pre-trade repeg is affordable: within the fee budget when the ideal peg
      is, and otherwise within the budget plus what shrinking the curve made up,
      give or take one part in the inventory left on the scaled curve. */
  lemma PrepegAffordable(amm: AMM, targetPrice: int)
    requires CalculatePrepeg(amm, targetPrice).Done?
    ensures var prepeg := CalculatePrepeg(amm, targetPrice).value;
            if CalculateRepegCost(amm, IdealPeg(amm, targetPrice).value) <= Budget(amm)
            then prepeg.cost <= Budget(amm) && prepeg.k == Ratio(1, 1)
            else
              && Rescaled(amm, prepeg.k).Done?
              && var inventory := WholeInventory(Rescaled(amm, prepeg.k).value);
              && (prepeg.cost <= 0
                  || (0 < inventory
                      && prepeg.cost * inventory <= (inventory + 1) * (Budget(amm) + MadeUp(amm, prepeg.k))))
  {
    hide CalculateRepegCost, CalculateBudgetedK, CalculateAdjustKCost, CalculateBudgetedPeg, TerminalOnCurve, Budget;
    if CalculateRepegCost(amm, IdealPeg(amm, targetPrice).value) > Budget(amm) {
      var k := CalculatePrepeg(amm, targetPrice).value.k;
      var scaled := Rescaled(amm, k).value;
      RescaledTerminal(amm, k);
      BudgetedPegAffordable(scaled, Budget(amm) + MadeUp(amm, k), targetPrice);
    }
  }

  lemma RescaledTerminal(amm: AMM, k: Ratio)
    requires Rescaled(amm, k).Done?
    ensures var scaled := Rescaled(amm, k).value;
            && TerminalOnCurve(scaled)
            && scaled.baseAssetReserve != 0
            && scaled.quoteAssetReserve == TruncDiv(scaled.Invariant(), scaled.baseAssetReserve)
            && scaled.totalFee == amm.totalFee
            && scaled.totalFeeMinusDistributions == amm.totalFeeMinusDistributions
            && scaled.netBaseAssetAmount == amm.netBaseAssetAmount
  {
    hide TerminalOnCurve;
    var base := Div(amm.baseAssetReserve * k.numerator, k.denominator).value;
    var sqrtK := Div(amm.sqrtK * k.numerator, k.denominator).value;
    var quote := Div(sqrtK * sqrtK, base).value;
    TerminalIsOnCurve(amm.(baseAssetReserve := base, sqrtK := sqrtK, quoteAssetReserve := quote));
  }

  /** The re-pegged AMM is consistent: its quote and terminal reserves are those of
      its own curve. A repeg the budget covers leaves the protocol at least half of
      the fees it ever earned, or what it had if that was less. */
  lemma PrepegAmmConsistent(amm: AMM, targetPrice: int)
    requires amm.curveUpdateIntensity != 0 && CalculatePrepegAMM(amm, targetPrice).Done?
    ensures var amm' := CalculatePrepegAMM(amm, targetPrice).value;
            && TerminalOnCurve(amm')
            && amm'.baseAssetReserve != 0
            && amm'.quoteAssetReserve == TruncDiv(amm'.Invariant(), amm'.baseAssetReserve)
            && amm'.netBaseAssetAmount == amm.netBaseAssetAmount
    ensures CalculateRepegCost(amm, IdealPeg(amm, targetPrice).value) <= Budget(amm) ==>
              var kept := CalculatePrepegAMM(amm, targetPrice).value.totalFeeMinusDistributions;
              kept >= amm.totalFeeMinusDistributions || kept >= TruncDiv(amm.totalFee, 2)
  {
    hide CalculateRepegCost, CalculatePrepeg, IdealPeg, TruncDiv;
    var prepeg := CalculatePrepeg(amm, targetPrice).value;
    PrepegAffordable(amm, targetPrice);
    RescaledTerminal(amm, prepeg.k);
  }

  /** Leaving the curve as it is costs nothing, however the ratio one is written. */
  lemma UnscaledCurveCostsNothing(amm: AMM, n: int)
    requires 0 < n && amm.baseAssetReserve + amm.netBaseAssetAmount != 0
    ensures CalculateAdjustKCost(amm, Ratio(n, n)) == Done(0)
  {
    var quoteScale := amm.quoteAssetReserve * amm.netBaseAssetAmount * amm.pegMultiplier;
    ExactQuotient(MARK_PRICE_PRECISION, n);
    assert n * MARK_PRICE_PRECISION == MARK_PRICE_PRECISION * n;
    ExactQuotient(quoteScale, MARK_PRICE_PRECISION);
    ExactQuotient(amm.baseAssetReserve, MARK_PRICE_PRECISION);
    assert TruncDiv(0, AMM_TO_QUOTE_PRECISION_RATIO) == 0 && TruncDiv(0, PEG_PRECISION) == 0;
  }

  // ------------------------------------------------------- the cost of rescaling

  /** The ratio as the cost computes with it: truncated to ten decimals. */
  function RatioPrice(k: Ratio): int
    requires k.denominator != 0
  {
    TruncDiv(k.numerator * MARK_PRICE_PRECISION, k.denominator)
  }

  /** What the position is divided by before and after. */
  function Divisor(amm: AMM): int {
    amm.baseAssetReserve + amm.netBaseAssetAmount
  }

  function ScaledDivisor(amm: AMM, k: Ratio): int
    requires k.denominator != 0
  {
    TruncDiv(amm.baseAssetReserve * RatioPrice(k), MARK_PRICE_PRECISION) + amm.netBaseAssetAmount
  }

  /** The computation divides by zero nowhere. */
  predicate Priceable(amm: AMM, k: Ratio) {
    k.denominator != 0 && Divisor(amm) != 0 && ScaledDivisor(amm, k) != 0
  }

  /** Which way rescaling tips the worth of the position, times both divisors. */
  function Tilt(amm: AMM, k: Ratio): int
    requires k.denominator != 0
  {
    TiltOf(amm.netBaseAssetAmount, Divisor(amm), RatioPrice(k), ScaledDivisor(amm, k))
  }

  function TiltOf(d: int, before: int, p: int, after: int): int {
    var tilt := d * (MARK_PRICE_PRECISION * after - p * before);
    if (before < 0) == (after < 0) then tilt else -tilt
  }

  /** Rescaling by `k` never costs, and never pays, at whatever peg. */
  ghost predicate NeverCosts(amm: AMM, k: Ratio) {
    forall peg: nat :: CalculateAdjustKCost(amm.(pegMultiplier := peg), k).Done? ==>
                         CalculateAdjustKCost(amm.(pegMultiplier := peg), k).value <= 0
  }

  ghost predicate NeverPays(amm: AMM, k: Ratio) {
    forall peg: nat :: CalculateAdjustKCost(amm.(pegMultiplier := peg), k).Done? ==>
                         CalculateAdjustKCost(amm.(pegMultiplier := peg), k).value >= 0
  }

  lemma QuotientSign(a: int, b: int)
    requires 0 < b
    ensures 0 <= a ==> 0 <= TruncDiv(a, b)
    ensures a <= 0 ==> TruncDiv(a, b) <= 0
  {
  }

  /** Two truncations in a row are one by the product. */
  lemma TruncTrunc(a: int, b: int, c: int)
    requires 0 < b && 0 < c
    ensures 0 < b * c && TruncDiv(TruncDiv(a, b), c) == TruncDiv(a, b * c)
  {
    MulLess(0, b, c);
    hide TruncDiv;
    if a < 0 {
      NaturalTruncTrunc(-a, b, c);
      TruncOfNegative(-a, b);
      TruncOfNegative(TruncDiv(-a, b), c);
      TruncOfNegative(-a, b * c);
    } else {
      NaturalTruncTrunc(a, b, c);
    }
  }

  lemma NaturalTruncTrunc(a: int, b: int, c: int)
    requires 0 <= a && 0 < b && 0 < c && 0 < b * c
    ensures TruncDiv(TruncDiv(a, b), c) == TruncDiv(a, b * c)
  {
    hide TruncDiv;
    TruncIsFloor(a, b);
    TruncIsFloor(a / b, c);
    TruncIsFloor(a, b * c);
    DivDiv(a, b, c);
  }

  /** Truncation keeps the order of fractions. */
  lemma TruncMonotone(a: int, b: int, a': int, b': int)
    requires 0 < b && 0 < b' && a' * b <= a * b'
    ensures TruncDiv(a', b') <= TruncDiv(a, b)
  {
    hide TruncDiv;
    QuotientSign(a, b);
    QuotientSign(a', b');
    if 0 <= a' {
      if a < 0 {
        MulLess(a, 0, b');
        MulNonNegative(a', b);
        assert false;
      }
      NaturalTruncMonotone(a, b, a', b');
    } else if a < 0 {
      NegatedProduct(a, b');
      NegatedProduct(a', b);
      NaturalTruncMonotone(-a', b', -a, b);
      TruncOfNegative(-a, b);
      TruncOfNegative(-a', b');
    }
  }

  lemma NaturalTruncMonotone(a: nat, b: nat, a': nat, b': nat)
    requires 0 < b && 0 < b' && a' * b <= a * b'
    ensures TruncDiv(a', b') <= TruncDiv(a, b)
  {
    hide TruncDiv;
    TruncIsFloor(a, b);
    TruncIsFloor(a', b');
    var q := TruncDiv(a', b');
    MulMono(q * b', a', b);
    assert (q * b') * b == (q * b) * b';
    MulCancel(q * b, a, b');
    DivAtLeast(a, b, q);
  }

  /** The worth of the position before and after, by the sign of the tilt. */
  lemma TiltDecides(rate: nat, d: int, before: int, p: int, after: int)
    requires before != 0 && after != 0
    ensures var worth := rate * d;
            var was, becomes := TruncDiv(worth, before), TruncDiv(TruncDiv(worth * p, MARK_PRICE_PRECISION), after);
            && (TiltOf(d, before, p, after) >= 0 ==> becomes <= was)
            && (TiltOf(d, before, p, after) <= 0 ==> was <= becomes)
  {
    hide TruncDiv;
    var worth, m := rate * d, MARK_PRICE_PRECISION;
    var was := if before < 0 then -worth else worth;
    var now := if after < 0 then 0 - worth * p else worth * p;
    var size, size' := Abs(before), m * Abs(after);
    OverAbsolute(worth, before);
    OverAbsolute(TruncDiv(worth * p, m), after);
    TruncOfNegative(worth * p, m);
    TruncTrunc(now, m, Abs(after));
    CrossProducts(rate, d, before, p, after, was, now);
    if TiltOf(d, before, p, after) >= 0 {
      TruncMonotone(was, size, now, size');
    }
    if TiltOf(d, before, p, after) <= 0 {
      TruncMonotone(now, size', was, size);
    }
  }

  lemma OverAbsolute(a: int, b: int)
    requires b != 0
    ensures TruncDiv(a, b) == TruncDiv(if b < 0 then -a else a, Abs(b))
  {
    hide TruncDiv;
    if b < 0 {
      TruncOfNegative(a, -b);
    }
  }

  lemma CrossProducts(rate: nat, d: int, before: int, p: int, after: int, was: int, now: int)
    requires was == if before < 0 then -(rate * d) else rate * d
    requires now == if after < 0 then 0 - rate * d * p else rate * d * p
    ensures var m := MARK_PRICE_PRECISION;
            was * (m * Abs(after)) - now * Abs(before) == rate * TiltOf(d, before, p, after)
    ensures TiltOf(d, before, p, after) >= 0 ==> rate * TiltOf(d, before, p, after) >= 0
    ensures TiltOf(d, before, p, after) <= 0 ==> rate * TiltOf(d, before, p, after) <= 0
  {
    var w, a, b := rate * d, MARK_PRICE_PRECISION * after, p * before;
    var s, t := Sign(before), Sign(after);
    SignTimes(w, before);
    SignTimes(w * p, after);
    SignTimes(after, after);
    SignTimes(before, before);
    TwoSigns(s, t, w, a);
    TwoSigns(t, s, w * p, before);
    Reordered(w, before, p);
    assert MARK_PRICE_PRECISION * Abs(after) == t * a;
    TiltProduct(rate, d, a, b);
    assert (s * t) * (w * a) - (s * t) * (w * b) == (s * t) * (w * a - w * b);
  }

  function Sign(x: int): int {
    if x < 0 then -1 else 1
  }

  lemma SignTimes(w: int, x: int)
    ensures Sign(x) * w == if x < 0 then -w else w
  {
  }

  lemma TwoSigns(s: int, t: int, w: int, a: int)
    ensures (s * w) * (t * a) == (s * t) * (w * a)
  {
  }

  lemma TiltProduct(rate: nat, d: int, a: int, b: int)
    ensures rate * (d * (a - b)) == (rate * d) * a - (rate * d) * b
    ensures rate * (-(d * (a - b))) == -(rate * (d * (a - b)))
    ensures d * (a - b) >= 0 ==> rate * (d * (a - b)) >= 0
    ensures d * (a - b) <= 0 ==> rate * (d * (a - b)) <= 0
  {
    var tilt := d * (a - b);
    assert rate * tilt == (rate * d) * (a - b);
    assert (rate * d) * (a - b) == (rate * d) * a - (rate * d) * b;
  }

  /** The sign of the cost follows from the tilt, whatever the signs of inventory,
      ratio and divisors. */
  lemma RescalingCostSign(amm: AMM, k: Ratio)
    requires 0 <= amm.quoteAssetReserve && 0 <= amm.pegMultiplier
    ensures CalculateAdjustKCost(amm, k).Done? <==> Priceable(amm, k)
    ensures Priceable(amm, k) ==>
              var cost := CalculateAdjustKCost(amm, k).value;
              (Tilt(amm, k) >= 0 ==> cost <= 0) && (Tilt(amm, k) <= 0 ==> cost >= 0)
  {
    hide TruncDiv, TiltOf;
    if Priceable(amm, k) {
      var rate, d := amm.quoteAssetReserve * amm.pegMultiplier, amm.netBaseAssetAmount;
      MulNonNegative(amm.quoteAssetReserve, amm.pegMultiplier);
      assert amm.quoteAssetReserve * d * amm.pegMultiplier == rate * d;
      var p, before, after := RatioPrice(k), Divisor(amm), ScaledDivisor(amm, k);
      TiltDecides(rate, d, before, p, after);
      var lost := TruncDiv(rate * d, before) - TruncDiv(TruncDiv(rate * d * p, MARK_PRICE_PRECISION), after);
      QuotientSign(lost, AMM_TO_QUOTE_PRECISION_RATIO);
      QuotientSign(TruncDiv(lost, AMM_TO_QUOTE_PRECISION_RATIO), PEG_PRECISION);
    }
  }

  /** A peg at which nothing is rounded. */
  function ExactPeg(amm: AMM, k: Ratio): nat
    requires k.denominator != 0
  {
    MulNonNegative(Abs(ScaledDivisor(amm, k)), Abs(Divisor(amm)));
    MARK_PRICE_PRECISION * AMM_TIMES_PEG_TO_QUOTE_PRECISION_RATIO * (Abs(ScaledDivisor(amm, k)) * Abs(Divisor(amm)))
  }

  lemma ExactCost(amm: AMM, k: Ratio)
    requires Priceable(amm, k)
    ensures CalculateAdjustKCost(amm.(pegMultiplier := ExactPeg(amm, k)), k)
            == Done(-(amm.quoteAssetReserve * Tilt(amm, k)))
  {
    hide TruncDiv, TiltOf;
    var y, d, p := amm.quoteAssetReserve, amm.netBaseAssetAmount, RatioPrice(k);
    var before, after := Divisor(amm), ScaledDivisor(amm, k);
    var worth, r := y * d * ExactPeg(amm, k), AMM_TIMES_PEG_TO_QUOTE_PRECISION_RATIO;
    ExactWorth(y, d, before, p, after);
    var lost := TruncDiv(worth, before) - TruncDiv(TruncDiv(worth * p, MARK_PRICE_PRECISION), after);
    assert lost == (y * TiltOf(d, before, p, after)) * r;
    ExactDivisions(y * TiltOf(d, before, p, after));
  }

  lemma ExactDivisions(x: int)
    ensures TruncDiv(TruncDiv(x * AMM_TIMES_PEG_TO_QUOTE_PRECISION_RATIO, AMM_TO_QUOTE_PRECISION_RATIO),
                     PEG_PRECISION) == x
  {
    hide TruncDiv;
    assert x * AMM_TIMES_PEG_TO_QUOTE_PRECISION_RATIO == (x * PEG_PRECISION) * AMM_TO_QUOTE_PRECISION_RATIO;
    ExactQuotient(x * PEG_PRECISION, AMM_TO_QUOTE_PRECISION_RATIO);
    ExactQuotient(x, PEG_PRECISION);
  }

  lemma ExactSigned(x: int, b: int)
    requires b != 0
    ensures TruncDiv(x * Abs(b), b) == if b < 0 then -x else x
  {
    hide TruncDiv;
    ExactQuotient(x, Abs(b));
    if b < 0 {
      TruncOfNegative(x * Abs(b), Abs(b));
    }
  }

  lemma ExactWorth(y: int, d: int, before: int, p: int, after: int)
    requires before != 0 && after != 0
    ensures var m, r := MARK_PRICE_PRECISION, AMM_TIMES_PEG_TO_QUOTE_PRECISION_RATIO;
            var worth := y * d * (m * r * (Abs(after) * Abs(before)));
            TruncDiv(worth, before) - TruncDiv(TruncDiv(worth * p, m), after) == (y * TiltOf(d, before, p, after)) * r
  {
    hide TruncDiv;
    var m, r := MARK_PRICE_PRECISION, AMM_TIMES_PEG_TO_QUOTE_PRECISION_RATIO;
    var c := y * d * r;
    var worth := y * d * (m * r * (Abs(after) * Abs(before)));
    WorthFactors(y * d, r, m, Abs(after), Abs(before), p);
    ExactSigned(c * m * Abs(after), before);
    ExactQuotient(c * p * Abs(before) * Abs(after), m);
    ExactSigned(c * p * Abs(before), after);
    ExactDifference(y, d, r, before, p, after);
  }

  lemma WorthFactors(w: int, r: int, m: int, a: int, b: int, p: int)
    ensures w * (m * r * (a * b)) == (w * r * m * a) * b
    ensures w * (m * r * (a * b)) * p == (w * r * p * b * a) * m
  {
    var ab, wr := a * b, w * r;
    assert w * (m * r * ab) == wr * m * ab;
    assert wr * m * ab == (wr * m * a) * b;
    assert (wr * m * ab) * p == (wr * p * ab) * m;
    assert wr * p * ab == wr * p * b * a;
  }

  lemma ExactDifference(y: int, d: int, r: int, before: int, p: int, after: int)
    ensures var c, m := y * d * r, MARK_PRICE_PRECISION;
            var was, becomes := c * m * Abs(after), c * p * Abs(before);
            (if before < 0 then -was else was) - (if after < 0 then -becomes else becomes)
                == (y * TiltOf(d, before, p, after)) * r
  {
    var c, m := y * d * r, MARK_PRICE_PRECISION;
    var a, b := m * after, p * before;
    assert c * m * Abs(after) == if after < 0 then -(c * a) else c * a;
    assert c * p * Abs(before) == if before < 0 then -(c * b) else c * b;
    assert (y * (d * (a - b))) * r == c * a - c * b;
    assert (y * (-(d * (a - b)))) * r == -((y * (d * (a - b))) * r);
  }

  /** Rescaling never costs exactly where the tilt is not negative, and never pays
      exactly where it is not positive: beyond that some peg brings it out. */
  lemma NeverCostsIff(amm: AMM, k: Ratio)
    requires 0 < amm.quoteAssetReserve
    ensures NeverCosts(amm, k) <==> !Priceable(amm, k) || Tilt(amm, k) >= 0
    ensures NeverPays(amm, k) <==> !Priceable(amm, k) || Tilt(amm, k) <= 0
  {
    hide CalculateAdjustKCost, TiltOf, TruncDiv, RatioPrice;
    forall peg: nat
      ensures var priced := amm.(pegMultiplier := peg);
              var cost := CalculateAdjustKCost(priced, k);
              cost.Done? ==>
                && Priceable(amm, k)
                && (Tilt(amm, k) >= 0 ==> cost.value <= 0)
                && (Tilt(amm, k) <= 0 ==> cost.value >= 0)
    {
      RescalingCostSign(amm.(pegMultiplier := peg), k);
    }
    if Priceable(amm, k) {
      ExactCost(amm, k);
      var cost := CalculateAdjustKCost(amm.(pegMultiplier := ExactPeg(amm, k)), k).value;
      if Tilt(amm, k) < 0 {
        MulLess(Tilt(amm, k), 0, amm.quoteAssetReserve);
        assert cost > 0;
      }
      if Tilt(amm, k) > 0 {
        MulLess(0, Tilt(amm, k), amm.quoteAssetReserve);
        assert cost < 0;
      }
    }
  }

  // ------------------------------------------------------- shrinking and growing

  /** The tilt against the remainder the scaled reserve drops. */
  lemma RemainderTilt(amm: AMM, k: Ratio)
    requires k.denominator != 0 && 0 <= RatioPrice(k) && 0 <= amm.baseAssetReserve
    ensures var x, d, m, p := amm.baseAssetReserve, amm.netBaseAssetAmount, MARK_PRICE_PRECISION, RatioPrice(k);
            && ScaledDivisor(amm, k) == x * p / m + d
            && m * ScaledDivisor(amm, k) - p * Divisor(amm) == d * (m - p) - (x * p) % m
  {
    hide TruncDiv, RatioPrice;
    var x, d, p := amm.baseAssetReserve, amm.netBaseAssetAmount, RatioPrice(k);
    MulNonNegative(x, p);
    TruncIsFloor(x * p, MARK_PRICE_PRECISION);
    assert x * p == (x * p / MARK_PRICE_PRECISION) * MARK_PRICE_PRECISION + (x * p) % MARK_PRICE_PRECISION;
    assert p * (x + d) == x * p + d * p;
    assert d * (MARK_PRICE_PRECISION - p) == d * MARK_PRICE_PRECISION - d * p;
  }

  lemma TiltSign(d: int, e: int)
    ensures d > 0 ==> (d * e >= 0 <==> e >= 0) && (d * e <= 0 <==> e <= 0)
    ensures d < 0 ==> (d * e >= 0 <==> e <= 0) && (d * e <= 0 <==> e >= 0)
  {
  }

  lemma InventorySigns(d: int, p: int)
    ensures d <= 0 && p <= MARK_PRICE_PRECISION ==> d * (MARK_PRICE_PRECISION - p) <= 0
    ensures d >= 0 && p >= MARK_PRICE_PRECISION ==> d * (MARK_PRICE_PRECISION - p) <= 0
  {
  }

  /** Shrinking the curve never costs exactly if a short position still fits the
      scaled reserve, and a long one outweighs what flooring that reserve drops. */
  lemma ShrinkingNeverCostsIff(amm: AMM, k: Ratio)
    requires k.denominator != 0 && 0 <= RatioPrice(k) <= MARK_PRICE_PRECISION
    requires 0 <= amm.baseAssetReserve && 0 < amm.quoteAssetReserve && 0 < Divisor(amm)
    ensures var x, d, m, p := amm.baseAssetReserve, amm.netBaseAssetAmount, MARK_PRICE_PRECISION, RatioPrice(k);
            NeverCosts(amm, k) <==> if d > 0 then d * (m - p) >= (x * p) % m else ScaledDivisor(amm, k) >= 0
  {
    NeverCostsIff(amm, k);
    RemainderTilt(amm, k);
    hide NeverCosts, TruncDiv, RatioPrice, ScaledDivisor;
    var x, d, p := amm.baseAssetReserve, amm.netBaseAssetAmount, RatioPrice(k);
    MulNonNegative(x, p);
    DivFloor(x * p, MARK_PRICE_PRECISION);
    InventorySigns(d, p);
    TiltSign(d, MARK_PRICE_PRECISION * ScaledDivisor(amm, k) - p * Divisor(amm));
    if ScaledDivisor(amm, k) < 0 {
      MulNonNegative(p, Divisor(amm));
    }
  }

  /** Growing it never pays exactly if a short position outweighs that. */
  lemma GrowingNeverPaysIff(amm: AMM, k: Ratio)
    requires k.denominator != 0 && MARK_PRICE_PRECISION <= RatioPrice(k)
    requires 0 <= amm.baseAssetReserve && 0 < amm.quoteAssetReserve && 0 < Divisor(amm)
    ensures var x, d, m, p := amm.baseAssetReserve, amm.netBaseAssetAmount, MARK_PRICE_PRECISION, RatioPrice(k);
            NeverPays(amm, k) <==> d >= 0 || d * (m - p) >= (x * p) % m
  {
    NeverCostsIff(amm, k);
    RemainderTilt(amm, k);
    hide NeverPays, TruncDiv, RatioPrice, ScaledDivisor;
    var x, d, p := amm.baseAssetReserve, amm.netBaseAssetAmount, RatioPrice(k);
    MulNonNegative(x, p);
    MulMono(MARK_PRICE_PRECISION, p, x);
    DivAtLeast(x * p, MARK_PRICE_PRECISION, x);
    InventorySigns(d, p);
    TiltSign(d, MARK_PRICE_PRECISION * ScaledDivisor(amm, k) - p * Divisor(amm));
  }

  /** The smallest ratio calculatePrepeg goes down to. */
  lemma SmallestRatioNeverCostsIff(amm: AMM)
    requires 0 <= amm.baseAssetReserve && 0 < amm.quoteAssetReserve && 0 < Divisor(amm)
    ensures var x, d := amm.baseAssetReserve, amm.netBaseAssetAmount;
            NeverCosts(amm, Ratio(978, 1000)) <==> if d > 0 then 11 * d >= (489 * x) % 500 else 489 * x / 500 >= -d
  {
    var x, p := amm.baseAssetReserve, 9_780_000_000;
    assert RatioPrice(Ratio(978, 1000)) == p;
    ShrinkingNeverCostsIff(amm, Ratio(978, 1000));
    RemainderTilt(amm, Ratio(978, 1000));
    CommonFactor(489 * x, 500, 20_000_000);
    assert x * p == 489 * x * 20_000_000;
  }

  lemma CommonFactor(a: nat, b: nat, c: nat)
    requires 0 < b && 0 < c
    ensures 0 < b * c && (a * c) / (b * c) == a / b && (a * c) % (b * c) == (a % b) * c
  {
    var q := a / b;
    MulLess(0, b, c);
    DivFloor(a, b);
    assert a == q * b + a % b;
    assert a * c == q * (b * c) + (a % b) * c;
    MulLess(a % b, b, c);
    assert (q + 1) * (b * c) == q * (b * c) + b * c;
    DivUnique(a * c, b * c, q);
  }

  /** The assertion of calculatePrepeg fails: a budget of nothing and a far target
      call for the smallest ratio, and eleven times eight is less than the remainder. */
  lemma PrepegAssertionFails()
    ensures var amm := AMM(11, 9, 10, 100_000_000_000, 8, 5, 0, 0, 0, 0);
            var target := 100_000_000_000_000_000_000_000_000_000_000_000_000_000_000_000_000_000;
            && TerminalOnCurve(amm) && amm.OnCurve()
            && IdealPeg(amm, target).Done? && CalculateRepegCost(amm, IdealPeg(amm, target).value) > Budget(amm)
            && ScaleToMakeUp(amm, Budget(amm) - CalculateRepegCost(amm, IdealPeg(amm, target).value))
               == Ratio(978, 1000)
            && CalculateAdjustKCost(amm, Ratio(978, 1000)) == Done(1)
            && CalculatePrepeg(amm, target).Throws?
  {
    var amm := AMM(11, 9, 10, 100_000_000_000, 8, 5, 0, 0, 0, 0);
    var target := 100_000_000_000_000_000_000_000_000_000_000_000_000_000_000_000_000_000;
    var ideal := 12_222_222_222_222_222_222_222_222_222_222_222_222_222_222_222;
    var cost := 4_888_888_888_888_888_888_888_888_888_888_888_848;
    FarTarget(amm, target, ideal, cost);
    RatioForFarTarget(amm, cost);
    SmallestRatioCostsOne(amm);
    assert amm.OnCurve();
    hide IdealPeg, CalculateRepegCost, Budget, ScaleToMakeUp, CalculateAdjustKCost, Rescaled, CalculateBudgetedPeg,
        TruncDiv;
  }

  lemma FarTarget(amm: AMM, target: int, ideal: int, cost: int)
    requires amm == AMM(11, 9, 10, 100_000_000_000, 8, 5, 0, 0, 0, 0)
    requires target == 100_000_000_000_000_000_000_000_000_000_000_000_000_000_000_000_000_000
    requires ideal == 12_222_222_222_222_222_222_222_222_222_222_222_222_222_222_222
    requires cost == 4_888_888_888_888_888_888_888_888_888_888_888_848
    ensures IdealPeg(amm, target) == Done(ideal) && CalculateRepegCost(amm, ideal) == cost
    ensures Budget(amm) == 0 && TerminalOnCurve(amm)
  {
    var scaled := 122_222_222_222_222_222_222_222_222_222_222_222_222_222_222_222_222_222;
    assert TruncDiv(target * 11, 9) == scaled;
    assert TruncDiv(scaled + 5_000_000, 10_000_000) == ideal;
    var whole := 4_888_888_888_888_888_888_888_888_888_888_888_848_888;
    assert TruncDiv(4 * (ideal - 100_000_000_000), AMM_TO_QUOTE_PRECISION_RATIO) == whole;
    assert TruncDiv(whole, PEG_PRECISION) == cost;
    assert TruncDiv(0, 2) == 0 && TruncDiv(100, 19) == 5;
    hide TruncDiv;
  }

  lemma RatioForFarTarget(amm: AMM, cost: int)
    requires amm == AMM(11, 9, 10, 100_000_000_000, 8, 5, 0, 0, 0, 0)
    requires cost == 4_888_888_888_888_888_888_888_888_888_888_888_848
    ensures ScaleToMakeUp(amm, -cost) == Ratio(978, 1000)
  {
    assert TruncDiv(TruncDiv(7_200_000_000_000, AMM_RESERVE_PRECISION), PEG_PRECISION) == 0;
    assert TruncDiv(cost * 19, QUOTE_PRECISION) == 92_888_888_888_888_888_888_888_888_888_888;
    assert TruncDiv(cost * 11 * 19, AMM_RESERVE_PRECISION) == 102_177_777_777_777_777_777_777_777;
    assert TruncDiv(102_177_777_777_777_777_777_777_777, QUOTE_PRECISION) == 102_177_777_777_777_777_777;
    assert TruncDiv(57_600_000_000_000, AMM_RESERVE_PRECISION) == 5 && TruncDiv(5, AMM_RESERVE_PRECISION) == 0;
    assert TruncDiv(0, PEG_PRECISION) == 0;
    assert TruncDiv(8 * (0 - 92_888_888_888_888_888_888_888_888_888_888), AMM_RESERVE_PRECISION)
        == -74_311_111_111_111_111_111;
    assert TruncDiv(-74_311_111_111_111_111_111, AMM_RESERVE_PRECISION) == -7_431_111;
    assert TruncDiv(-7_431_111, AMM_TO_QUOTE_PRECISION_RATIO) == 0;
    assert TruncDiv(102_177_777_777_777_777_777, AMM_RESERVE_PRECISION) == 10_217_777;
    assert TruncDiv(10_217_777, AMM_TO_QUOTE_PRECISION_RATIO) == 1;
    hide TruncDiv;
    assert CalculateBudgetedK(amm, -cost) == Ratio(0, 1);
  }

  lemma SmallestRatioCostsOne(amm: AMM)
    requires amm == AMM(11, 9, 10, 100_000_000_000, 8, 5, 0, 0, 0, 0)
    ensures CalculateAdjustKCost(amm, Ratio(978, 1000)) == Done(1)
  {
    assert TruncDiv(978 * MARK_PRICE_PRECISION, 1000) == 9_780_000_000;
    assert TruncDiv(7_200_000_000_000, 19) == 378_947_368_421;
    assert TruncDiv(7_200_000_000_000 * 9_780_000_000, MARK_PRICE_PRECISION) == 7_041_600_000_000;
    assert TruncDiv(11 * 9_780_000_000, MARK_PRICE_PRECISION) == 10;
    assert TruncDiv(7_041_600_000_000, 18) == 391_200_000_000;
    assert TruncDiv(-12_252_631_579, AMM_TO_QUOTE_PRECISION_RATIO) == -1_225;
    assert TruncDiv(-1_225, PEG_PRECISION) == -1;
    hide TruncDiv;
  }

  // ------------------------------------------------------- the pegs aimed at

  /** The price at a peg, as one floor. */
  lemma PriceAtPeg(base: nat, quote: nat, peg: nat)
    requires 0 < base
    ensures 0 <= quote * peg
    ensures CalculatePrice(base, quote, peg) == quote * peg * 10_000_000 / base
  {
    MulNonNegative(quote, peg);
    MulNonNegative(quote * MARK_PRICE_PRECISION, peg);
    var top := quote * MARK_PRICE_PRECISION * peg;
    assert top == quote * peg * 10_000_000 * PEG_PRECISION;
    TruncIsFloor(top, PEG_PRECISION);
    DivUnique(top, PEG_PRECISION, quote * peg * 10_000_000);
    TruncIsFloor(top / PEG_PRECISION, base);
  }

  /** Pegs up to `peg` price at most at the target, and from the next one on at least. */
  lemma PriceAround(base: nat, quote: nat, peg: nat, target: nat)
    requires 0 < base
    ensures 0 <= quote * peg && 0 <= target * base
    ensures quote * peg * 10_000_000 <= target * base ==> CalculatePrice(base, quote, peg) <= target
    ensures target * base <= quote * peg * 10_000_000 ==> target <= CalculatePrice(base, quote, peg)
  {
    PriceAtPeg(base, quote, peg);
    MulNonNegative(target, base);
    if quote * peg * 10_000_000 <= target * base {
      assert (target + 1) * base == target * base + base;
      DivAtMost(quote * peg * 10_000_000, base, target);
    }
    if target * base <= quote * peg * 10_000_000 {
      DivAtLeast(quote * peg * 10_000_000, base, target);
    }
  }

  /** The target peg is the last at which the price is not above the target. */
  lemma TargetPegMeetsPrice(amm: AMM, targetPrice: nat)
    requires 0 < amm.baseAssetReserve && 0 < amm.quoteAssetReserve
    ensures TargetPeg(amm, targetPrice).Done? && 0 <= TargetPeg(amm, targetPrice).value
    ensures var peg := TargetPeg(amm, targetPrice).value;
            CalculatePrice(amm.baseAssetReserve, amm.quoteAssetReserve, peg) <= targetPrice
            <= CalculatePrice(amm.baseAssetReserve, amm.quoteAssetReserve, peg + 1)
  {
    hide TruncDiv, CalculatePrice;
    var x, y, unit := amm.baseAssetReserve, amm.quoteAssetReserve, 10_000_000;
    MulNonNegative(targetPrice, x);
    TruncIsFloor(targetPrice * x, y);
    TruncIsFloor(targetPrice * x / y, unit);
    DivDiv(targetPrice * x, y, unit);
    DivFloor(targetPrice * x, y * unit);
    var peg := TargetPeg(amm, targetPrice).value;
    assert peg * (y * unit) == y * peg * unit && (peg + 1) * (y * unit) == y * (peg + 1) * unit;
    PriceAround(x, y, peg, targetPrice);
    PriceAround(x, y, peg + 1, targetPrice);
  }

  /** The ideal peg is the nearest to the exact one, and its neighbours price on either
      side of the target. */
  lemma IdealPegIsNearest(amm: AMM, targetPrice: nat)
    requires 0 < amm.baseAssetReserve && 0 < amm.quoteAssetReserve
    ensures IdealPeg(amm, targetPrice).Done? && 0 <= IdealPeg(amm, targetPrice).value
    ensures var x, y, peg := amm.baseAssetReserve, amm.quoteAssetReserve, IdealPeg(amm, targetPrice).value;
            && y * (2 * peg - 1) * 10_000_000 <= 2 * (targetPrice * x) < y * (2 * peg + 1) * 10_000_000
            && (0 < peg ==> CalculatePrice(x, y, peg - 1) <= targetPrice)
            && targetPrice <= CalculatePrice(x, y, peg + 1)
  {
    hide TruncDiv, CalculatePrice;
    var x, y, unit := amm.baseAssetReserve, amm.quoteAssetReserve, 10_000_000;
    MulNonNegative(targetPrice, x);
    TruncIsFloor(targetPrice * x, y);
    var scaled := targetPrice * x / y;
    TruncIsFloor(scaled + unit / 2, unit);
    var peg := IdealPeg(amm, targetPrice).value;
    NearestByTwo(targetPrice * x, y, scaled, peg);
    PriceAround(x, y, peg + 1, targetPrice);
    if 0 < peg {
      PriceAround(x, y, peg - 1, targetPrice);
    }
  }

  lemma NearestByTwo(exact: nat, y: nat, scaled: nat, peg: nat)
    requires 0 < y && scaled * y <= exact < (scaled + 1) * y
    requires peg * 10_000_000 <= scaled + 5_000_000 < (peg + 1) * 10_000_000
    ensures y * (2 * peg - 1) * 10_000_000 <= 2 * exact < y * (2 * peg + 1) * 10_000_000
    ensures y * (peg - 1) * 10_000_000 <= exact <= y * (peg + 1) * 10_000_000
  {
    MulMono((2 * peg - 1) * 5_000_000, scaled, y);
    MulMono(scaled + 1, (2 * peg + 1) * 5_000_000, y);
    assert y * (2 * peg - 1) * 10_000_000 == 2 * (y * ((2 * peg - 1) * 5_000_000));
    assert y * (2 * peg + 1) * 10_000_000 == 2 * (y * ((2 * peg + 1) * 5_000_000));
    assert y * (peg - 1) * 10_000_000 == y * (2 * peg - 1) * 5_000_000 - y * 5_000_000;
    assert y * (peg + 1) * 10_000_000 == y * (2 * peg + 1) * 5_000_000 + y * 5_000_000;
  }

  /** Re-pegging costs the change of the peg on the inventory's quote, as one truncation. */
  lemma RepegCostInNumbers(amm: AMM, newPeg: int)
    ensures CalculateRepegCost(amm, newPeg)
            == TruncDiv((amm.quoteAssetReserve - amm.terminalQuoteAssetReserve) * (newPeg - amm.pegMultiplier),
                        10_000_000_000)
  {
    hide TruncDiv;
    TruncTrunc((amm.quoteAssetReserve - amm.terminalQuoteAssetReserve) * (newPeg - amm.pegMultiplier),
               AMM_TO_QUOTE_PRECISION_RATIO, PEG_PRECISION);
  }

  // ------------------------------------------------------- the ratio for a cost

  /** The ratio that rescales the curve at a given cost, without any rounding. */
  function ExactNumerator(amm: AMM, cost: int): int {
    var d := amm.netBaseAssetAmount;
    d * (amm.quoteAssetReserve * d * amm.pegMultiplier + 10_000_000_000 * cost * Divisor(amm))
  }

  function ExactDenominator(amm: AMM, cost: int): int {
    var x, d := amm.baseAssetReserve, amm.netBaseAssetAmount;
    amm.quoteAssetReserve * d * amm.pegMultiplier * d - 10_000_000_000 * cost * x * Divisor(amm)
  }

  /** The exact ratio solves for the cost: what the position is worth before less what it
      is worth after, both over the same divisors, is minus the cost. */
  lemma ExactRatioSolves(amm: AMM, cost: int)
    ensures var x, d, n, m :=
        amm.baseAssetReserve, amm.netBaseAssetAmount, ExactNumerator(amm, cost), ExactDenominator(amm, cost);
            var worth, divisor := amm.quoteAssetReserve * d * amm.pegMultiplier, x * n + d * m;
            worth * divisor - worth * n * Divisor(amm) == -(10_000_000_000 * cost) * (Divisor(amm) * divisor)
  {
    RatioSolves(amm.quoteAssetReserve * amm.netBaseAssetAmount * amm.pegMultiplier, -(10_000_000_000 * cost),
                amm.baseAssetReserve, amm.netBaseAssetAmount);
  }

  lemma RatioSolves(a: int, e: int, x: int, d: int)
    ensures var s := x + d;
            var n, m := d * (a - e * s), e * x * s + a * d;
            && x * n + d * m == a * d * s
            && m - n == e * s * s
            && a * (x * n + d * m) - a * n * s == e * (s * (x * n + d * m))
  {
    var s := x + d;
    var es, n, m := e * s, d * (a - e * s), e * x * s + a * d;
    Reordered(e, x, s);
    assert n == a * d - es * d;
    SolvedDivisor(a, es, x, d);
    SolvedWorth(a, d, x, n, m, es, x * n + d * m);
    Reordered(e, x * n + d * m, s);
    assert m - n == es * x + es * d;
    assert es * x + es * d == es * s;
  }

  lemma Reordered(e: int, x: int, s: int)
    ensures e * x * s == (e * s) * x && e * (s * x) == (e * s) * x
  {
  }

  lemma SolvedDivisor(a: int, es: int, x: int, d: int)
    ensures x * (a * d - es * d) + d * (es * x + a * d) == a * d * (x + d)
  {
    Reordered(es, x, d);
    assert x * (a * d - es * d) == (a * d) * x - (es * d) * x;
    assert d * (es * x + a * d) == (es * x) * d + (a * d) * d;
    assert a * d * (x + d) == (a * d) * x + (a * d) * d;
  }

  lemma SolvedWorth(a: int, d: int, x: int, n: int, m: int, es: int, divisor: int)
    requires divisor == x * n + d * m && divisor == a * d * (x + d) && m - n == es * x + es * d
    ensures a * divisor - a * n * (x + d) == es * divisor
  {
    var s := x + d;
    assert n * s == n * x + n * d;
    assert d * (m - n) == d * m - d * n;
    assert divisor - n * s == d * (m - n);
    assert m - n == es * s;
    TimesDifference(a, divisor, n, s);
    assert a * (d * (es * s)) == (a * d * s) * es by {
      Reordered(a * d, es, s);
      assert a * (d * (es * s)) == (a * d) * (es * s);
    }
  }

  lemma TimesDifference(a: int, divisor: int, n: int, s: int)
    ensures a * divisor - a * n * s == a * (divisor - n * s)
  {
    assert a * n * s == a * (n * s);
  }

  /** The ratio computed differs from that by the truncations alone. */
  lemma BudgetedKNearExact(amm: AMM, cost: int)
    ensures var k, unit := CalculateBudgetedK(amm, cost), Pow10(49);
            && Abs(k.numerator * unit - ExactNumerator(amm, cost))
               < unit + 2 * Abs(amm.netBaseAssetAmount) * Pow10(16) + 1
            && Abs(k.denominator * unit - ExactDenominator(amm, cost)) < unit + 2 * Pow10(29)
  {
    NumeratorNearExact(amm, cost);
    DenominatorNearExact(amm, cost);
  }

  lemma NumeratorNearExact(amm: AMM, cost: int)
    ensures Abs(CalculateBudgetedK(amm, cost).numerator * Pow10(49) - ExactNumerator(amm, cost))
            < Pow10(49) + 2 * Abs(amm.netBaseAssetAmount) * Pow10(16) + 1
  {
    var x, y, d, peg, c :=
        amm.baseAssetReserve, amm.quoteAssetReserve, amm.netBaseAssetAmount, amm.pegMultiplier, -cost;
    hide TruncDiv, Pow10;
    ExactNumeratorIs(amm, cost);
    hide ExactNumerator;
    NumeratorOfParts(y * d * peg, c * (x + d), d);
  }

  lemma NumeratorOfParts(a: int, b: int, d: int)
    ensures var numer1 := TruncDiv(TruncDiv(a, AMM_RESERVE_PRECISION), PEG_PRECISION);
            var numer2 := TruncDiv(b, QUOTE_PRECISION);
            var product := d * (numer1 - numer2);
            var numerator := TruncDiv(TruncDiv(TruncDiv(product, AMM_RESERVE_PRECISION), AMM_RESERVE_PRECISION),
                                      AMM_TO_QUOTE_PRECISION_RATIO);
            Abs(numerator * Pow10(49) - d * (a - 10_000_000_000 * b)) < Pow10(49) + 2 * Abs(d) * Pow10(16) + 1
  {
    hide TruncDiv, Pow10;
    var numer1 := TruncDiv(TruncDiv(a, AMM_RESERVE_PRECISION), PEG_PRECISION);
    var numer2 := TruncDiv(b, QUOTE_PRECISION);
    var product := d * (numer1 - numer2);
    NumeratorParts(a, b, product);
    NumeratorError(d, a, b, numer1, numer2,
                   TruncDiv(TruncDiv(TruncDiv(product, AMM_RESERVE_PRECISION), AMM_RESERVE_PRECISION),
                            AMM_TO_QUOTE_PRECISION_RATIO));
  }

  lemma ExactNumeratorIs(amm: AMM, cost: int)
    ensures var d := amm.netBaseAssetAmount;
            ExactNumerator(amm, cost)
            == d * (amm.quoteAssetReserve * d * amm.pegMultiplier
                    - 10_000_000_000 * (-cost * (amm.baseAssetReserve + d)))
  {
    NegatedTerms(-cost, amm.baseAssetReserve, Divisor(amm));
  }

  lemma ExactDenominatorIs(amm: AMM, cost: int)
    ensures var x, d, c := amm.baseAssetReserve, amm.netBaseAssetAmount, -cost;
            ExactDenominator(amm, cost)
            == 10_000_000_000 * (c * x * (x + d)) + amm.quoteAssetReserve * d * d * amm.pegMultiplier
  {
    Reordered(amm.quoteAssetReserve * amm.netBaseAssetAmount, amm.netBaseAssetAmount, amm.pegMultiplier);
    Swapped(amm.quoteAssetReserve * amm.netBaseAssetAmount, amm.netBaseAssetAmount, amm.pegMultiplier);
    NegatedTerms(-cost, amm.baseAssetReserve, Divisor(amm));
  }

  lemma Swapped(a: int, b: int, c: int)
    ensures a * b * c == a * c * b
  {
  }

  lemma DenominatorNearExact(amm: AMM, cost: int)
    ensures Abs(CalculateBudgetedK(amm, cost).denominator * Pow10(49) - ExactDenominator(amm, cost))
            < Pow10(49) + 2 * Pow10(29)
  {
    var x, y, d, peg, c :=
        amm.baseAssetReserve, amm.quoteAssetReserve, amm.netBaseAssetAmount, amm.pegMultiplier, -cost;
    hide TruncDiv, Pow10;
    ExactDenominatorIs(amm, cost);
    hide ExactDenominator;
    DenominatorError(c * x * (x + d), y * d * d * peg);
  }

  lemma NegatedTerms(c: int, x: int, s: int)
    ensures 10_000_000_000 * (-c) * s == -(10_000_000_000 * (c * s))
    ensures 10_000_000_000 * (-c) * x * s == -(10_000_000_000 * (c * x * s))
  {
    var e := 10_000_000_000 * (-c);
    assert e * s == -(10_000_000_000 * (c * s));
    assert e * x == -(10_000_000_000 * (c * x));
    assert e * x * s == -(10_000_000_000 * ((c * x) * s));
  }

  lemma NumeratorParts(a: int, b: int, product: int)
    ensures Abs(TruncDiv(TruncDiv(a, AMM_RESERVE_PRECISION), PEG_PRECISION) * Pow10(16) - a) < Pow10(16)
    ensures Abs(TruncDiv(b, QUOTE_PRECISION) * 1_000_000 - b) < 1_000_000
    ensures Abs(TruncDiv(TruncDiv(TruncDiv(product, AMM_RESERVE_PRECISION), AMM_RESERVE_PRECISION),
                         AMM_TO_QUOTE_PRECISION_RATIO) * Pow10(33) - product) < Pow10(33)
  {
    hide TruncDiv;
    LargePowers();
    TruncTrunc(a, AMM_RESERVE_PRECISION, PEG_PRECISION);
    TruncError(a, Pow10(16));
    TruncError(b, QUOTE_PRECISION);
    TruncThrice(product, AMM_RESERVE_PRECISION, AMM_RESERVE_PRECISION, AMM_TO_QUOTE_PRECISION_RATIO);
  }

  lemma DenominatorError(a: int, b: int)
    ensures var denom1 := TruncDiv(TruncDiv(a, AMM_RESERVE_PRECISION), QUOTE_PRECISION);
            var denom2 := TruncDiv(TruncDiv(TruncDiv(b, AMM_RESERVE_PRECISION), AMM_RESERVE_PRECISION), PEG_PRECISION);
            var denominator := TruncDiv(TruncDiv(denom1 + denom2, AMM_RESERVE_PRECISION), AMM_TO_QUOTE_PRECISION_RATIO);
            Abs(denominator * Pow10(49) - (10_000_000_000 * a + b)) < Pow10(49) + 2 * Pow10(29)
  {
    hide TruncDiv;
    LargePowers();
    hide Pow10;
    TruncTrunc(a, AMM_RESERVE_PRECISION, QUOTE_PRECISION);
    TruncError(a, Pow10(19));
    TruncThrice(b, AMM_RESERVE_PRECISION, AMM_RESERVE_PRECISION, PEG_PRECISION);
    var denom1 := TruncDiv(TruncDiv(a, AMM_RESERVE_PRECISION), QUOTE_PRECISION);
    var denom2 := TruncDiv(TruncDiv(TruncDiv(b, AMM_RESERVE_PRECISION), AMM_RESERVE_PRECISION), PEG_PRECISION);
    TruncTrunc(denom1 + denom2, AMM_RESERVE_PRECISION, AMM_TO_QUOTE_PRECISION_RATIO);
    TruncError(denom1 + denom2, Pow10(20));
  }

  lemma LargePowers()
    ensures Pow10(16) == 10_000_000_000_000_000 && Pow10(19) == 10_000_000_000_000_000_000
    ensures Pow10(20) == 100_000_000_000_000_000_000 && Pow10(29) == 100_000_000_000_000_000_000_000_000_000
    ensures Pow10(33) == 1_000_000_000_000_000_000_000_000_000_000_000
    ensures Pow10(49) == 10_000_000_000_000_000_000_000_000_000_000_000_000_000_000_000_000
  {
    Pow10Values();
    Pow10Add(3, 16);
    Pow10Add(10, 10);
    Pow10Add(10, 19);
    Pow10Add(3, 3);
    Pow10Add(6, 3);
    Pow10Add(10, 10);
    Pow10Add(3, 30);
    Pow10Add(10, 20);
    Pow10Add(16, 33);
  }

  lemma TruncError(a: int, b: int)
    requires 0 < b
    ensures Abs(TruncDiv(a, b) * b - a) < b
  {
    hide TruncDiv;
    TruncIsFloor(Abs(a), b);
    TruncOfNegative(Abs(a), b);
    NegatedProduct(TruncDiv(Abs(a), b), b);
  }

  lemma TruncThrice(a: int, b: int, c: int, e: int)
    requires 0 < b && 0 < c && 0 < e
    ensures 0 < b * c * e
    ensures TruncDiv(TruncDiv(TruncDiv(a, b), c), e) == TruncDiv(a, b * c * e)
    ensures Abs(TruncDiv(TruncDiv(TruncDiv(a, b), c), e) * (b * c * e) - a) < b * c * e
  {
    hide TruncDiv;
    TruncTrunc(a, b, c);
    TruncTrunc(a, b * c, e);
    TruncError(a, b * c * e);
  }

  lemma NumeratorError(d: int, a: int, b: int, numer1: int, numer2: int, numerator: int)
    requires Abs(numer1 * Pow10(16) - a) < Pow10(16) && Abs(numer2 * 1_000_000 - b) < 1_000_000
    requires Abs(numerator * Pow10(33) - d * (numer1 - numer2)) < Pow10(33)
    ensures Abs(numerator * Pow10(49) - d * (a - 10_000_000_000 * b)) < Pow10(49) + 2 * Abs(d) * Pow10(16) + 1
  {
    LargePowers();
    hide Pow10;
    var r, difference := Pow10(16), numer1 - numer2;
    var error := difference * r - (a - 10_000_000_000 * b);
    assert Abs(error) <= 2 * r;
    ScaledError(d, error, 2 * r);
    Distributed(d, difference, r, a - 10_000_000_000 * b);
  }

  lemma Distributed(d: int, difference: int, r: int, exact: int)
    ensures d * (difference * r - exact) == (d * difference) * r - d * exact
  {
    assert d * (difference * r) == (d * difference) * r;
  }

  lemma ScaledError(d: int, error: int, bound: nat)
    requires Abs(error) <= bound
    ensures Abs(d * error) <= Abs(d) * bound
  {
    assert Abs(d * error) == Abs(d) * Abs(error);
    MulMono(Abs(error), bound, Abs(d));
  }

  // ------------------------------------------------------- the pre-trade repeg, step by step

  /** The ratio scaled by is the budgeted one wherever that is at least 978/1000, as a
      comparison of products, and that otherwise. */
  lemma RatioNotBelow(amm: AMM, deficit: int)
    ensures var k, scaled := CalculateBudgetedK(amm, deficit), ScaleToMakeUp(amm, deficit);
            && scaled.numerator * 1_000 >= scaled.denominator * 978
            && (k.numerator * 1_000 >= k.denominator * 978 ==> scaled == k)
            && (k.numerator * 1_000 < k.denominator * 978 ==> scaled == Ratio(978, 1_000))
  {
    hide CalculateBudgetedK;
  }

  /** Rescaling scales base reserve and root of the invariant by the ratio, gives the
      quote reserve of the new curve, and leaves peg, inventory and fees. */
  lemma RescaledInNumbers(amm: AMM, k: Ratio)
    requires Rescaled(amm, k).Done?
    ensures k.denominator != 0
    ensures var scaled := Rescaled(amm, k).value;
            && scaled.baseAssetReserve == TruncDiv(amm.baseAssetReserve * k.numerator, k.denominator)
            && scaled.sqrtK == TruncDiv(amm.sqrtK * k.numerator, k.denominator)
            && scaled.baseAssetReserve != 0
            && scaled.quoteAssetReserve == TruncDiv(scaled.sqrtK * scaled.sqrtK, scaled.baseAssetReserve)
            && Divisor(scaled) != 0
            && scaled.terminalQuoteAssetReserve == TruncDiv(scaled.sqrtK * scaled.sqrtK, Divisor(scaled))
            && scaled.netBaseAssetAmount == amm.netBaseAssetAmount && scaled.pegMultiplier == amm.pegMultiplier
            && scaled.totalFee == amm.totalFee && scaled.totalFeeMinusDistributions == amm.totalFeeMinusDistributions
  {
    hide TruncDiv;
  }

  /** A repeg the budget covers goes to the ideal peg on the curve as it is; another
      throws if the ratio costs, and otherwise spends the budget and what the ratio made
      up on the rescaled curve. */
  lemma PrepegOutcome(amm: AMM, targetPrice: int, ideal: int)
    requires IdealPeg(amm, targetPrice) == Done(ideal)
    ensures var idealCost, prepeg := CalculateRepegCost(amm, ideal), CalculatePrepeg(amm, targetPrice);
            if idealCost <= Budget(amm) then prepeg == Done(Prepeg(idealCost, Ratio(1, 1), ideal))
            else
              var k := ScaleToMakeUp(amm, Budget(amm) - idealCost);
              var ratioCost, rescaled := CalculateAdjustKCost(amm, k), Rescaled(amm, k);
              if ratioCost.Throws? || ratioCost.value > 0 || rescaled.Throws? then prepeg == Throws
              else
                match CalculateBudgetedPeg(rescaled.value, Budget(amm) - ratioCost.value, targetPrice)
                case Throws => prepeg == Throws
                case Done(peg) => prepeg == Done(Prepeg(CalculateRepegCost(rescaled.value, peg), k, peg))
  {
    hide IdealPeg, CalculateRepegCost, CalculateAdjustKCost, ScaleToMakeUp, Rescaled, CalculateBudgetedPeg, Budget;
  }

  /** Without intensity the AMM stays as it is; otherwise it takes the ratio and the peg
      of the repeg, and its cost comes off the fees. */
  lemma PrepegAmmOutcome(amm: AMM, targetPrice: int)
    ensures var prepeg, result := CalculatePrepeg(amm, targetPrice), CalculatePrepegAMM(amm, targetPrice);
            && (amm.curveUpdateIntensity == 0 ==> result == Done(amm))
            && (amm.curveUpdateIntensity != 0 ==>
                  && (result.Done? <==> prepeg.Done? && Rescaled(amm, prepeg.value.k).Done?)
                  && (result.Done? ==>
                        var scaled, amm' := Rescaled(amm, prepeg.value.k).value, result.value;
                        && amm'.pegMultiplier == prepeg.value.newPeg
                        && amm'.totalFeeMinusDistributions == amm.totalFeeMinusDistributions - prepeg.value.cost
                        && amm'.baseAssetReserve == scaled.baseAssetReserve
                        && amm'.quoteAssetReserve == scaled.quoteAssetReserve
                        && amm'.sqrtK == scaled.sqrtK
                        && amm'.terminalQuoteAssetReserve == scaled.terminalQuoteAssetReserve))
  {
    hide CalculatePrepeg, TruncDiv;
    var prepeg := CalculatePrepeg(amm, targetPrice);
    if prepeg.Done? && Rescaled(amm, prepeg.value.k).Done? {
      RescaledInNumbers(amm, prepeg.value.k);
    }
    hide Rescaled;
  }

  /** The budget is what the protocol keeps of its fees beyond half of them all. */
  lemma BudgetInNumbers(amm: AMM)
    requires 0 <= amm.totalFee
    ensures Budget(amm) == if amm.totalFeeMinusDistributions < amm.totalFee / 2 then 0
                           else amm.totalFeeMinusDistributions - amm.totalFee / 2
  {
    TruncIsFloor(amm.totalFee, 2);
  }
}
