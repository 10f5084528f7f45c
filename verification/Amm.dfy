/** The constant-product curve of the virtual AMM (sdk/src/math/amm.ts,
    market.ts, position.ts). */
module Amm {
  import opened Arithmetic
  import opened Bn

  const MARK_PRICE_PRECISION := 10_000_000_000
  const PEG_PRECISION := 1_000
  const AMM_TO_QUOTE_PRECISION_RATIO := 10_000_000
  const AMM_TIMES_PEG_TO_QUOTE_PRECISION_RATIO := 10_000_000_000

  datatype PositionDirection = Long | Short
  datatype SwapDirection = Add | Remove
  datatype AssetType = Quote | Base

  datatype AMM = AMM(
    baseAssetReserve: int,
    quoteAssetReserve: int,
    sqrtK: int,
    pegMultiplier: int,
    netBaseAssetAmount: int,
    terminalQuoteAssetReserve: int,
    totalFee: int,
    totalFeeMinusDistributions: int,
    minimumBaseAssetTradeSize: int,
    curveUpdateIntensity: int
  ) {
    function Invariant(): int {
      sqrtK * sqrtK
    }

    /** The quote reserve is the one the curve gives for the base reserve. */
    predicate OnCurve() {
      && 0 < baseAssetReserve && 0 <= pegMultiplier
      && quoteAssetReserve == Invariant() / baseAssetReserve
    }
  }

  function CalculateSwapOutput(inputReserve: int, swapAmount: int, direction: SwapDirection, k: int)
      : Attempt<(int, int)> {
    var newInput := if direction == Add then inputReserve + swapAmount else inputReserve - swapAmount;
    var newOutput :- Div(k, newInput);
    Done((newInput, newOutput))
  }

  /** New quote and base reserves. */
  function CalculateAmmReservesAfterSwap(amm: AMM, input: AssetType, swapAmount: int, direction: SwapDirection)
      : Attempt<(int, int)> {
    var _ :- Assert(swapAmount >= 0);
    if input == Quote then
      var scaled :- Div(swapAmount * AMM_TIMES_PEG_TO_QUOTE_PRECISION_RATIO, amm.pegMultiplier);
      CalculateSwapOutput(amm.quoteAssetReserve, scaled, direction, amm.Invariant())
    else
      var (newBase, newQuote) :- CalculateSwapOutput(amm.baseAssetReserve, swapAmount, direction, amm.Invariant());
      Done((newQuote, newBase))
  }

  function GetSwapDirection(input: AssetType, direction: PositionDirection): SwapDirection {
    if direction == Long && input == Base then Remove
    else if direction == Short && input == Quote then Remove
    else Add
  }

  function CalculatePrice(base: int, quote: int, peg: int): int {
    if base == 0 then 0
    else TruncDiv(TruncDiv(quote * MARK_PRICE_PRECISION * peg, PEG_PRECISION), base)
  }

  function CalculateQuoteAssetAmountSwapped(quoteReserves: int, peg: int, direction: SwapDirection): int {
    var amount := TruncDiv(quoteReserves * peg, AMM_TIMES_PEG_TO_QUOTE_PRECISION_RATIO);
    if direction == Remove then amount + 1 else amount
  }

  function CalculateNewMarketAfterTrade(baseAssetAmount: int, direction: PositionDirection, amm: AMM): Attempt<AMM> {
    var (newQuote, newBase) :-
        CalculateAmmReservesAfterSwap(amm, Base, Abs(baseAssetAmount), GetSwapDirection(Base, direction));
    Done(amm.(quoteAssetReserve := newQuote, baseAssetReserve := newBase))
  }

  function FindDirectionToClose(baseAssetAmount: int): PositionDirection {
    if baseAssetAmount > 0 then Short else Long
  }

  function PositionCurrentDirection(baseAssetAmount: int): PositionDirection {
    if baseAssetAmount >= 0 then Long else Short
  }

  /** What closing a position is worth on the given curve (position.ts:31-79,
      after the pre-trade curve has been chosen). */
  function CalculateBaseAssetValue(amm: AMM, baseAssetAmount: int): Attempt<int> {
    if baseAssetAmount == 0 then Done(0)
    else
      var direction := FindDirectionToClose(baseAssetAmount);
      var (newQuote, _) :-
          CalculateAmmReservesAfterSwap(amm, Base, Abs(baseAssetAmount), GetSwapDirection(Base, direction));
      if direction == Short then
        Done(TruncDiv((amm.quoteAssetReserve - newQuote) * amm.pegMultiplier, AMM_TIMES_PEG_TO_QUOTE_PRECISION_RATIO))
      else
        var paid := (newQuote - amm.quoteAssetReserve) * amm.pegMultiplier;
        Done(TruncDiv(paid, AMM_TIMES_PEG_TO_QUOTE_PRECISION_RATIO) + 1)
  }

  /** The base reserve moves opposite to the trader. */
  function BaseDelta(amount: int, direction: PositionDirection): int {
    if direction == Long then -(Abs(amount) as int) else Abs(amount)
  }

  /** A long is closed by selling and a short by buying; without a position, buying. */
  lemma Directions(baseAssetAmount: int)
    ensures FindDirectionToClose(baseAssetAmount) == Short <==> 0 < baseAssetAmount
    ensures PositionCurrentDirection(baseAssetAmount) == Short <==> baseAssetAmount < 0
  {
  }

  /** The cases that need no curve: no position is worth nothing, nothing has a price
      without base, and a negative amount throws. */
  lemma WithoutCurve(amm: AMM, input: AssetType, swapAmount: int, direction: SwapDirection)
    ensures CalculateBaseAssetValue(amm, 0) == Done(0)
    ensures CalculatePrice(0, amm.quoteAssetReserve, amm.pegMultiplier) == 0
    ensures swapAmount < 0 ==> CalculateAmmReservesAfterSwap(amm, input, swapAmount, direction) == Throws
  {
  }

  lemma CurveMonotone(k: nat, x: nat, x': nat)
    requires 0 < x <= x'
    ensures k / x' <= k / x
  {
    DivFloor(k, x');
    MulMono(x, x', k / x');
    DivAtLeast(k, x, k / x');
  }

  /** A trade moves along the curve: the base reserve by the amount, the quote
      reserve to the curve's value there, in the opposite direction. */
  lemma TradeMovesAlongCurve(amm: AMM, amount: int, direction: PositionDirection)
    requires amm.OnCurve()
    requires amm.baseAssetReserve + BaseDelta(amount, direction) > 0
    ensures CalculateNewMarketAfterTrade(amount, direction, amm).Done?
    ensures var amm' := CalculateNewMarketAfterTrade(amount, direction, amm).value;
            && amm'.baseAssetReserve == amm.baseAssetReserve + BaseDelta(amount, direction)
            && amm'.OnCurve()
            && amm' == amm.(quoteAssetReserve := amm'.quoteAssetReserve, baseAssetReserve := amm'.baseAssetReserve)
            && (direction == Long ==> amm.quoteAssetReserve <= amm'.quoteAssetReserve)
            && (direction == Short ==> amm'.quoteAssetReserve <= amm.quoteAssetReserve)
  {
    var k, x, x' := amm.Invariant(), amm.baseAssetReserve, amm.baseAssetReserve + BaseDelta(amount, direction);
    SquareNonNegative(amm.sqrtK);
    TruncIsFloor(k, x');
    if direction == Long {
      CurveMonotone(k, x', x);
    } else {
      CurveMonotone(k, x, x');
    }
  }
}
