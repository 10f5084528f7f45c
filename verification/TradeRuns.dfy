/** Sequences of trades against the curve: reserves depend on the net amount only,
    and no closed loop of trades is ever free money. */
module TradeRuns {
  import opened Arithmetic
  import opened Bn
  import opened Amm

  datatype Trade = Trade(amount: nat, direction: PositionDirection)

  function TradeAll(amm: AMM, trades: seq<Trade>): Attempt<AMM>
    decreases |trades|
  {
    if trades == [] then Done(amm)
    else
      var amm' :- CalculateNewMarketAfterTrade(trades[0].amount, trades[0].direction, amm);
      TradeAll(amm', trades[1..])
  }

  /** What the trader pays, net of what he receives, leg by leg. */
  function Bill(amm: AMM, trades: seq<Trade>): Attempt<int>
    decreases |trades|
  {
    if trades == [] then Done(0)
    else
      var amm' :- CalculateNewMarketAfterTrade(trades[0].amount, trades[0].direction, amm);
      var rest :- Bill(amm', trades[1..]);
      Done(LegPrice(amm, amm', trades[0].direction) + rest)
  }

  /** Positive when the trader pays: a long pays one unit more than the floor, a
      short receives the floor. */
  function LegPrice(before: AMM, after: AMM, direction: PositionDirection): int {
    var moved := Abs(after.quoteAssetReserve - before.quoteAssetReserve);
    var quote := CalculateQuoteAssetAmountSwapped(moved, before.pegMultiplier, GetSwapDirection(Base, direction));
    if direction == Long then quote else -quote
  }

  function NetDelta(trades: seq<Trade>): int {
    if trades == [] then 0 else BaseDelta(trades[0].amount, trades[0].direction) + NetDelta(trades[1..])
  }

  function Longs(trades: seq<Trade>): nat {
    if trades == [] then 0 else (if trades[0].direction == Long then 1 else 0) + Longs(trades[1..])
  }

  /** No trade asks for the whole base reserve or more. */
  predicate StaysPositive(base: int, trades: seq<Trade>)
    decreases |trades|
  {
    0 < base && (trades == [] || StaysPositive(base + BaseDelta(trades[0].amount, trades[0].direction), trades[1..]))
  }

  lemma LegBounds(amm: AMM, trade: Trade)
    requires amm.OnCurve() && 0 < amm.baseAssetReserve + BaseDelta(trade.amount, trade.direction)
    ensures CalculateNewMarketAfterTrade(trade.amount, trade.direction, amm).Done?
    ensures var r := AMM_TIMES_PEG_TO_QUOTE_PRECISION_RATIO;
            var amm' := CalculateNewMarketAfterTrade(trade.amount, trade.direction, amm).value;
            var price, moved := LegPrice(amm, amm', trade.direction), amm'.quoteAssetReserve - amm.quoteAssetReserve;
            && amm.pegMultiplier * moved + (if trade.direction == Long then 1 else 0) <= r * price
            && r * price <= amm.pegMultiplier * moved + r
  {
    TradeMovesAlongCurve(amm, trade.amount, trade.direction);
    var amm' := CalculateNewMarketAfterTrade(trade.amount, trade.direction, amm).value;
    var moved := amm'.quoteAssetReserve - amm.quoteAssetReserve;
    MulNonNegative(Abs(moved), amm.pegMultiplier);
    TruncIsFloor(Abs(moved) * amm.pegMultiplier, AMM_TIMES_PEG_TO_QUOTE_PRECISION_RATIO);
    assert amm.pegMultiplier * moved
           == if moved < 0 then -(Abs(moved) * amm.pegMultiplier) else Abs(moved) * amm.pegMultiplier;
  }

  /** Path independence and the price of a run, in one induction. */
  lemma {:induction false} RunBounds(amm: AMM, trades: seq<Trade>)
    requires amm.OnCurve() && StaysPositive(amm.baseAssetReserve, trades)
    ensures TradeAll(amm, trades).Done? && Bill(amm, trades).Done?
    ensures var amm', bill, r :=
        TradeAll(amm, trades).value, Bill(amm, trades).value, AMM_TIMES_PEG_TO_QUOTE_PRECISION_RATIO;
            && amm'.OnCurve()
            && amm'.baseAssetReserve == amm.baseAssetReserve + NetDelta(trades)
            && amm' == amm.(quoteAssetReserve := amm'.quoteAssetReserve, baseAssetReserve := amm'.baseAssetReserve)
            && amm.pegMultiplier * (amm'.quoteAssetReserve - amm.quoteAssetReserve) + Longs(trades) <= r * bill
            && r * bill <= amm.pegMultiplier * (amm'.quoteAssetReserve - amm.quoteAssetReserve) + r * |trades|
    decreases |trades|
  {
    if trades != [] {
      TradeMovesAlongCurve(amm, trades[0].amount, trades[0].direction);
      LegBounds(amm, trades[0]);
      var amm1 := CalculateNewMarketAfterTrade(trades[0].amount, trades[0].direction, amm).value;
      RunBounds(amm1, trades[1..]);
      var amm' := TradeAll(amm, trades).value;
      Telescope(amm.pegMultiplier, amm.quoteAssetReserve, amm1.quoteAssetReserve, amm'.quoteAssetReserve);
    }
  }

  lemma Telescope(peg: int, a: int, b: int, c: int)
    ensures peg * (b - a) + peg * (c - b) == peg * (c - a)
  {
  }

  /** Reserves depend only on the net base traded, whatever the route. */
  lemma ReservesDependOnNetBase(amm: AMM, route: seq<Trade>, route': seq<Trade>)
    requires amm.OnCurve()
    requires StaysPositive(amm.baseAssetReserve, route) && StaysPositive(amm.baseAssetReserve, route')
    requires NetDelta(route) == NetDelta(route')
    ensures TradeAll(amm, route).Done? && TradeAll(amm, route) == TradeAll(amm, route')
  {
    RunBounds(amm, route);
    RunBounds(amm, route');
  }

  /** A loop of trades ends where it started and is never free: it costs nothing
      at best, at least one unit if any leg was long, and at most one unit a leg. */
  lemma {:induction false} NoFreeLoop(amm: AMM, trades: seq<Trade>)
    requires amm.OnCurve() && StaysPositive(amm.baseAssetReserve, trades)
    requires NetDelta(trades) == 0
    ensures TradeAll(amm, trades) == Done(amm)
    ensures Bill(amm, trades).Done? && 0 <= Bill(amm, trades).value <= |trades|
    ensures Longs(trades) > 0 ==> 1 <= Bill(amm, trades).value
  {
    RunBounds(amm, trades);
    assert TradeAll(amm, trades).value.quoteAssetReserve == amm.quoteAssetReserve;
    assert amm.pegMultiplier * 0 == 0;
  }

  /** The value position.ts puts on an open position is what the closing leg
      brings in, or costs. */
  lemma ClosingValueIsLegPrice(amm: AMM, baseAssetAmount: int)
    requires amm.OnCurve() && baseAssetAmount != 0
    requires 0 < amm.baseAssetReserve + baseAssetAmount
    ensures var direction := FindDirectionToClose(baseAssetAmount);
            var after := CalculateNewMarketAfterTrade(baseAssetAmount, direction, amm);
            && after.Done?
            && CalculateBaseAssetValue(amm, baseAssetAmount)
               == Done(if direction == Long then LegPrice(amm, after.value, direction)
                       else -LegPrice(amm, after.value, direction))
  {
    TradeMovesAlongCurve(amm, baseAssetAmount, FindDirectionToClose(baseAssetAmount));
  }

  /** A swap sized in quote moves the quote reserve by no more than the quote asked
      for is worth at the peg, and by less than one reserve unit less than that. */
  lemma QuoteSwapIsWorthItsSize(amm: AMM, quote: nat, direction: PositionDirection)
    requires 0 < amm.pegMultiplier
    requires CalculateAmmReservesAfterSwap(amm, Quote, quote, GetSwapDirection(Quote, direction)).Done?
    ensures var r := AMM_TIMES_PEG_TO_QUOTE_PRECISION_RATIO;
            var (newQuote, newBase) :=
                CalculateAmmReservesAfterSwap(amm, Quote, quote, GetSwapDirection(Quote, direction)).value;
            var moved := if direction == Long then newQuote - amm.quoteAssetReserve
                         else amm.quoteAssetReserve - newQuote;
            && newQuote != 0 && newBase == TruncDiv(amm.Invariant(), newQuote)
            && moved * amm.pegMultiplier <= quote * r < (moved + 1) * amm.pegMultiplier
            && CalculateQuoteAssetAmountSwapped(moved, amm.pegMultiplier, Add) <= quote
  {
    var r := AMM_TIMES_PEG_TO_QUOTE_PRECISION_RATIO;
    TruncIsFloor(quote * r, amm.pegMultiplier);
    var moved := TruncDiv(quote * r, amm.pegMultiplier);
    MulNonNegative(moved, amm.pegMultiplier);
    TruncIsFloor(moved * amm.pegMultiplier, r);
    DivAtMost(moved * amm.pegMultiplier, r, quote);
  }
}
