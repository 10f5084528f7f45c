/** Whole runs of orders by one user against one market. */
module OrderRuns {
  import opened Arithmetic
  import opened Bn
  import opened Amm
  import opened Orders

  datatype Order = Order(amount: nat, direction: PositionDirection)

  /** The account after an order; an order below the minimum size changes nothing. */
  function After(account: Account, order: Order): Account {
    match CalculateNewStateAfterOrder(account, order.amount, order.direction)
    case Done(Some(account')) => account'
    case _ => account
  }

  predicate AllFit(account: Account, orders: seq<Order>)
    decreases |orders|
  {
    orders == []
    || (Fits(account, orders[0].amount, orders[0].direction) && AllFit(After(account, orders[0]), orders[1..]))
  }

  function RunOrders(account: Account, orders: seq<Order>): Account
    decreases |orders|
  {
    if orders == [] then account else RunOrders(After(account, orders[0]), orders[1..])
  }

  /** Swaps an order makes in a direction: in its own, none when it is too small and
      two when it reverses. */
  function LegsOf(account: Account, order: Order, direction: PositionDirection): nat {
    if order.direction != direction || order.amount < account.amm.minimumBaseAssetTradeSize then 0
    else if Reverses(account, order.amount, order.direction) then 2
    else 1
  }

  function Legs(account: Account, orders: seq<Order>, direction: PositionDirection): nat
    decreases |orders|
  {
    if orders == [] then 0
    else LegsOf(account, orders[0], direction) + Legs(After(account, orders[0]), orders[1..], direction)
  }

  // ------------------------------------------------------- reversals

  /** The quote of one leg is the floor of its exact price. */
  lemma SwappedQuote(before: AMM, after: AMM)
    requires 0 <= before.pegMultiplier
    ensures var moved := Abs(before.quoteAssetReserve - after.quoteAssetReserve);
            0 <= moved * before.pegMultiplier
            && CalculateAmountSwapped(before, after).quote
               == moved * before.pegMultiplier / AMM_TIMES_PEG_TO_QUOTE_PRECISION_RATIO
  {
    var exact := Abs(before.quoteAssetReserve - after.quoteAssetReserve) * before.pegMultiplier;
    MulNonNegative(Abs(before.quoteAssetReserve - after.quoteAssetReserve), before.pegMultiplier);
    TruncIsFloor(exact, PEG_PRECISION);
    TruncIsFloor(exact / PEG_PRECISION, AMM_TO_QUOTE_PRECISION_RATIO);
    DivDiv(exact, PEG_PRECISION, AMM_TO_QUOTE_PRECISION_RATIO);
  }

  /** Reversing a position in two legs reaches the reserves of a single swap of
      the whole amount, and its two quotes add up to the single one, or one less. */
  lemma ReversalMatchesSingleSwap(account: Account, amount: int, direction: PositionDirection)
    requires WellFormed(account) && Fits(account, amount, direction) && Reverses(account, amount, direction)
    ensures Reversed(account, amount, direction).Done? && Between(account).Done?
    ensures var after, between := Reversed(account, amount, direction).value.amm, Between(account).value;
            && CalculateNewMarketAfterTrade(amount, direction, account.amm) == Done(after)
            && var whole := CalculateAmountSwapped(account.amm, after).quote;
               var parts := CalculateAmountSwapped(account.amm, between).quote
                   + CalculateAmountSwapped(between, after).quote;
               parts <= whole <= parts + 1
  {
    hide CalculateAmountSwapped;
    ReversalAccounting(account, amount, direction);
    TradeMovesAlongCurve(account.amm, amount, direction);
    TradeMovesAlongCurve(account.amm, account.position.baseAssetAmount, direction);
    var after, between := Reversed(account, amount, direction).value.amm, Between(account).value;
    TradeMovesAlongCurve(between, amount - Abs(account.position.baseAssetAmount), direction);
    SwappedQuote(account.amm, after);
    SwappedQuote(account.amm, between);
    SwappedQuote(between, after);
    PartsOfWhole(account.amm.quoteAssetReserve, between.quoteAssetReserve, after.quoteAssetReserve,
                 account.amm.pegMultiplier);
  }

  lemma PartsOfWhole(y: int, y1: int, y2: int, peg: nat)
    requires y <= y1 <= y2 || y2 <= y1 <= y
    ensures var r := AMM_TIMES_PEG_TO_QUOTE_PRECISION_RATIO;
            && 0 <= Abs(y - y1) * peg && 0 <= Abs(y1 - y2) * peg && 0 <= Abs(y - y2) * peg
            && var parts := Abs(y - y1) * peg / r + Abs(y1 - y2) * peg / r;
               parts <= Abs(y - y2) * peg / r <= parts + 1
  {
    MulNonNegative(Abs(y - y1), peg);
    MulNonNegative(Abs(y1 - y2), peg);
    assert Abs(y - y2) == Abs(y - y1) + Abs(y1 - y2);
    assert Abs(y - y2) * peg == Abs(y - y1) * peg + Abs(y1 - y2) * peg;
    FloorOfSum(Abs(y - y1) * peg, Abs(y1 - y2) * peg, AMM_TIMES_PEG_TO_QUOTE_PRECISION_RATIO);
  }

  // ------------------------------------------------------- cash against the curve

  /** `cash` received while the quote reserve went from `y` to `y'`: a long pays a
      floor and a short receives one, so longs can only add and shorts only take. */
  predicate Priced(peg: int, y: int, y': int, cash: int, longs: nat, shorts: nat) {
    var r := AMM_TIMES_PEG_TO_QUOTE_PRECISION_RATIO;
    peg * (y - y') - shorts * (r - 1) <= r * cash <= peg * (y - y') + longs * (r - 1)
  }

  lemma PricedTogether(peg: int, y: int, y1: int, y2: int, cash: int, cash': int,
                       longs: nat, shorts: nat, longs': nat, shorts': nat)
    requires Priced(peg, y, y1, cash, longs, shorts) && Priced(peg, y1, y2, cash', longs', shorts')
    ensures Priced(peg, y, y2, cash + cash', longs + longs', shorts + shorts')
  {
    assert peg * (y - y1) + peg * (y1 - y2) == peg * (y - y2);
  }

  function One(direction: PositionDirection, wanted: PositionDirection): nat {
    if direction == wanted then 1 else 0
  }

  lemma LegPriced(before: AMM, amount: int, direction: PositionDirection)
    requires before.OnCurve() && 0 < before.baseAssetReserve + BaseDelta(amount, direction)
    ensures CalculateNewMarketAfterTrade(amount, direction, before).Done?
    ensures var after := CalculateNewMarketAfterTrade(amount, direction, before).value;
            Priced(before.pegMultiplier, before.quoteAssetReserve, after.quoteAssetReserve,
                   Received(before, after, direction), One(direction, Long), One(direction, Short))
  {
    TradeMovesAlongCurve(before, amount, direction);
    var after := CalculateNewMarketAfterTrade(amount, direction, before).value;
    var y, y', peg := before.quoteAssetReserve, after.quoteAssetReserve, before.pegMultiplier;
    SwappedQuote(before, after);
    DivFloor(Abs(y - y') * peg, AMM_TIMES_PEG_TO_QUOTE_PRECISION_RATIO);
    assert peg * (y - y') == if direction == Long then -(Abs(y - y') * peg) else Abs(y - y') * peg;
  }

  lemma OrderPriced(account: Account, order: Order)
    requires WellFormed(account) && Fits(account, order.amount, order.direction)
    ensures var account' := After(account, order);
            && WellFormed(account')
            && account'.amm.pegMultiplier == account.amm.pegMultiplier
            && account'.amm.sqrtK == account.amm.sqrtK
            && account'.amm.baseAssetReserve + account'.position.baseAssetAmount
               == account.amm.baseAssetReserve + account.position.baseAssetAmount
            && Priced(account.amm.pegMultiplier, account.amm.quoteAssetReserve, account'.amm.quoteAssetReserve,
                      Cash(account') - Cash(account), LegsOf(account, order, Long), LegsOf(account, order, Short))
  {
    hide Priced;
    NoLegs(account);
    var amount, direction := order.amount, order.direction;
    OrderAccounting(account, amount, direction);
    TradeMovesAlongCurve(account.amm, amount, direction);
    if amount < account.amm.minimumBaseAssetTradeSize {
    } else if Reverses(account, amount, direction) {
      ReversalAccounting(account, amount, direction);
      var between := Between(account).value;
      var base := account.position.baseAssetAmount;
      LegPriced(account.amm, base, direction);
      LegPriced(between, amount - Abs(base), direction);
      var after := After(account, order).amm;
      TradeMovesAlongCurve(account.amm, base, direction);
      TradeMovesAlongCurve(between, amount - Abs(base), direction);
      var long, short := One(direction, Long), One(direction, Short);
      PricedTogether(account.amm.pegMultiplier, account.amm.quoteAssetReserve, between.quoteAssetReserve,
                     after.quoteAssetReserve, Received(account.amm, between, direction),
                     Received(between, after, direction), long, short, long, short);
    } else {
      LegPriced(account.amm, amount, direction);
    }
  }

  /** Over a run: base is conserved between market and position, and the cash
      tracks the quote reserve, above it by less than one unit a long leg and below it
      by less than one unit a short leg. */
  lemma {:induction false} RunAccounting(account: Account, orders: seq<Order>)
    requires WellFormed(account) && AllFit(account, orders)
    ensures var account' := RunOrders(account, orders);
            && WellFormed(account')
            && account'.amm.pegMultiplier == account.amm.pegMultiplier
            && account'.amm.sqrtK == account.amm.sqrtK
            && account'.amm.baseAssetReserve + account'.position.baseAssetAmount
               == account.amm.baseAssetReserve + account.position.baseAssetAmount
            && Priced(account.amm.pegMultiplier, account.amm.quoteAssetReserve, account'.amm.quoteAssetReserve,
                      Cash(account') - Cash(account), Legs(account, orders, Long), Legs(account, orders, Short))
    decreases |orders|
  {
    hide Fits, WellFormed, After, LegsOf, Cash, Priced;
    if orders == [] {
      NoLegs(account);
    } else {
      var account1, account' := After(account, orders[0]), RunOrders(account, orders);
      OrderPriced(account, orders[0]);
      RunAccounting(account1, orders[1..]);
      PricedTogether(account.amm.pegMultiplier, account.amm.quoteAssetReserve, account1.amm.quoteAssetReserve,
                     account'.amm.quoteAssetReserve, Cash(account1) - Cash(account), Cash(account') - Cash(account1),
                     LegsOf(account, orders[0], Long), LegsOf(account, orders[0], Short),
                     Legs(account1, orders[1..], Long), Legs(account1, orders[1..], Short));
    }
  }

  lemma NoLegs(account: Account)
    ensures Priced(account.amm.pegMultiplier, account.amm.quoteAssetReserve, account.amm.quoteAssetReserve,
                   Cash(account) - Cash(account), 0, 0)
  {
    assert account.amm.pegMultiplier * 0 == 0;
  }

  /** A run of orders that ends flat puts the reserves back where they were, and
      leaves the collateral as it was, or more by less than one unit for each long leg,
      or less by less than one unit for each short leg. */
  lemma FlatToFlat(account: Account, orders: seq<Order>)
    requires WellFormed(account) && AllFit(account, orders)
    requires account.position.baseAssetAmount == 0 && RunOrders(account, orders).position.baseAssetAmount == 0
    ensures var account' := RunOrders(account, orders);
            && account'.position == UserPosition(0, 0)
            && account'.amm.baseAssetReserve == account.amm.baseAssetReserve
            && account'.amm.quoteAssetReserve == account.amm.quoteAssetReserve
            && (account'.collateral > account.collateral ==>
                  account'.collateral - account.collateral < Legs(account, orders, Long))
            && (account'.collateral < account.collateral ==>
                  account.collateral - account'.collateral < Legs(account, orders, Short))
  {
    RunAccounting(account, orders);
    var account' := RunOrders(account, orders);
    assert account'.amm.quoteAssetReserve == account.amm.quoteAssetReserve;
    assert account.amm.pegMultiplier * 0 == 0;
    assert Cash(account') - Cash(account) == account'.collateral - account.collateral;
  }
}
