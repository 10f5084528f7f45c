/** How much can trade before the price reaches a limit (sdk/src/math/amm.ts). */
module LimitSizing {
  import opened Arithmetic
  import opened Bn
  import opened Amm
  import opened SquareRoot
  import opened Wrappers

  /** The squared base reserve at which the curve's price is the limit, floored
      twice as the code floors it. */
  function LimitReserveSquared(amm: AMM, limitPrice: int): Attempt<int> {
    var scaled :- Div(amm.Invariant() * MARK_PRICE_PRECISION * amm.pegMultiplier, limitPrice);
    Div(scaled, PEG_PRECISION)
  }

  /** The price at base reserve `x` on the curve, and with one quote unit more. */
  function CurvePrice(amm: AMM, x: int, extra: nat): int
    requires 0 < x
  {
    CalculatePrice(x, amm.Invariant() / x + extra, amm.pegMultiplier)
  }

  /** The price before any flooring, compared without dividing. */
  predicate ExactPriceBelow(amm: AMM, x: int, limitPrice: int) {
    amm.Invariant() * MARK_PRICE_PRECISION * amm.pegMultiplier < limitPrice * PEG_PRECISION * (x * x)
  }

  /** A reserve's square is above the bound exactly when its exact price is below
      the limit. */
  lemma ExactPriceIff(amm: AMM, limitPrice: nat, x: nat)
    requires 0 < limitPrice && 0 <= amm.pegMultiplier
    ensures LimitReserveSquared(amm, limitPrice).Done? && 0 <= LimitReserveSquared(amm, limitPrice).value
    ensures LimitReserveSquared(amm, limitPrice).value < x * x <==> ExactPriceBelow(amm, x, limitPrice)
  {
    var top := amm.Invariant() * MARK_PRICE_PRECISION * amm.pegMultiplier;
    SquareNonNegative(amm.sqrtK);
    MulNonNegative(amm.Invariant() * MARK_PRICE_PRECISION, amm.pegMultiplier);
    TruncIsFloor(top, limitPrice);
    TruncIsFloor(top / limitPrice, PEG_PRECISION);
    DivDiv(top, limitPrice, PEG_PRECISION);
    var bound := LimitReserveSquared(amm, limitPrice).value;
    var unit := limitPrice * PEG_PRECISION;
    DivFloor(top, unit);
    if bound < x * x {
      MulMono(bound + 1, x * x, unit);
    } else {
      MulMono(x * x, bound, unit);
    }
  }

  lemma PriceIsFloor(quote: nat, peg: nat, x: nat)
    requires 0 < x
    ensures 0 <= quote * MARK_PRICE_PRECISION * peg
    ensures CalculatePrice(x, quote, peg) == quote * MARK_PRICE_PRECISION * peg / (PEG_PRECISION * x)
  {
    MulNonNegative(quote * MARK_PRICE_PRECISION, peg);
    var top := quote * MARK_PRICE_PRECISION * peg;
    TruncIsFloor(top, PEG_PRECISION);
    TruncIsFloor(top / PEG_PRECISION, x);
    DivDiv(top, PEG_PRECISION, x);
  }

  /** A curve price is below the limit wherever the exact price is. */
  lemma PriceBelowLimit(amm: AMM, limitPrice: nat, x: nat)
    requires 0 < limitPrice && 0 < x && 0 <= amm.pegMultiplier && ExactPriceBelow(amm, x, limitPrice)
    ensures CurvePrice(amm, x, 0) < limitPrice
  {
    var k, peg := amm.Invariant(), amm.pegMultiplier;
    SquareNonNegative(amm.sqrtK);
    DivFloor(k, x);
    PriceIsFloor(k / x, peg, x);
    FlooredPriceBelow(k, k / x, peg, x, limitPrice);
    DivAtMost((k / x) * MARK_PRICE_PRECISION * peg, PEG_PRECISION * x, limitPrice - 1);
  }

  lemma FlooredPriceBelow(k: nat, y: nat, peg: nat, x: nat, limitPrice: nat)
    requires 0 < x && y * x <= k
    requires k * MARK_PRICE_PRECISION * peg < limitPrice * PEG_PRECISION * (x * x)
    ensures y * MARK_PRICE_PRECISION * peg < limitPrice * (PEG_PRECISION * x)
  {
    var m := MARK_PRICE_PRECISION * peg;
    MulMono(y * x, k, m);
    assert (y * x) * m == (y * MARK_PRICE_PRECISION * peg) * x;
    assert k * m == k * MARK_PRICE_PRECISION * peg;
    assert limitPrice * PEG_PRECISION * (x * x) == (limitPrice * (PEG_PRECISION * x)) * x;
    MulCancelStrict(y * MARK_PRICE_PRECISION * peg, limitPrice * (PEG_PRECISION * x), x);
  }

  /** With one quote unit more it is at least the limit wherever the exact price is. */
  lemma PriceAtLeastLimit(amm: AMM, limitPrice: nat, x: nat)
    requires 0 < limitPrice && 0 < x && 0 <= amm.pegMultiplier && !ExactPriceBelow(amm, x, limitPrice)
    ensures limitPrice <= CurvePrice(amm, x, 1)
  {
    var k, peg := amm.Invariant(), amm.pegMultiplier;
    SquareNonNegative(amm.sqrtK);
    DivFloor(k, x);
    PriceIsFloor(k / x + 1, peg, x);
    RaisedPriceAtLeast(k, k / x + 1, peg, x, limitPrice);
    DivAtLeast((k / x + 1) * MARK_PRICE_PRECISION * peg, PEG_PRECISION * x, limitPrice);
  }

  lemma RaisedPriceAtLeast(k: nat, y: nat, peg: nat, x: nat, limitPrice: nat)
    requires 0 < x && k < y * x
    requires limitPrice * PEG_PRECISION * (x * x) <= k * MARK_PRICE_PRECISION * peg
    ensures limitPrice * (PEG_PRECISION * x) <= y * MARK_PRICE_PRECISION * peg
  {
    var m := MARK_PRICE_PRECISION * peg;
    MulMono(k, y * x, m);
    assert (y * x) * m == (y * MARK_PRICE_PRECISION * peg) * x;
    assert k * m == k * MARK_PRICE_PRECISION * peg;
    assert limitPrice * PEG_PRECISION * (x * x) == (limitPrice * (PEG_PRECISION * x)) * x;
    MulCancel(limitPrice * (PEG_PRECISION * x), y * MARK_PRICE_PRECISION * peg, x);
  }

  /** Beyond the computed root the square is above n, before it it is not. */
  lemma AroundRoot(n: nat, root: nat, x: nat)
    requires CloseRoot(n, root)
    ensures root < x ==> n < x * x
    ensures x < root ==> x * x <= n
  {
    if root < x {
      MulMono(root + 1, x, root + 1);
      MulMono(root + 1, x, x);
    } else if x < root {
      MulMono(x, root - 1, x);
      MulMono(x, root - 1, root - 1);
      assert (root - 1) * (root - 1) == root * root - 2 * root + 1;
    }
  }

  function LimitBound(amm: AMM, limitPrice: nat): nat
    requires 0 < limitPrice && 0 <= amm.pegMultiplier
  {
    ExactPriceIff(amm, limitPrice, 0);
    LimitReserveSquared(amm, limitPrice).value
  }

  /** At the root itself the exact price is below the limit in one case only: the
      bound is one short of a square, and the root is that square's. */
  lemma FullSizeIff(amm: AMM, limitPrice: nat, root: nat)
    requires 0 < limitPrice && 0 <= amm.pegMultiplier
    requires CloseRoot(LimitBound(amm, limitPrice), root)
    ensures ExactPriceBelow(amm, root, limitPrice) <==> root * root == LimitBound(amm, limitPrice) + 1
  {
    ExactPriceIff(amm, limitPrice, root);
  }

  predicate PerfectSquare(n: nat) {
    FloorRoot(n) * FloorRoot(n) == n
  }

  lemma SquareIsPerfect(r: nat)
    ensures PerfectSquare(r * r)
  {
    var s := FloorRoot(r * r);
    if s < r {
      MulMono(s + 1, r, s + 1);
      MulMono(s + 1, r, r);
    } else if r < s {
      MulMono(r + 1, s, r + 1);
      MulMono(r + 1, s, s);
    }
  }

  /** What can be checked beforehand: unless the bound plus one is a square, the
      exact price at the full size is at or above the limit. So a long of the full
      size reaches or passes the limit, and a short of it never falls below. */
  lemma FullSizeReachesLimit(amm: AMM, limitPrice: nat, root: nat)
    requires 0 < limitPrice && 0 <= amm.pegMultiplier
    requires CloseRoot(LimitBound(amm, limitPrice), root)
    requires !PerfectSquare(LimitBound(amm, limitPrice) + 1)
    ensures !ExactPriceBelow(amm, root, limitPrice)
    ensures root != 0 ==> limitPrice <= CurvePrice(amm, root, 1)
  {
    hide PerfectSquare;
    FullSizeIff(amm, limitPrice, root);
    SquareIsPerfect(root);
    if root != 0 {
      PriceAtLeastLimit(amm, limitPrice, root);
    }
  }

  /** The bound is a number bn.js can hold, whose bit length is an iteration count. */
  predicate Representable(amm: AMM, limitPrice: nat)
    requires 0 <= amm.pegMultiplier
  {
    limitPrice != 0 ==> BitLength(LimitBound(amm, limitPrice)) < MAX_SAFE_INTEGER
  }

  datatype Sizing = Sizing(amount: nat, direction: PositionDirection)

  /** One unit less than the size returned never crosses the limit: a long keeps
      the price strictly below it; a short keeps it at or above, granting the quote
      reserve the unit its floor dropped. */
  ghost predicate WithinLimit(amm: AMM, limitPrice: nat, before: int, sizing: Sizing) {
    forall amount: nat :: amount < sizing.amount ==>
      var x := before + BaseDelta(amount, sizing.direction);
      0 < x && (if sizing.direction == Long then CurvePrice(amm, x, 0) < limitPrice
                else limitPrice <= CurvePrice(amm, x, 1))
  }

  /** calculateMaxBaseAssetAmountToTrade. `before` is the base reserve it starts
      from: the market's own, or the one with the spread applied. */
  method CalculateMaxBaseAssetAmountToTrade(amm: AMM, limitPrice: nat, before: int) returns (result: Attempt<Sizing>)
    requires 0 < before && 0 <= amm.pegMultiplier
    requires Representable(amm, limitPrice)
    ensures result.Done? <==> limitPrice != 0 && LimitBound(amm, limitPrice) != 0
    ensures result.Done? ==>
              var newBase := before + BaseDelta(result.value.amount, result.value.direction);
              && newBase >= 0 && CloseRoot(LimitBound(amm, limitPrice), newBase)
              && (ExactPriceBelow(amm, newBase, limitPrice) <==> newBase * newBase == LimitBound(amm, limitPrice) + 1)
              && WithinLimit(amm, limitPrice, before, result.value)
  {
    hide CloseRoot, BitLength, WithinLimit, LimitBound;
    if limitPrice == 0 {
      return Throws;
    }
    var squared := LimitBound(amm, limitPrice);
    var newBase, _ := SquareRootBN(squared);
    if newBase.Throws? {
      return Throws;
    }
    var root := newBase.value;
    var sizing := if root > before then Sizing(root - before, Short)
                  else if root < before then Sizing(before - root, Long)
                  else Sizing(0, Long);
    StaysWithinLimit(amm, limitPrice, before, root, sizing);
    FullSizeIff(amm, limitPrice, root);
    return Done(sizing);
  }

  lemma StaysWithinLimit(amm: AMM, limitPrice: nat, before: int, root: nat, sizing: Sizing)
    requires 0 < before && 0 <= amm.pegMultiplier && 0 < limitPrice
    requires CloseRoot(LimitBound(amm, limitPrice), root)
    requires root == before + BaseDelta(sizing.amount, sizing.direction)
    ensures WithinLimit(amm, limitPrice, before, sizing)
  {
    forall amount: nat | amount < sizing.amount
      ensures var x := before + BaseDelta(amount, sizing.direction);
              0 < x && (if sizing.direction == Long then CurvePrice(amm, x, 0) < limitPrice
                        else limitPrice <= CurvePrice(amm, x, 1))
    {
      var x := before + BaseDelta(amount, sizing.direction);
      AroundRoot(LimitBound(amm, limitPrice), root, x);
      ExactPriceIff(amm, limitPrice, x);
      if sizing.direction == Long {
        PriceBelowLimit(amm, limitPrice, x);
      } else {
        PriceAtLeastLimit(amm, limitPrice, x);
      }
    }
  }

  /** The full size can cross the limit: here the curve's price after buying all
      four units is one and a half times the limit. */
  lemma FullSizeCanCross()
    ensures var amm := AMM(6, 6, 6, 1_000, 0, 6, 0, 0, 0, 0);
            var limitPrice, full := 60_000_000_000, 4;
            && amm.OnCurve()
            && LimitReserveSquared(amm, limitPrice) == Done(6) && CloseRoot(6, amm.baseAssetReserve - full)
            && CurvePrice(amm, amm.baseAssetReserve - full, 0) == 90_000_000_000
            && CurvePrice(amm, amm.baseAssetReserve - (full - 1), 0) == 40_000_000_000
  {
  }

  /** What an order may trade when the limit sits at base reserve `root`: up to
      there, if that is on its side, and no more than it asks for. */
  function Executable(base: int, root: nat, orderAmount: nat, direction: PositionDirection): nat {
    var room := if direction == Long then base - root else root - base;
    if room <= 0 then 0 else if room < orderAmount then room else orderAmount
  }

  /** That is the smaller of the room and the order, if there is room at all. */
  lemma ExecutableInNumbers(base: int, root: nat, orderAmount: nat, direction: PositionDirection)
    ensures var amount := Executable(base, root, orderAmount, direction);
            && amount <= orderAmount
            && (0 < amount ==> if direction == Long then root <= base - amount else base + amount <= root)
            && (amount < orderAmount ==> if direction == Long then base - amount <= root else root <= base + amount)
  {
  }

  datatype LimitOrder = LimitOrder(
    price: nat,
    oraclePriceOffset: int,
    postOnly: bool,
    direction: PositionDirection,
    baseAssetAmount: nat
  )

  function FloatingPrice(order: LimitOrder, oraclePrice: int): int {
    oraclePrice + order.oraclePriceOffset
  }

  /** The limit an order goes by: its price, or with an offset the floating price,
      of which a post-only order takes the stricter. Without the oracle it throws. */
  function LimitPrice(order: LimitOrder, oraclePrice: Option<int>): Attempt<int> {
    if order.oraclePriceOffset == 0 then Done(order.price)
    else if oraclePrice.None? then Throws
    else
      var floating := FloatingPrice(order, oraclePrice.value);
      if !order.postOnly then Done(floating)
      else if order.direction == Long then Done(if floating < order.price then floating else order.price)
      else Done(if floating > order.price then floating else order.price)
  }

  /** The base reserve sizing starts from: a post-only order ignores the spread. */
  function ReserveBefore(amm: AMM, order: LimitOrder, spreadReserve: int): int {
    if order.postOnly then amm.baseAssetReserve else spreadReserve
  }

  /** A limit order throws, trades nothing, or trades up to the computed root, no
      more than it asks for; and nothing short of that crosses its limit. */
  method CalculateAmountToTradeForLimit(amm: AMM, order: LimitOrder, oraclePrice: Option<int>, spreadReserve: int)
      returns (result: Attempt<nat>)
    requires 0 < amm.baseAssetReserve && 0 < spreadReserve && 0 <= amm.pegMultiplier
    requires LimitPrice(order, oraclePrice).Done? ==>
               LimitPrice(order, oraclePrice).value >= 0 && Representable(amm, LimitPrice(order, oraclePrice).value)
    ensures result.Done? <==>
              && LimitPrice(order, oraclePrice).Done? && LimitPrice(order, oraclePrice).value != 0
              && LimitBound(amm, LimitPrice(order, oraclePrice).value) != 0
    ensures result.Done? ==>
              var limitPrice := LimitPrice(order, oraclePrice).value;
              var before := if order.postOnly then amm.baseAssetReserve else spreadReserve;
              && (exists root: nat :: CloseRoot(LimitBound(amm, limitPrice), root)
                                      && result.value == Executable(before, root, order.baseAssetAmount,
                                                                    order.direction))
              && WithinLimit(amm, limitPrice, before, Sizing(result.value, order.direction))
  {
    hide LimitBound, WithinLimit, CloseRoot, ExactPriceBelow, BitLength;
    var limit := LimitPrice(order, oraclePrice);
    if limit.Throws? {
      return Throws;
    }
    var before := ReserveBefore(amm, order, spreadReserve);
    var sizing := CalculateMaxBaseAssetAmountToTrade(amm, limit.value, before);
    if sizing.Throws? {
      return Throws;
    }
    ghost var root: nat := before + BaseDelta(sizing.value.amount, sizing.value.direction);
    assert CloseRoot(LimitBound(amm, limit.value), root);
    var amount := if sizing.value.direction != order.direction then 0
                  else if sizing.value.amount > order.baseAssetAmount then order.baseAssetAmount
                  else sizing.value.amount;
    LessStaysWithin(amm, limit.value, before, sizing.value, Sizing(amount, order.direction));
    return Done(amount);
  }

  lemma LessStaysWithin(amm: AMM, limitPrice: nat, before: int, sizing: Sizing, less: Sizing)
    requires WithinLimit(amm, limitPrice, before, sizing)
    requires less.amount == 0 || (less.direction == sizing.direction && less.amount <= sizing.amount)
    ensures WithinLimit(amm, limitPrice, before, less)
  {
    hide CurvePrice;
  }

  /** A post-only order with an offset stays within its own price and within the
      floating price. */
  lemma PostOnlyKeepsBothPrices(amm: AMM, order: LimitOrder, oraclePrice: int, amount: nat)
    requires order.postOnly && order.oraclePriceOffset != 0
    requires 0 <= FloatingPrice(order, oraclePrice)
    requires WithinLimit(amm, LimitPrice(order, Some(oraclePrice)).value, amm.baseAssetReserve,
                         Sizing(amount, order.direction))
    ensures WithinLimit(amm, order.price, amm.baseAssetReserve, Sizing(amount, order.direction))
    ensures WithinLimit(amm, FloatingPrice(order, oraclePrice), amm.baseAssetReserve, Sizing(amount, order.direction))
  {
    hide CurvePrice;
  }

  /** A fixed limit is the order's own price; a floating one is the oracle's price plus
      the offset, and the lower of both for a post-only long, the higher for a short. */
  lemma LimitPriceInNumbers(order: LimitOrder, oraclePrice: Option<int>)
    ensures LimitPrice(order, oraclePrice).Throws? <==> order.oraclePriceOffset != 0 && oraclePrice.None?
    ensures order.oraclePriceOffset == 0 ==> LimitPrice(order, oraclePrice) == Done(order.price)
    ensures order.oraclePriceOffset != 0 && oraclePrice.Some? ==>
              var limit, floating := LimitPrice(order, oraclePrice).value, oraclePrice.value + order.oraclePriceOffset;
              && (!order.postOnly ==> limit == floating)
              && (order.postOnly ==> limit == order.price || limit == floating)
              && (order.postOnly && order.direction == Long ==> limit <= order.price && limit <= floating)
              && (order.postOnly && order.direction == Short ==> limit >= order.price && limit >= floating)
  {
  }
}
