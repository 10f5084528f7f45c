/** Applying an executable order to a user and the market (sdk/src/orders.ts).
    The amount to trade is a parameter; LimitSizing computes it for limit orders. */
module Orders {
  import opened Arithmetic
  import opened Bn
  import opened Amm

  datatype UserPosition = UserPosition(baseAssetAmount: int, quoteAssetAmount: int)

  /** The user's collateral, the position in this market, and the market. */
  datatype Account = Account(collateral: int, position: UserPosition, amm: AMM)

  datatype AmountSwapped = AmountSwapped(quote: int, base: int)

  function CalculateAmountSwapped(before: AMM, after: AMM): AmountSwapped {
    var moved := Abs(before.quoteAssetReserve - after.quoteAssetReserve);
    AmountSwapped(TruncDiv(TruncDiv(moved * before.pegMultiplier, PEG_PRECISION), AMM_TO_QUOTE_PRECISION_RATIO),
                  before.baseAssetReserve - after.baseAssetReserve)
  }

  function Increased(account: Account, amount: int, direction: PositionDirection): Attempt<Account> {
    var after :- CalculateNewMarketAfterTrade(amount, direction, account.amm);
    var swapped, position := CalculateAmountSwapped(account.amm, after), account.position;
    Done(Account(account.collateral,
                 UserPosition(position.baseAssetAmount + swapped.base, position.quoteAssetAmount + swapped.quote),
                 after))
  }

  function Reversed(account: Account, amount: int, direction: PositionDirection): Attempt<Account> {
    var position := account.position;
    var toClose := FindDirectionToClose(position.baseAssetAmount);
    var between :- CalculateNewMarketAfterTrade(position.baseAssetAmount, toClose, account.amm);
    var baseAssetValue := CalculateAmountSwapped(account.amm, between).quote;
    var isLong := PositionCurrentDirection(position.baseAssetAmount) == Long;
    var pnl := if isLong then baseAssetValue - position.quoteAssetAmount
               else position.quoteAssetAmount - baseAssetValue;
    var left := amount - Abs(position.baseAssetAmount);
    var after :- CalculateNewMarketAfterTrade(left, direction, between);
    var swapped := CalculateAmountSwapped(between, after);
    Done(Account(account.collateral + pnl, UserPosition(swapped.base, swapped.quote), after))
  }

  function Reduced(account: Account, amount: int, direction: PositionDirection): Attempt<Account> {
    var position := account.position;
    var after :- CalculateNewMarketAfterTrade(amount, direction, account.amm);
    var swapped := CalculateAmountSwapped(account.amm, after);
    var costBasisRealized :- Div(position.quoteAssetAmount * Abs(swapped.base), Abs(position.baseAssetAmount));
    var pnl := if PositionCurrentDirection(position.baseAssetAmount) == Long then swapped.quote - costBasisRealized
               else costBasisRealized - swapped.quote;
    Done(Account(account.collateral + pnl,
                 UserPosition(position.baseAssetAmount + swapped.base, position.quoteAssetAmount - costBasisRealized),
                 after))
  }

  predicate Increases(account: Account, direction: PositionDirection) {
    account.position.baseAssetAmount == 0 || direction == PositionCurrentDirection(account.position.baseAssetAmount)
  }

  predicate Reverses(account: Account, amount: int, direction: PositionDirection) {
    !Increases(account, direction) && amount > Abs(account.position.baseAssetAmount)
  }

  /** calculateNewStateAfterOrder for an open order; None is its null result. */
  datatype Outcome = None | Some(account: Account)

  function CalculateNewStateAfterOrder(account: Account, amount: int, direction: PositionDirection): Attempt<Outcome> {
    if amount < account.amm.minimumBaseAssetTradeSize then Done(None)
    else
      var account' :-
        if Increases(account, direction) then Increased(account, amount, direction)
        else if Reverses(account, amount, direction) then Reversed(account, amount, direction)
        else Reduced(account, amount, direction);
      Done(Some(account'))
  }

  // ------------------------------------------------------- accounting

  /** Collateral net of what the position cost: a long's quote amount was paid, a
      short's was received. */
  function Cash(account: Account): int {
    if PositionCurrentDirection(account.position.baseAssetAmount) == Long
    then account.collateral - account.position.quoteAssetAmount
    else account.collateral + account.position.quoteAssetAmount
  }

  /** An empty position carries no cost. */
  predicate Settled(account: Account) {
    account.position.baseAssetAmount == 0 ==> account.position.quoteAssetAmount == 0
  }

  predicate WellFormed(account: Account) {
    account.amm.OnCurve() && Settled(account)
  }

  /** What the trader of one leg receives: negative for a long, which pays. */
  function Received(before: AMM, after: AMM, direction: PositionDirection): int {
    var quote := CalculateAmountSwapped(before, after).quote;
    if direction == Long then -quote else quote
  }

  /** The reserve stays positive, also through the closing leg of a reversal. */
  predicate Fits(account: Account, amount: int, direction: PositionDirection) {
    && 0 <= amount
    && 0 < account.amm.baseAssetReserve + BaseDelta(amount, direction)
  }

  /** The curve in between the two legs of a reversal. */
  function Between(account: Account): Attempt<AMM> {
    CalculateNewMarketAfterTrade(account.position.baseAssetAmount,
                                 FindDirectionToClose(account.position.baseAssetAmount), account.amm)
  }

  /** What the whole order exchanges in quote. */
  function OrderReceived(account: Account, after: AMM, amount: int, direction: PositionDirection): int {
    if Reverses(account, amount, direction) && Between(account).Done? then
      Received(account.amm, Between(account).value, direction) + Received(Between(account).value, after, direction)
    else Received(account.amm, after, direction)
  }

  lemma ZeroMove(amm: AMM)
    requires amm.OnCurve()
    ensures CalculateNewMarketAfterTrade(0, Long, amm) == Done(amm)
    ensures CalculateNewMarketAfterTrade(0, Short, amm) == Done(amm)
    ensures CalculateAmountSwapped(amm, amm) == AmountSwapped(0, 0)
  {
    TradeMovesAlongCurve(amm, 0, Long);
    TradeMovesAlongCurve(amm, 0, Short);
    assert 0 / 1000 == 0 && 0 / 10_000_000 == 0;
  }

  /** In each of its three branches the order conserves base between the market
      and the position, and changes the trader's cash by exactly the quote
      exchanged, however the realised cost basis is rounded. It keeps the curve
      and never leaves a cost on an empty position. */
  lemma OrderAccounting(account: Account, amount: int, direction: PositionDirection)
    requires WellFormed(account) && Fits(account, amount, direction)
    ensures CalculateNewStateAfterOrder(account, amount, direction).Done?
    ensures CalculateNewStateAfterOrder(account, amount, direction).value.None?
            <==> amount < account.amm.minimumBaseAssetTradeSize
    ensures var outcome := CalculateNewStateAfterOrder(account, amount, direction).value;
            outcome.Some? ==>
              var account' := outcome.account;
              && account'.amm.baseAssetReserve + account'.position.baseAssetAmount
                 == account.amm.baseAssetReserve + account.position.baseAssetAmount
              && account'.amm.baseAssetReserve == account.amm.baseAssetReserve + BaseDelta(amount, direction)
              && Cash(account') == Cash(account) + OrderReceived(account, account'.amm, amount, direction)
              && WellFormed(account')
  {
    TradeMovesAlongCurve(account.amm, amount, direction);
    if Increases(account, direction) {
      if amount == 0 {
        ZeroMove(account.amm);
      }
    } else if Reverses(account, amount, direction) {
      ReversalAccounting(account, amount, direction);
    } else {
      ReductionAccounting(account, amount, direction);
    }
  }

  lemma ReductionAccounting(account: Account, amount: int, direction: PositionDirection)
    requires WellFormed(account) && Fits(account, amount, direction)
    requires !Increases(account, direction) && !Reverses(account, amount, direction)
    ensures Reduced(account, amount, direction).Done?
    ensures var account' := Reduced(account, amount, direction).value;
            && account'.amm.baseAssetReserve == account.amm.baseAssetReserve + BaseDelta(amount, direction)
            && account'.position.baseAssetAmount == account.position.baseAssetAmount - BaseDelta(amount, direction)
            && Cash(account') == Cash(account) + Received(account.amm, account'.amm, direction)
            && WellFormed(account')
  {
    TradeMovesAlongCurve(account.amm, amount, direction);
    var base, quote := account.position.baseAssetAmount, account.position.quoteAssetAmount;
    if amount == Abs(base) {
      ExactQuotient(quote, Abs(base));
    }
  }

  lemma ReversalAccounting(account: Account, amount: int, direction: PositionDirection)
    requires WellFormed(account) && Fits(account, amount, direction)
    requires Reverses(account, amount, direction)
    ensures Between(account).Done? && Reversed(account, amount, direction).Done?
    ensures var account', between := Reversed(account, amount, direction).value, Between(account).value;
            && direction == FindDirectionToClose(account.position.baseAssetAmount)
            && between.OnCurve()
            && between.baseAssetReserve
               == account.amm.baseAssetReserve + BaseDelta(account.position.baseAssetAmount, direction)
            && account'.amm.baseAssetReserve == account.amm.baseAssetReserve + BaseDelta(amount, direction)
            && account'.position.baseAssetAmount == account.position.baseAssetAmount - BaseDelta(amount, direction)
            && Cash(account')
               == Cash(account) + Received(account.amm, between, direction) + Received(between, account'.amm, direction)
            && WellFormed(account')
  {
    TradeMovesAlongCurve(account.amm, account.position.baseAssetAmount, direction);
    var between := Between(account).value;
    TradeMovesAlongCurve(between, amount - Abs(account.position.baseAssetAmount), direction);
  }

  // ------------------------------------------------------- what goes to collateral and what to cost

  /** `part` of `q` is what falls to `left` out of `whole`: rounded away from zero, so
      that what is realised is rounded toward it. */
  predicate IsCostLeft(q: int, left: int, whole: int, part: int) {
    if q >= 0 then q * left <= part * whole < q * left + whole
    else q * left - whole < part * whole <= q * left
  }

  lemma TruncatedCost(q: int, closed: nat, whole: nat)
    requires closed <= whole && 0 < whole
    ensures IsCostLeft(q, whole - closed, whole, q - TruncDiv(q * closed, whole))
    ensures 0 <= q ==> 0 <= q - TruncDiv(q * closed, whole) <= q
    ensures q <= 0 ==> q <= q - TruncDiv(q * closed, whole) <= 0
  {
    hide TruncDiv;
    NaturalCost(Abs(q), closed, whole);
    MulNonNegative(Abs(q), closed);
    TruncIsFloor(Abs(q) * closed, whole);
    TruncOfNegative(Abs(q) * closed, whole);
    NegatedProduct(Abs(q), closed);
    if q < 0 {
      var realised := TruncDiv(Abs(q) * closed, whole);
      NegatedProduct(Abs(q), whole - closed);
      NegatedProduct(Abs(q) - realised, whole);
    }
  }

  lemma NaturalCost(q: nat, closed: nat, whole: nat)
    requires closed <= whole && 0 < whole
    ensures 0 <= q * closed
    ensures var left := q - q * closed / whole;
            q * (whole - closed) <= left * whole < q * (whole - closed) + whole && 0 <= left <= q
  {
    MulNonNegative(q, closed);
    var realised := q * closed / whole;
    DivFloor(q * closed, whole);
    assert (q - realised) * whole == q * whole - realised * whole;
    assert q * (whole - closed) == q * whole - q * closed;
    MulMono(closed, whole, q);
    MulCancel(realised, q, whole);
  }

  /** Closing part of a position leaves the cost of the part that stays; the collateral
      takes the difference between the quote and the cost of the part that goes. */
  lemma ReductionSplit(account: Account, amount: int, direction: PositionDirection)
    requires WellFormed(account) && Fits(account, amount, direction)
    requires amount >= account.amm.minimumBaseAssetTradeSize
    requires !Increases(account, direction) && !Reverses(account, amount, direction)
    ensures var outcome := CalculateNewStateAfterOrder(account, amount, direction);
            outcome.Done? && outcome.value.Some?
    ensures var account' := CalculateNewStateAfterOrder(account, amount, direction).value.account;
            var before, after := account.position, account'.position;
            var whole, realised := Abs(before.baseAssetAmount), before.quoteAssetAmount - after.quoteAssetAmount;
            var quote := CalculateAmountSwapped(account.amm, account'.amm).quote;
            && IsCostLeft(before.quoteAssetAmount, whole - amount, whole, after.quoteAssetAmount)
            && Abs(after.baseAssetAmount) == whole - amount
            && account'.collateral
               == account.collateral + (if before.baseAssetAmount > 0 then quote - realised else realised - quote)
  {
    hide CalculateAmountSwapped, TruncDiv;
    TradeMovesAlongCurve(account.amm, amount, direction);
    BaseSwapped(account.amm, amount, direction);
    TruncatedCost(account.position.quoteAssetAmount, amount, Abs(account.position.baseAssetAmount));
  }

  lemma BaseSwapped(amm: AMM, amount: int, direction: PositionDirection)
    requires amm.OnCurve() && 0 < amm.baseAssetReserve + BaseDelta(amount, direction)
    ensures CalculateNewMarketAfterTrade(amount, direction, amm).Done?
    ensures CalculateAmountSwapped(amm, CalculateNewMarketAfterTrade(amount, direction, amm).value).base
            == 0 - BaseDelta(amount, direction)
  {
    TradeMovesAlongCurve(amm, amount, direction);
  }

  /** Adding to a position leaves the collateral alone and adds the quote to the cost. */
  lemma IncreaseSplit(account: Account, amount: int, direction: PositionDirection)
    requires WellFormed(account) && Fits(account, amount, direction)
    requires amount >= account.amm.minimumBaseAssetTradeSize && Increases(account, direction)
    ensures var outcome := CalculateNewStateAfterOrder(account, amount, direction);
            outcome.Done? && outcome.value.Some?
    ensures var account' := CalculateNewStateAfterOrder(account, amount, direction).value.account;
            && account'.collateral == account.collateral
            && account'.position.quoteAssetAmount
               == account.position.quoteAssetAmount + CalculateAmountSwapped(account.amm, account'.amm).quote
            && account'.position.baseAssetAmount == account.position.baseAssetAmount - BaseDelta(amount, direction)
  {
    hide CalculateAmountSwapped;
    TradeMovesAlongCurve(account.amm, amount, direction);
    BaseSwapped(account.amm, amount, direction);
  }

  /** Reversing realises the whole cost against the quote of the closing leg, and the new
      position costs the quote of the opening one. */
  lemma ReversalSplit(account: Account, amount: int, direction: PositionDirection)
    requires WellFormed(account) && Fits(account, amount, direction)
    requires amount >= account.amm.minimumBaseAssetTradeSize && Reverses(account, amount, direction)
    ensures var outcome := CalculateNewStateAfterOrder(account, amount, direction);
            outcome.Done? && outcome.value.Some? && Between(account).Done?
    ensures var account' := CalculateNewStateAfterOrder(account, amount, direction).value.account;
            var between, cost := Between(account).value, account.position.quoteAssetAmount;
            var quote := CalculateAmountSwapped(account.amm, between).quote;
            && account'.position.quoteAssetAmount == CalculateAmountSwapped(between, account'.amm).quote
            && account'.collateral
               == account.collateral + (if account.position.baseAssetAmount > 0 then quote - cost else cost - quote)
            && Abs(account'.position.baseAssetAmount) == amount - Abs(account.position.baseAssetAmount)
  {
    ReversalAccounting(account, amount, direction);
    hide CalculateAmountSwapped;
  }
}
