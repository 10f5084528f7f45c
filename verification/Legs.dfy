/** Every instruction, seen as the bookings it makes: what it checks and accrues
    first, and then the legs it books one after the other. What holds of one
    booking is lifted to whole instructions through this form. */
module Legs {
  import opened Arithmetic
  import opened Checked
  import opened BankMath
  import opened Booking
  import opened Ledger
  import opened LedgerLaws

  datatype Leg = Leg(account: nat, amount: u128, direction: BalanceType)

  datatype Plan = Plan(start: State, legs: seq<Leg>)

  /** The state an instruction starts booking from, and its legs as far as the
      margin check lets it get. */
  function Planned(l: State, ix: Instruction): Result<Plan> {
    match ix
    case OpenAccount(isPool) => Ok(Plan(Apply(l, ix), []))
    case AccrueInterest(now) =>
      var l1 :- Accrued(l, now);
      Ok(Plan(l1, []))
    case DepositFunds(user, amount, reduceOnly, now, _) =>
      var _ :- Need(amount != 0, InsufficientDeposit);
      PlannedOne(l, now, user, amount, reduceOnly, Borrow, Deposit)
    case WithdrawFunds(user, amount, reduceOnly, now, _) =>
      PlannedOne(l, now, user, amount, reduceOnly, Deposit, Borrow)
    case TransferDeposit(from, to, amount, now, meetsMargin) =>
      var _ :- Need(from != to, AccountBorrowed);
      var _ :- Need(IsUser(l, from) && IsUser(l, to), NoSuchAccount);
      var l1 :- Accrued(l, now);
      Ok(Plan(l1, if meetsMargin then [Leg(from, amount, Borrow), Leg(to, amount, Deposit)]
                  else [Leg(from, amount, Borrow)]))
    case SettlePnl(user, pool, unsettled, authorised) =>
      var _ :- Need(IsUser(l, user) && IsPool(l, pool), NoSuchAccount);
      if unsettled > 0 then
        var _ :- Need(authorised, UserMustSettleTheirOwnPositiveUnsettledPNL);
        var poolTokens :- GetTokenAmount(l.accounts[pool].balance, l.bank, Deposit);
        var paid := AmountToSettle(unsettled, poolTokens);
        Ok(Plan(l, if paid == 0 then [] else [Leg(user, paid, Deposit), Leg(pool, paid, Borrow)]))
      else
        var paid: u128 := Abs(unsettled);
        Ok(Plan(l, if paid == 0 then [] else [Leg(pool, paid, Deposit), Leg(user, paid, Borrow)]))
    case CollectLiquidationFee(user, liquidator, fee, shareDenominator) =>
      var _ :- Need(IsUser(l, user) && IsUser(l, liquidator), NoSuchAccount);
      var _ :- Need(l.accounts[user].kind == Deposit || l.accounts[user].balance == 0, LiquidationOfBorrower);
      var split :- SplitFee(fee, shareDenominator);
      Ok(Plan(l, if split.toLiquidator > 0 then [Leg(liquidator, split.toLiquidator, Deposit), Leg(user, fee, Borrow)]
                 else [Leg(user, fee, Borrow)]))
    case WithdrawFees(_, _) => Ok(Plan(l, []))
  }

  /** Deposit and withdraw: accrue, find the user, cap the amount. */
  function PlannedOne(l: State, now: int, user: nat, amount: u64, reduceOnly: bool, against: BalanceType,
                      direction: BalanceType): Result<Plan> {
    var l1 :- Accrued(l, now);
    var _ :- Need(IsUser(l1, user), NoSuchAccount);
    var booked :- CappedAmount(l1.bank, l1.accounts[user], amount, reduceOnly, against);
    Ok(Plan(l1, [Leg(user, booked, direction)]))
  }

  function BookAll(l: State, legs: seq<Leg>): Result<State>
    decreases |legs|
  {
    if legs == [] then Ok(l)
    else
      var l1 :- Book(l, legs[0].account, legs[0].amount, legs[0].direction);
      BookAll(l1, legs[1..])
  }

  lemma BookAllOne(l: State, leg: Leg)
    ensures BookAll(l, [leg]) == Book(l, leg.account, leg.amount, leg.direction)
  {
    hide Book;
    assert [leg][1..] == [];
    if Book(l, leg.account, leg.amount, leg.direction).Ok? {
      assert BookAll(Book(l, leg.account, leg.amount, leg.direction).value, []).Ok?;
    }
  }

  lemma BookAllTwo(l: State, first: Leg, second: Leg)
    ensures BookAll(l, [first, second])
            == match Book(l, first.account, first.amount, first.direction)
               case Ok(l1) => Book(l1, second.account, second.amount, second.direction)
               case Err(e) => Err(e)
  {
    hide Book;
    assert [first, second][1..] == [second];
    if Book(l, first.account, first.amount, first.direction).Ok? {
      BookAllOne(Book(l, first.account, first.amount, first.direction).value, second);
    }
  }

  lemma NoOtherUnderflow(l: State, ix: Instruction)
    ensures Planned(l, ix) != Err(BalanceUnderflow)
  {
    hide Accrue, GetTokenAmount;
    NoUnderflowInAccrual(l.bank);
    UnitErrors();
  }

  lemma NoUnderflowInAccrual(bank: BankState)
    ensures forall now :: Accrue(bank, now) != Err(BalanceUnderflow)
  {
    hide BorrowRate, IndexGrowth;
    RateErrors();
  }

  lemma RateErrors()
    ensures forall bank, u :: BorrowRate(bank, u) != Err(BalanceUnderflow)
    ensures forall index, rate :: IndexGrowth(index, rate) != Err(BalanceUnderflow)
  {
  }

  /** A successful instruction is its plan carried out, up to the vault; and a
      balance can underflow nowhere but in a leg. */
  lemma StepFollowsPlan(l: State, ix: Instruction)
    ensures Step(l, ix).Ok? ==>
              && Planned(l, ix).Ok?
              && var plan := Planned(l, ix).value;
              && BookAll(plan.start, plan.legs).Ok?
              && Step(l, ix).value == BookAll(plan.start, plan.legs).value.(vault := Step(l, ix).value.vault)
    ensures Step(l, ix) == Err(BalanceUnderflow)
            <==> Planned(l, ix).Ok?
                 && BookAll(Planned(l, ix).value.start, Planned(l, ix).value.legs) == Err(BalanceUnderflow)
  {
    NoOtherUnderflow(l, ix);
    hide Book, Accrue, GetTokenAmount, BookAll;
    if Planned(l, ix).Ok? {
      var plan := Planned(l, ix).value;
      NothingToBook(plan.start);
      match ix
      case OpenAccount(_) =>
      case AccrueInterest(_) =>
      case WithdrawFees(_, _) =>
      case DepositFunds(_, _, _, _, _) =>
        BookAllOne(plan.start, plan.legs[0]);
      case WithdrawFunds(_, _, _, _, _) =>
        BookAllOne(plan.start, plan.legs[0]);
      case TransferDeposit(from, to, amount, _, meetsMargin) =>
        if meetsMargin {
          BookAllTwo(plan.start, plan.legs[0], plan.legs[1]);
        } else {
          BookAllOne(plan.start, plan.legs[0]);
        }
      case SettlePnl(user, pool, unsettled, _) =>
        if plan.legs != [] {
          BookAllTwo(plan.start, plan.legs[0], plan.legs[1]);
        }
      case CollectLiquidationFee(_, _, _, _) =>
        if |plan.legs| == 2 {
          BookAllTwo(plan.start, plan.legs[0], plan.legs[1]);
        } else {
          BookAllOne(plan.start, plan.legs[0]);
        }
    }
  }

  lemma NothingToBook(l: State)
    ensures BookAll(l, []) == Ok(l)
  {
  }

  /** Before its legs an instruction has moved indices or opened an account, no more. */
  lemma PlannedStart(l: State, ix: Instruction)
    requires l.bank.WellFormed() && Planned(l, ix).Ok?
    ensures var start := Planned(l, ix).value.start;
            && start.bank.WellFormed()
            && Overstated(start, Deposit) == Overstated(l, Deposit)
            && Overstated(start, Borrow) == Overstated(l, Borrow)
            && (!ix.OpenAccount? ==> start.accounts == l.accounts)
  {
    hide CalculateAccumulatedInterest, GetTokenAmount;
    match ix
    case OpenAccount(_) =>
      StepEffect(l, ix);
    case AccrueInterest(now) => AccrueEffect(l, now);
    case DepositFunds(_, _, _, now, _) => AccrueEffect(l, now);
    case WithdrawFunds(_, _, _, now, _) => AccrueEffect(l, now);
    case TransferDeposit(_, _, _, now, _) => AccrueEffect(l, now);
    case _ =>
  }
}
