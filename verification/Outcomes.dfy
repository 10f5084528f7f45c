/** When an accrual or an instruction succeeds, and what it then leaves: in plain
    numbers, and for instructions in terms of the bookings they make. */
module Outcomes {
  import opened Arithmetic
  import opened Checked
  import opened BankMath
  import opened Booking
  import opened BookingOutcomes
  import opened Ledger

  // ------------------------------------------------------- interest

  /** Borrows per deposit in millionths; with nothing deposited, all or nothing. */
  function UtilizationOf(depositTokens: nat, borrowTokens: nat): nat {
    if depositTokens != 0 then borrowTokens * 1_000_000 / depositTokens
    else if borrowTokens == 0 then 0 else 1_000_000
  }

  lemma UtilizationInNumbers(depositTokens: u128, borrowTokens: u128)
    ensures var u := Utilization(depositTokens, borrowTokens);
            && (u.Ok? <==> borrowTokens * 1_000_000 <= U128_MAX)
            && (u.Ok? ==> u.value == UtilizationOf(depositTokens, borrowTokens))
  {
  }

  /** The slope above or below the optimal utilization. */
  function Slope(rise: nat, run: nat): nat
    requires run != 0
  {
    rise * 1_000_000 / run
  }

  predicate RateFits(bank: BankState, u: nat) {
    var optimal := bank.optimalUtilization;
    if u > optimal then
      && optimal < 1_000_000 && bank.optimalBorrowRate <= bank.maxBorrowRate
      && var rise := bank.maxBorrowRate - bank.optimalBorrowRate;
      && rise * 1_000_000 <= U128_MAX && (u - optimal) * Slope(rise, 1_000_000 - optimal) <= U128_MAX
      && bank.optimalBorrowRate + (u - optimal) * Slope(rise, 1_000_000 - optimal) / 1_000_000 <= U128_MAX
    else
      && bank.optimalBorrowRate * 1_000_000 <= U128_MAX && optimal != 0
      && u * Slope(bank.optimalBorrowRate, optimal) <= U128_MAX
  }

  /** The optimal rate is met at the optimal utilization and the maximum at one, along
      a straight line on either side. */
  function RateAt(bank: BankState, u: nat): int
    requires RateFits(bank, u)
  {
    var optimal := bank.optimalUtilization;
    if u > optimal then
      var rise := bank.maxBorrowRate - bank.optimalBorrowRate;
      bank.optimalBorrowRate + (u - optimal) * Slope(rise, 1_000_000 - optimal) / 1_000_000
    else u * Slope(bank.optimalBorrowRate, optimal) / 1_000_000
  }

  lemma RateInNumbers(bank: BankState, u: u128)
    ensures BorrowRate(bank, u).Ok? <==> RateFits(bank, u)
    ensures RateFits(bank, u) ==> BorrowRate(bank, u).value == RateAt(bank, u)
  {
  }

  /** A year is 365 days of 86,400 seconds; rates are in millionths. */
  lemma GrowthInNumbers(index: u128, rate: u128)
    ensures IndexGrowth(index, rate).Ok? <==> index * rate <= U128_MAX
    ensures index * rate <= U128_MAX ==> IndexGrowth(index, rate).value == index * rate / (365 * 86_400 * 1_000_000)
  {
    MulNonNegative(index, rate);
    DivDiv(index * rate, ONE_YEAR, BANK_INTEREST_PRECISION);
  }

  /** The utilization of a bank, where its totals can be expressed in tokens. */
  function BankUtilization(bank: BankState): nat {
    UtilizationOf(TokensOf(bank.depositBalance, bank, Deposit), TokensOf(bank.borrowBalance, bank, Borrow))
  }

  predicate UtilizationFits(bank: BankState) {
    && TokensFit(bank.depositBalance, bank, Deposit) && TokensFit(bank.borrowBalance, bank, Borrow)
    && TokensOf(bank.borrowBalance, bank, Borrow) * 1_000_000 <= U128_MAX
  }

  predicate InterestFits(bank: BankState, now: int) {
    && UtilizationFits(bank)
    && var u := BankUtilization(bank);
       u == 0
       || (&& RateFits(bank, u)
           && 0 <= now <= U64_MAX && bank.lastUpdated <= now
           && RatePeriodFits(bank, RateAt(bank, u) * (now - bank.lastUpdated), u))
  }

  /** `m` is the borrow rate times the seconds elapsed. */
  predicate RatePeriodFits(bank: BankState, m: int, u: nat) {
    && m <= U128_MAX && m * u <= U128_MAX
    && bank.cumulativeBorrowInterest * m <= U128_MAX
    && bank.cumulativeDepositInterest * (m * u / 1_000_000) <= U128_MAX
  }

  /** Interest on both indices for `m`: borrowers are charged one unit more. */
  function InterestFor(bank: BankState, m: int, u: nat): (int, int) {
    (bank.cumulativeBorrowInterest * m / (365 * 86_400 * 1_000_000) + 1,
     bank.cumulativeDepositInterest * (m * u / 1_000_000) / (365 * 86_400 * 1_000_000))
  }

  lemma BankUtilizationInNumbers(bank: BankState)
    ensures UtilizationFits(bank)
            <==> && DepositTokens(bank).Ok? && BorrowTokens(bank).Ok?
                 && Utilization(DepositTokens(bank).value, BorrowTokens(bank).value).Ok?
    ensures UtilizationFits(bank) ==>
              Utilization(DepositTokens(bank).value, BorrowTokens(bank).value) == Ok(BankUtilization(bank))
  {
    TokenAmountInNumbers(bank.depositBalance, bank, Deposit);
    TokenAmountInNumbers(bank.borrowBalance, bank, Borrow);
    hide GetTokenAmount, TokensOf, Utilization, UtilizationOf;
    if TokensFit(bank.depositBalance, bank, Deposit) && TokensFit(bank.borrowBalance, bank, Borrow) {
      UtilizationInNumbers(DepositTokens(bank).value, BorrowTokens(bank).value);
    }
  }

  /** When interest can be computed, and what it is. */
  lemma InterestInNumbers(bank: BankState, now: int)
    ensures CalculateAccumulatedInterest(bank, now).Ok? <==> InterestFits(bank, now)
    ensures InterestFits(bank, now) ==>
              var i, u := CalculateAccumulatedInterest(bank, now).value, BankUtilization(bank);
              && (u == 0 ==> i == InterestAccumulated(0, 0))
              && (u != 0 ==> (i.borrowInterest, i.depositInterest)
                             == InterestFor(bank, RateAt(bank, u) * (now - bank.lastUpdated), u))
  {
    BankUtilizationInNumbers(bank);
    hide UtilizationFits, BankUtilization, DepositTokens, BorrowTokens, Utilization, UtilizationOf;
    hide BorrowRate, RateFits, RateAt, RatePeriodFits, InterestFor, InterestOverPeriod;
    if UtilizationFits(bank) && BankUtilization(bank) != 0 {
      var u := BankUtilization(bank);
      RateInNumbers(bank, u);
      if RateFits(bank, u) && 0 <= now <= U64_MAX && bank.lastUpdated <= now {
        PeriodInNumbers(bank, BorrowRate(bank, u).value, now - bank.lastUpdated, u);
      }
    }
  }

  /** The steps after the rate, for a rate and an elapsed time. */
  lemma PeriodInNumbers(bank: BankState, rate: u128, elapsed: u128, u: u128)
    ensures InterestOverPeriod(bank, rate, elapsed, u).Ok? <==> RatePeriodFits(bank, rate * elapsed, u)
    ensures RatePeriodFits(bank, rate * elapsed, u) ==>
              var i := InterestOverPeriod(bank, rate, elapsed, u).value;
              (i.borrowInterest, i.depositInterest) == InterestFor(bank, rate * elapsed, u)
  {
    Product(rate, elapsed);
    if rate * elapsed <= U128_MAX {
      Product(rate * elapsed, u);
      GrowthInNumbers(bank.cumulativeBorrowInterest, rate * elapsed);
      GrowthBelowMax(bank.cumulativeBorrowInterest, rate * elapsed);
      if rate * elapsed * u <= U128_MAX {
        GrowthInNumbers(bank.cumulativeDepositInterest, rate * elapsed * u / 1_000_000);
      }
    }
    hide IndexGrowth, CheckedMul;
  }

  lemma Product(a: u128, b: u128)
    ensures 0 <= a * b
    ensures CheckedMul(a, b) == if a * b <= U128_MAX then Ok(a * b) else Err(Overflow)
  {
  }

  lemma GrowthBelowMax(index: u128, m: nat)
    ensures index * m <= U128_MAX ==> index * m / (365 * 86_400 * 1_000_000) + 1 <= U128_MAX
  {
    MulNonNegative(index, m);
  }

  /** An accrual moves both indices and the time stamp where depositors are credited
      anything and borrowers charged more than the one unit, and nothing otherwise. */
  lemma AccrualInNumbers(bank: BankState, now: int)
    ensures Accrue(bank, now).Ok? ==> InterestFits(bank, now)
    ensures InterestFits(bank, now) ==>
              var u := BankUtilization(bank);
              if u == 0 then Accrue(bank, now) == Ok(bank)
              else
                var (borrowInterest, depositInterest) :=
                    InterestFor(bank, RateAt(bank, u) * (now - bank.lastUpdated), u);
                var depositIndex := bank.cumulativeDepositInterest + depositInterest;
                var borrowIndex := bank.cumulativeBorrowInterest + borrowInterest;
                if depositInterest <= 0 || borrowInterest <= 1 then Accrue(bank, now) == Ok(bank)
                else
                  && (Accrue(bank, now).Ok? <==> depositIndex <= U128_MAX && borrowIndex <= U128_MAX)
                  && (Accrue(bank, now).Ok? ==>
                        Accrue(bank, now).value
                        == bank.(cumulativeDepositInterest := depositIndex, cumulativeBorrowInterest := borrowIndex,
                                 lastUpdated := now))
  {
    InterestInNumbers(bank, now);
    hide CalculateAccumulatedInterest, BankUtilization, UtilizationFits, RateFits, RateAt, RatePeriodFits, InterestFor;
  }

  // ------------------------------------------------------- instructions

  function Rebooked(l: State, i: nat, books: Books): State
    requires i < |l.accounts|
  {
    l.(bank := books.bank, accounts := l.accounts[i := books.account])
  }

  /** Without the flag, and on an account of the same side, the whole amount moves. */
  lemma FullAmounts()
    ensures forall bank, account: Account, amount, reduceOnly, against ::
              !reduceOnly || account.Kind() != against ==>
                    AmountMoved(bank, account, amount, reduceOnly, against) == amount
  {
  }

  /** A deposit succeeds exactly if it asks for something, interest accrues, the user
      exists, the cap can be computed if it applies, the booking goes through, and the
      tokens arrive. The vault then gains what the account is booked. */
  lemma DepositOutcome(l: State, user: nat, amount: u64, reduceOnly: bool, now: int, externalOk: bool)
    ensures var ix := DepositFunds(user, amount, reduceOnly, now, externalOk);
            && (Step(l, ix).Ok?
                <==> && amount != 0 && externalOk && Accrue(l.bank, now).Ok?
                     && IsUser(l, user)
                     && var bank, account := Accrue(l.bank, now).value, l.accounts[user];
                     && (reduceOnly && account.kind == Borrow ==> TokensFit(account.balance, bank, Borrow))
                     && UpdateBooks(AmountMoved(bank, account, amount, reduceOnly, Borrow), Deposit,
                                    Books(bank, account)).Ok?)
            && (Step(l, ix).Ok? ==>
                  var bank, account := Accrue(l.bank, now).value, l.accounts[user];
                  var moved := AmountMoved(bank, account, amount, reduceOnly, Borrow);
                  Step(l, ix).value
                  == Rebooked(l, user, UpdateBooks(moved, Deposit, Books(bank, account)).value)
                     .(vault := l.vault + moved))
            && (Step(l, ix).Ok? && (!reduceOnly || l.accounts[user].kind == Deposit) ==>
                  Step(l, ix).value.vault == l.vault + amount)
  {
    FullAmounts();
    hide Accrue, UpdateBooks, CappedAmount, AmountMoved, TokensFit;
    if Accrue(l.bank, now).Ok? && IsUser(l, user) {
      CappedAmountInNumbers(Accrue(l.bank, now).value, l.accounts[user], amount, reduceOnly, Borrow);
    }
  }

  /** A withdrawal, likewise, exactly if besides the user meets the margin and the vault
      holds the tokens; it then loses what the account is booked. */
  lemma WithdrawalOutcome(l: State, user: nat, amount: u64, reduceOnly: bool, now: int, meetsMargin: bool)
    ensures var ix := WithdrawFunds(user, amount, reduceOnly, now, meetsMargin);
            && (Step(l, ix).Ok?
                <==> && meetsMargin && Accrue(l.bank, now).Ok?
                     && IsUser(l, user)
                     && var bank, account := Accrue(l.bank, now).value, l.accounts[user];
                     && (reduceOnly && account.kind == Deposit ==> TokensFit(account.balance, bank, Deposit))
                     && var moved := AmountMoved(bank, account, amount, reduceOnly, Deposit);
                     && UpdateBooks(moved, Borrow, Books(bank, account)).Ok? && moved <= l.vault)
            && (Step(l, ix).Ok? ==>
                  var bank, account := Accrue(l.bank, now).value, l.accounts[user];
                  var moved := AmountMoved(bank, account, amount, reduceOnly, Deposit);
                  Step(l, ix).value
                  == Rebooked(l, user, UpdateBooks(moved, Borrow, Books(bank, account)).value)
                     .(vault := l.vault - moved))
            && (Step(l, ix).Ok? && (!reduceOnly || l.accounts[user].kind == Borrow) ==>
                  Step(l, ix).value.vault == l.vault - amount)
  {
    FullAmounts();
    hide Accrue, UpdateBooks, CappedAmount, AmountMoved, TokensFit;
    if Accrue(l.bank, now).Ok? && IsUser(l, user) {
      CappedAmountInNumbers(Accrue(l.bank, now).value, l.accounts[user], amount, reduceOnly, Deposit);
    }
  }

  /** Two bookings of the same tokens: first into or out of `i`, then the other way
      with `j`. */
  predicate BothBook(bank: BankState, first: Account, amount: u128, direction: BalanceType,
                     second: Account, amount': u128, direction': BalanceType) {
    var booked := UpdateBooks(amount, direction, Books(bank, first));
    booked.Ok? && UpdateBooks(amount', direction', Books(booked.value.bank, second)).Ok?
  }

  function BothBooked(l: State, bank: BankState, i: nat, amount: u128, direction: BalanceType,
                      j: nat, amount': u128, direction': BalanceType): State
    requires i < |l.accounts| && j < |l.accounts| && i != j
    requires BothBook(bank, l.accounts[i], amount, direction, l.accounts[j], amount', direction')
  {
    var first := UpdateBooks(amount, direction, Books(bank, l.accounts[i])).value;
    Rebooked(Rebooked(l, i, first), j, UpdateBooks(amount', direction', Books(first.bank, l.accounts[j])).value)
  }

  /** A transfer succeeds exactly between two different users, if interest accrues, the
      margin is met and both bookings go through; the vault is left alone. */
  lemma TransferOutcome(l: State, from: nat, to: nat, amount: u64, now: int, meetsMargin: bool)
    ensures var ix := TransferDeposit(from, to, amount, now, meetsMargin);
            && (Step(l, ix).Ok?
                <==> && from != to && IsUser(l, from) && IsUser(l, to) && meetsMargin && Accrue(l.bank, now).Ok?
                     && BothBook(Accrue(l.bank, now).value, l.accounts[from], amount, Borrow,
                                 l.accounts[to], amount, Deposit))
            && (Step(l, ix).Ok? ==>
                  Step(l, ix).value
                  == BothBooked(l, Accrue(l.bank, now).value, from, amount, Borrow, to, amount, Deposit))
  {
    hide Accrue, UpdateBooks;
  }

  /** A settlement succeeds exactly between a user and a pool: at once if there is
      nothing to settle or the pool holds nothing; a gain if the user authorised it, and
      as far as the pool goes; a loss in full. What is paid leaves the unsettled pnl. */
  lemma SettlementOutcome(l: State, user: nat, pool: nat, unsettled: i128, authorised: bool)
    ensures var settled := Settled(l, user, pool, unsettled, authorised);
            if !IsUser(l, user) || !IsPool(l, pool) then settled == Err(NoSuchAccount)
            else if unsettled == 0 then settled == Ok(Settlement(l, 0, 0))
            else if unsettled < 0 then
              && Abs(unsettled) <= U128_MAX
              && var paid := Abs(unsettled);
              && (settled.Ok? <==> BothBook(l.bank, l.accounts[pool], paid, Deposit, l.accounts[user], paid, Borrow))
              && (settled.Ok? ==>
                    settled.value
                    == Settlement(BothBooked(l, l.bank, pool, paid, Deposit, user, paid, Borrow), 0, paid))
            else if !authorised then settled == Err(UserMustSettleTheirOwnPositiveUnsettledPNL)
            else if !TokensFit(l.accounts[pool].balance, l.bank, Deposit) then settled.Err?
            else
              var held := TokensOf(l.accounts[pool].balance, l.bank, Deposit);
              var paid := if unsettled < held then unsettled else held;
              if held == 0 then settled == Ok(Settlement(l, unsettled, 0))
              else
                && paid <= U128_MAX
                && (settled.Ok? <==> BothBook(l.bank, l.accounts[user], paid, Deposit, l.accounts[pool], paid, Borrow))
                && (settled.Ok? ==>
                      settled.value
                      == Settlement(BothBooked(l, l.bank, user, paid, Deposit, pool, paid, Borrow),
                                    unsettled - paid, paid))
  {
    hide UpdateBooks, GetTokenAmount, TokensOf, TokensFit;
    if IsPool(l, pool) {
      TokenAmountInNumbers(l.accounts[pool].balance, l.bank, Deposit);
      FitsTokens(l.accounts[pool].balance, l.bank, Deposit);
    }
  }

  lemma FitsTokens(balance: u128, bank: BankState, kind: BalanceType)
    ensures TokensFit(balance, bank, kind) <==> bank.decimals <= 16 && balance * bank.Index(kind) <= U128_MAX
  {
  }

  /** The liquidator's part of a fee is booked first, if it comes to anything. */
  predicate PartBooks(l: State, liquidator: nat, part: u128)
    requires liquidator < |l.accounts|
  {
    part == 0 || UpdateBooks(part, Deposit, Books(l.bank, l.accounts[liquidator])).Ok?
  }

  function PartBooked(l: State, liquidator: nat, part: u128): State
    requires liquidator < |l.accounts| && PartBooks(l, liquidator, part)
  {
    if part == 0 then l
    else Rebooked(l, liquidator, UpdateBooks(part, Deposit, Books(l.bank, l.accounts[liquidator])).value)
  }

  /** A fee is collected exactly from a user who is no borrower, if it fits 64 bits, can
      be divided, is booked to the liquidator in part and to the user in full, and the
      vault holds the rest, which goes to the insurance fund. */
  lemma FeeOutcome(l: State, user: nat, liquidator: nat, fee: u128, shareDenominator: u64)
    ensures var ix := CollectLiquidationFee(user, liquidator, fee, shareDenominator);
            && (Step(l, ix).Ok?
                <==> && IsUser(l, user) && IsUser(l, liquidator)
                     && (l.accounts[user].kind == Deposit || l.accounts[user].balance == 0)
                     && fee <= U64_MAX && shareDenominator != 0
                     && var part := fee / shareDenominator;
                     && 0 <= part <= fee && PartBooks(l, liquidator, part)
                     && var l1 := PartBooked(l, liquidator, part);
                     && UpdateBooks(fee, Borrow, Books(l1.bank, l1.accounts[user])).Ok?
                     && fee - part <= l.vault)
            && (Step(l, ix).Ok? ==>
                  var part := fee / shareDenominator;
                  var l1 := PartBooked(l, liquidator, part);
                  Step(l, ix).value
                  == Rebooked(l1, user, UpdateBooks(fee, Borrow, Books(l1.bank, l1.accounts[user])).value)
                     .(vault := l.vault - (fee - part)))
  {
    hide UpdateBooks;
    if shareDenominator != 0 {
      DivFloor(fee, shareDenominator);
      MulMono(1, shareDenominator, fee / shareDenominator);
    }
  }

  /** A new account holds nothing: a user starts as a depositor. */
  lemma OpeningOutcome(l: State, isPool: bool)
    ensures Step(l, OpenAccount(isPool))
            == Ok(State(l.bank, l.accounts + [if isPool then Pool(0) else User(Deposit, 0)], l.vault))
  {
  }

  /** Fees are withdrawn exactly up to the market's limit and what the vault holds. */
  lemma FeeWithdrawalOutcome(l: State, amount: u64, maxWithdraw: u128)
    ensures Step(l, WithdrawFees(amount, maxWithdraw))
            == if amount > maxWithdraw then Err(AdminWithdrawTooLarge)
               else if amount > l.vault then Err(External)
               else Ok(l.(vault := l.vault - amount))
  {
  }
}
