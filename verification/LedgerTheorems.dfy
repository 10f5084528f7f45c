/** The main results about the ledger, over every reachable state. */
module LedgerTheorems {
  import opened Arithmetic
  import opened Checked
  import opened BankMath
  import opened Booking
  import opened Ledger
  import opened LedgerLaws

  // ------------------------------------------------------- conservation

  /** In every run, borrows add up exactly; deposits are overstated by twice what
      positive settlements took out of PnL pools, because the pool's decrease
      adds. So the books balance exactly when nothing was ever taken from a pool. */
  lemma Conservation(l0: State, ixs: seq<Instruction>)
    requires Initial(l0)
    ensures var l := Run(l0, ixs);
            && SumPart(l.accounts, Borrow) == l.bank.borrowBalance
            && SumPart(l.accounts, Deposit) == l.bank.depositBalance + 2 * RunPoolPaid(l0, ixs)
            && (Conserved(l) <==> RunPoolPaid(l0, ixs) == 0)
  {
    RunEffect(l0, ixs);
  }

  /** One instruction keeps balanced books balanced exactly when it takes nothing
      out of a pool. */
  lemma ConservedStepIff(l: State, ix: Instruction)
    requires l.bank.WellFormed() && Conserved(l) && Step(l, ix).Ok?
    ensures Conserved(Apply(l, ix)) <==> PoolPaid(l, ix) == 0
  {
    hide Step, PoolPaid;
    StepEffect(l, ix);
  }

  /** What the pool check in settle_pnl can see before paying: the pool holds
      tokens, and the payment empties it or is worth at least one balance unit. */
  predicate TakesFromPool(l: State, ix: Instruction) {
    && ix.SettlePnl? && ix.unsettled > 0 && IsPool(l, ix.pool)
    && GetTokenAmount(l.accounts[ix.pool].balance, l.bank, Deposit).Ok?
    && var poolTokens := GetTokenAmount(l.accounts[ix.pool].balance, l.bank, Deposit).value;
    && poolTokens > 0
    && (ix.unsettled >= poolTokens || ix.unsettled * l.bank.Precision() >= l.bank.cumulativeDepositInterest)
  }

  lemma TakesFromPoolIff(l: State, ix: Instruction)
    requires l.bank.WellFormed() && Step(l, ix).Ok?
    ensures PoolPaid(l, ix) > 0 <==> TakesFromPool(l, ix)
  {
    if ix.SettlePnl? && ix.unsettled > 0 && IsPool(l, ix.pool) {
      var balance := l.accounts[ix.pool].balance;
      PoolSideOk(l, ix);
      var poolTokens := GetTokenAmount(balance, l.bank, Deposit).value;
      ZeroTokensIffZeroBalance(balance, l.bank, Deposit);
      if 0 < ix.unsettled < poolTokens {
        BankBalanceBounds(ix.unsettled, l.bank, Deposit);
        UnitsPositive(GetBankBalance(ix.unsettled, l.bank, Deposit).value, l.bank.cumulativeDepositInterest,
                      ix.unsettled * l.bank.Precision());
      }
    }
  }

  lemma PoolSideOk(l: State, ix: Instruction)
    requires Step(l, ix).Ok? && ix.SettlePnl? && ix.unsettled > 0
    ensures var pool := l.accounts[ix.pool];
            var poolTokens := GetTokenAmount(pool.balance, l.bank, Deposit);
            && poolTokens.Ok?
            && (poolTokens.value > 0 ==> PaymentFor(AmountToSettle(ix.unsettled, poolTokens.value), l.bank, pool).Ok?)
  {
    var poolTokens := GetTokenAmount(l.accounts[ix.pool].balance, l.bank, Deposit).value;
    if poolTokens > 0 {
      var paid := AmountToSettle(ix.unsettled, poolTokens);
      var l1 := Book(l, ix.user, paid, Deposit).value;
      BookingKeepsTerms(paid, Deposit, Books(l.bank, l.accounts[ix.user]));
      assert l1.accounts[ix.pool] == l.accounts[ix.pool];
      assert PaymentFor(paid, l1.bank, l1.accounts[ix.pool]).Ok?;
    }
  }

  lemma UnitsPositive(units: nat, index: nat, scaled: nat)
    requires units * index <= scaled < units * index + index
    ensures units > 0 <==> scaled >= index
  {
    if units > 0 {
      MulMono(1, units, index);
    }
  }

  // ------------------------------------------------------- solvency

  /** In every reachable state the vault and the loans cover the deposits the bank
      records, up to one unit of each index per booking, the growth of the
      deposit index, and the tokens withdraw_fees took without booking them. */
  lemma Solvency(l0: State, ixs: seq<Instruction>)
    requires Initial(l0)
    ensures var l := Run(l0, ixs);
            var p, id, ib := l0.bank.Precision(), l.bank.cumulativeDepositInterest, l.bank.cumulativeBorrowInterest;
            l.bank.depositBalance * id
            <= (l.vault + RunFees(l0, ixs)) * p + l.bank.borrowBalance * ib
               + RunBookings(l0, ixs) * (id + ib) + (id - BANK_CUMULATIVE_INTEREST_PRECISION)
  {
    hide Step;
    RunEffect(l0, ixs);
    assert NetOwed(l0.bank) == 0;
  }

  /** With interest, on both sides: what vault and loans hold beyond the recorded
      deposits is what the accruals of the run earned, charged less credited, up
      to the roundings of the bookings; and accruals lose no more in all than the
      growth of the deposit index. */
  lemma SurplusIsEarned(l0: State, ixs: seq<Instruction>)
    requires Initial(l0)
    ensures var l := Run(l0, ixs);
            var surplus := (l.vault + RunFees(l0, ixs)) * l0.bank.Precision() - NetOwed(l.bank);
            var slack := RunBookings(l0, ixs) * IndexSum(l.bank);
            && -slack <= surplus - RunEarned(l0, ixs) <= slack
            && RunEarned(l0, ixs) >= BANK_CUMULATIVE_INTEREST_PRECISION - l.bank.cumulativeDepositInterest
  {
    hide Step;
    RunEffect(l0, ixs);
    assert NetOwed(l0.bank) == 0;
  }

  /** While no interest has accrued the drift is bounded on both sides. */
  lemma SolvencyWithoutInterest(l0: State, ixs: seq<Instruction>)
    requires Initial(l0) && SameIndices(l0.bank, Run(l0, ixs).bank)
    ensures var l := Run(l0, ixs);
            var slack := RunBookings(l0, ixs) * (2 * BANK_CUMULATIVE_INTEREST_PRECISION);
            -slack <= (l.vault + RunFees(l0, ixs)) * l0.bank.Precision() - NetOwed(l.bank) <= slack
  {
    hide Step;
    RunEffect(l0, ixs);
    assert NetOwed(l0.bank) == 0;
    assert IndexSum(Run(l0, ixs).bank) == 2 * BANK_CUMULATIVE_INTEREST_PRECISION;
  }

  /** Solvency in terms of what the accounts themselves claim. */
  lemma ClaimsAreCovered(l0: State, ixs: seq<Instruction>)
    requires Initial(l0)
    ensures var l := Run(l0, ixs);
            var p, id, ib := l0.bank.Precision(), l.bank.cumulativeDepositInterest, l.bank.cumulativeBorrowInterest;
            SumPart(l.accounts, Deposit) * id
            <= (l.vault + RunFees(l0, ixs)) * p + SumPart(l.accounts, Borrow) * ib
               + RunBookings(l0, ixs) * (id + ib) + (id - BANK_CUMULATIVE_INTEREST_PRECISION)
               + 2 * RunPoolPaid(l0, ixs) * id
  {
    hide Step, PoolPaid, Run, RunPoolPaid, RunFees, RunBookings;
    Solvency(l0, ixs);
    Conservation(l0, ixs);
    AddClaims(Run(l0, ixs).bank.depositBalance, 2 * RunPoolPaid(l0, ixs), Run(l0, ixs).bank.cumulativeDepositInterest);
  }

  lemma AddClaims(recorded: nat, extra: nat, id: nat)
    ensures (recorded + extra) * id == recorded * id + extra * id
  {
  }

  // ------------------------------------------------------- errors that cannot happen

  /** Paying tokens a pool holds leaves nothing to put on its other side. */
  lemma PoolBookingKeepsType(amount: u128, direction: BalanceType, books: Books)
    requires books.account.Pool?
    requires direction == Deposit
             || (GetTokenAmount(books.account.balance, books.bank, Deposit).Ok?
                 && amount <= GetTokenAmount(books.account.balance, books.bank, Deposit).value)
    ensures UpdateBooks(amount, direction, books) != Err(CantUpdatePNLPoolBalanceType)
  {
  }

  /** No instruction ever tries to turn a PnL pool into a borrower. */
  lemma PoolTypeErrorUnreachable(l: State, ix: Instruction)
    ensures Step(l, ix) != Err(CantUpdatePNLPoolBalanceType)
  {
    hide UpdateBooks, Accrue, GetTokenAmount;
    match ix
    case OpenAccount(_) =>
    case WithdrawFees(_, _) =>
    case AccrueInterest(now) =>
      OtherErrors(l.bank, now, 0);
    case DepositFunds(user, amount, reduceOnly, now, _) =>
      UserSideError(l, now, user, amount, reduceOnly, Borrow, Deposit);
    case WithdrawFunds(user, amount, reduceOnly, now, _) =>
      UserSideError(l, now, user, amount, reduceOnly, Deposit, Borrow);
    case TransferDeposit(from, to, amount, now, _) =>
      OtherErrors(l.bank, now, 0);
      if IsUser(l, from) && IsUser(l, to) && from != to && Accrued(l, now).Ok? {
        var l1 := Accrued(l, now).value;
        UserBookError(l1, from, amount, Borrow);
        if Book(l1, from, amount, Borrow).Ok? {
          UserBookError(Book(l1, from, amount, Borrow).value, to, amount, Deposit);
        }
      }
    case SettlePnl(user, pool, unsettled, authorised) =>
      SettlementKeepsPoolType(l, user, pool, unsettled, authorised);
    case CollectLiquidationFee(user, liquidator, fee, shareDenominator) =>
      if IsUser(l, user) && IsUser(l, liquidator) && SplitFee(fee, shareDenominator).Ok? {
        var toLiquidator := SplitFee(fee, shareDenominator).value.toLiquidator;
        UserBookError(l, liquidator, toLiquidator, Deposit);
        UserBookError(l, user, fee, Borrow);
        if Book(l, liquidator, toLiquidator, Deposit).Ok? {
          UserBookError(Book(l, liquidator, toLiquidator, Deposit).value, user, fee, Borrow);
        }
      }
  }

  lemma SettlementKeepsPoolType(l: State, user: nat, pool: nat, unsettled: i128, authorised: bool)
    ensures Settled(l, user, pool, unsettled, authorised) != Err(CantUpdatePNLPoolBalanceType)
  {
    hide UpdateBooks;
    if IsUser(l, user) && IsPool(l, pool) {
      if unsettled < 0 {
        var paid := Abs(unsettled);
        PoolBookingKeepsType(paid, Deposit, Books(l.bank, l.accounts[pool]));
        if Book(l, pool, paid, Deposit).Ok? {
          UserBookError(Book(l, pool, paid, Deposit).value, user, paid, Borrow);
        }
      } else if unsettled > 0 && GetTokenAmount(l.accounts[pool].balance, l.bank, Deposit).Ok? {
        var paid := AmountToSettle(unsettled, GetTokenAmount(l.accounts[pool].balance, l.bank, Deposit).value);
        UserBookError(l, user, paid, Deposit);
        if Book(l, user, paid, Deposit).Ok? {
          var l1 := Book(l, user, paid, Deposit).value;
          KeepsTerms(paid, Deposit, Books(l.bank, l.accounts[user]));
          assert l1.accounts[pool] == l.accounts[pool];
          PoolBookingKeepsType(paid, Borrow, Books(l1.bank, l1.accounts[pool]));
        }
      }
    }
  }

  lemma KeepsTerms(amount: u128, direction: BalanceType, books: Books)
    requires UpdateBooks(amount, direction, books).Ok?
    ensures SameTerms(books.bank, UpdateBooks(amount, direction, books).value.bank)
  {
    BookingKeepsTerms(amount, direction, books);
  }

  lemma OtherErrors(bank: BankState, now: int, balance: u128)
    ensures Accrue(bank, now) != Err(CantUpdatePNLPoolBalanceType)
    ensures forall kind :: GetTokenAmount(balance, bank, kind) != Err(CantUpdatePNLPoolBalanceType)
  {
  }

  lemma UserBookingError(amount: u128, direction: BalanceType, books: Books)
    requires books.account.User?
    ensures UpdateBooks(amount, direction, books) != Err(CantUpdatePNLPoolBalanceType)
    ensures UpdateBooks(amount, direction, books).Ok? ==> UpdateBooks(amount, direction, books).value.account.User?
  {
    hide GetTokenAmount, GetBankBalance;
    UnitTypeErrors();
  }

  lemma UnitTypeErrors()
    ensures forall x, b, kind :: GetTokenAmount(x, b, kind) != Err(CantUpdatePNLPoolBalanceType)
    ensures forall x, b, kind :: GetBankBalance(x, b, kind) != Err(CantUpdatePNLPoolBalanceType)
  {
  }

  lemma UserBookError(l: State, i: nat, amount: u128, direction: BalanceType)
    requires IsUser(l, i)
    ensures Book(l, i, amount, direction) != Err(CantUpdatePNLPoolBalanceType)
    ensures Book(l, i, amount, direction).Ok? ==>
              var l' := Book(l, i, amount, direction).value;
              |l'.accounts| == |l.accounts| && forall j: nat :: IsUser(l, j) ==> IsUser(l', j)
  {
    hide UpdateBooks;
    UserBookingError(amount, direction, Books(l.bank, l.accounts[i]));
  }

  lemma UserSideError(l: State, now: int, user: nat, amount: u64, reduceOnly: bool, against: BalanceType,
                      direction: BalanceType)
    ensures Accrued(l, now) != Err(CantUpdatePNLPoolBalanceType)
    ensures Accrued(l, now).Ok? && IsUser(l, user) ==>
              var l1 := Accrued(l, now).value;
              && l1.accounts == l.accounts
              && var booked := CappedAmount(l1.bank, l1.accounts[user], amount, reduceOnly, against);
              && booked != Err(CantUpdatePNLPoolBalanceType)
              && (booked.Ok? ==> Book(l1, user, booked.value, direction) != Err(CantUpdatePNLPoolBalanceType))
  {
    hide Accrue, UpdateBooks, GetTokenAmount;
    OtherErrors(l.bank, now, 0);
    if Accrued(l, now).Ok? && IsUser(l, user) {
      var l1 := Accrued(l, now).value;
      OtherErrors(l1.bank, now, l1.accounts[user].balance);
      var booked := CappedAmount(l1.bank, l1.accounts[user], amount, reduceOnly, against);
      if booked.Ok? {
        UserBookError(l1, user, booked.value, direction);
      }
    }
  }

  // ------------------------------------------------------- settlement and reduce-only

  /** A settlement moves the unsettled pnl toward zero by exactly the amount both
      ledger legs carry, and touches no other account and no vault token. */
  lemma SettlementIsExact(l: State, user: nat, pool: nat, unsettled: i128, authorised: bool)
    requires l.bank.WellFormed() && Settled(l, user, pool, unsettled, authorised).Ok?
    ensures var settlement := Settled(l, user, pool, unsettled, authorised).value;
            var l', paid := settlement.state, settlement.paid;
            && Abs(settlement.unsettled) + paid == Abs(unsettled)
            && (settlement.unsettled == 0 || (settlement.unsettled > 0 && unsettled > 0))
            && (paid == 0 ==> l' == l)
            && (paid != 0 ==>
                  var (giver, taker) := if unsettled > 0 then (pool, user) else (user, pool);
                  && Book(l, taker, paid, Deposit).Ok?
                  && Book(Book(l, taker, paid, Deposit).value, giver, paid, Borrow) == Ok(l'))
            && (forall j :: 0 <= j < |l.accounts| && j != user && j != pool ==> l'.accounts[j] == l.accounts[j])
            && l'.vault == l.vault
            && -2 * IndexSum(l.bank) <= NetOwed(l'.bank) - NetOwed(l.bank) <= 2 * IndexSum(l.bank)
  {
    hide UpdateBooks, GetTokenAmount, PoolPaid;
    SettleEffect(l, user, pool, unsettled, authorised);
    var paid := Settled(l, user, pool, unsettled, authorised).value.paid;
    if paid != 0 {
      var (giver, taker) := if unsettled > 0 then (pool, user) else (user, pool);
      var l1 := Book(l, taker, paid, Deposit).value;
      KeepsTerms(paid, Deposit, Books(l.bank, l.accounts[taker]));
      KeepsTerms(paid, Borrow, Books(l1.bank, l1.accounts[giver]));
    }
  }

  /** A reduce-only amount never crosses to the other side: the account keeps its
      type, and its balance does not grow. */
  lemma ReduceOnlyNeverFlips(bank: BankState, account: Account, amount: u64, booked: u64, against: BalanceType,
                             direction: BalanceType)
    requires bank.WellFormed() && account.User? && account.kind == against && direction != against
    requires CappedAmount(bank, account, amount, true, against) == Ok(booked)
    requires UpdateBooks(booked, direction, Books(bank, account)).Ok?
    ensures booked <= amount && booked <= GetTokenAmount(account.balance, bank, against).value
    ensures var after := UpdateBooks(booked, direction, Books(bank, account)).value.account;
            after.User? && after.kind == account.kind && after.balance <= account.balance
  {
    UserBookingClosedForm(booked, direction, Books(bank, account));
  }

  /** A reduce-only deposit ends as a deposit exactly when the account already was
      one: the flag caps nothing on an account of the same side. */
  lemma ReduceOnlyDeposit(l: State, user: nat, amount: u64, now: int, externalOk: bool)
    requires l.bank.WellFormed()
    requires Deposited(l, user, amount, true, now, externalOk).Ok?
    ensures var l' := Deposited(l, user, amount, true, now, externalOk).value;
            var before, after := l.accounts[user], l'.accounts[user];
            && (after.Kind() == Deposit <==> before.Kind() == Deposit)
            && (before.Kind() == Borrow ==> after.balance <= before.balance)
            && (before.Kind() == Deposit ==> l'.vault == l.vault + amount)
  {
    hide UpdateBooks, Accrue, GetTokenAmount;
    AccrueEffect(l, now);
    var l1 := Accrued(l, now).value;
    var booked := CappedAmount(l1.bank, l1.accounts[user], amount, true, Borrow).value;
    var books := Books(l1.bank, l1.accounts[user]);
    if books.account.Kind() == Borrow {
      ReduceOnlyNeverFlips(l1.bank, books.account, amount, booked, Borrow, Deposit);
    } else {
      UserBookingClosedForm(booked, Deposit, books);
    }
  }

  /** A reduce-only withdrawal ends as a borrow exactly when the account already
      was one. */
  lemma ReduceOnlyWithdrawal(l: State, user: nat, amount: u64, now: int, meetsMargin: bool)
    requires l.bank.WellFormed()
    requires Withdrawn(l, user, amount, true, now, meetsMargin).Ok?
    ensures var l' := Withdrawn(l, user, amount, true, now, meetsMargin).value;
            var before, after := l.accounts[user], l'.accounts[user];
            && (after.Kind() == Borrow <==> before.Kind() == Borrow)
            && (before.Kind() == Deposit ==> after.balance <= before.balance)
            && (before.Kind() == Borrow ==> l'.vault == l.vault - amount)
  {
    hide UpdateBooks, Accrue, GetTokenAmount;
    AccrueEffect(l, now);
    var l1 := Accrued(l, now).value;
    var booked := CappedAmount(l1.bank, l1.accounts[user], amount, true, Deposit).value;
    var books := Books(l1.bank, l1.accounts[user]);
    if books.account.Kind() == Deposit {
      ReduceOnlyNeverFlips(l1.bank, books.account, amount, booked, Deposit, Borrow);
    } else {
      UserBookingClosedForm(booked, Borrow, books);
    }
  }

  /** The liquidator's and the insurance fund's parts are the whole fee. */
  lemma FeeSplitIsExact(fee: u128, shareDenominator: u64)
    requires SplitFee(fee, shareDenominator).Ok?
    ensures var split := SplitFee(fee, shareDenominator).value;
            && split.toLiquidator + split.toInsurance == fee
            && split.toLiquidator * shareDenominator <= fee < (split.toLiquidator + 1) * shareDenominator
  {
    DivFloor(fee, shareDenominator);
  }
}
