/** Concrete runs: what the pool's decrease and interest accrual can break. */
module LedgerExamples {
  import opened Arithmetic
  import opened Checked
  import opened BankMath
  import opened Booking
  import opened Ledger
  import opened LedgerLaws
  import opened Outcomes

  /** A quote bank at its initial indices. */
  function QuoteBank(deposits: u128, borrows: u128): BankState {
    BankState(6, 800_000, 100_000, 1_000_000, deposits, borrows,
              BANK_CUMULATIVE_INTEREST_PRECISION, BANK_CUMULATIVE_INTEREST_PRECISION, 0)
  }

  /** One user with a deposit and one PnL pool. */
  function Snapshot(deposits: u128, user: u128, pool: u128): State {
    State(QuoteBank(deposits, 0), [User(Deposit, user), Pool(pool)], 100)
  }

  lemma UnitPrice(x: u128, bank: BankState, kind: BalanceType)
    requires bank == QuoteBank(bank.depositBalance, bank.borrowBalance)
    requires x <= 10_000_000_000
    ensures GetBankBalance(x, bank, Deposit) == Ok(x)
    ensures GetTokenAmount(x, bank, kind) == Ok(x)
    ensures x != 0 ==> GetBankBalance(x, bank, Borrow) == Ok(x + 1)
  {
    Pow10Values();
    assert bank.Precision() == 10_000_000_000;
    assert x * 10_000_000_000 / 10_000_000_000 == x;
  }

  function UserPaysIntoPool(): Instruction { SettlePnl(0, 1, -50, true) }

  function PoolPaysUser(amount: i128): Instruction { SettlePnl(0, 1, amount, true) }

  lemma LossIsBooked()
    ensures Step(Snapshot(100, 100, 0), UserPaysIntoPool()) == Ok(Snapshot(100, 50, 50))
  {
    UnitPrice(0, QuoteBank(100, 0), Deposit);
    UnitPrice(50, QuoteBank(100, 0), Deposit);
    UnitPrice(50, QuoteBank(150, 0), Deposit);
    UnitPrice(100, QuoteBank(150, 0), Deposit);
    UnitPrice(100, QuoteBank(100, 0), Deposit);
    UnitPrice(0, QuoteBank(100, 0), Borrow);
    assert Book(Snapshot(100, 100, 0), 1, 50, Deposit) == Ok(Snapshot(150, 100, 50)) by {
      assert Snapshot(100, 100, 0).accounts[1 := Pool(50)] == [User(Deposit, 100), Pool(50)];
    }
    assert Book(Snapshot(150, 100, 50), 0, 50, Borrow) == Ok(Snapshot(100, 50, 50)) by {
      assert Snapshot(150, 100, 50).accounts[0 := User(Deposit, 50)] == [User(Deposit, 50), Pool(50)];
    }
  }

  /** Paying everything out of a pool doubles it. */
  lemma GainDoublesPool(user: u128, pool: u128)
    requires 0 < pool <= 1000 && user <= 1000
    ensures Step(Snapshot(100, user, pool), PoolPaysUser(pool)) == Ok(Snapshot(100, user + pool, 2 * pool))
  {
    var paid := 100 + pool;
    UnitPrice(pool, QuoteBank(100, 0), Deposit);
    UnitPrice(pool, QuoteBank(paid, 0), Deposit);
    UnitPrice(100, QuoteBank(100, 0), Deposit);
    UnitPrice(0, QuoteBank(100, 0), Borrow);
    hide GetTokenAmount, GetBankBalance;
    assert Book(Snapshot(100, user, pool), 0, pool, Deposit) == Ok(Snapshot(paid, user + pool, pool)) by {
      assert Snapshot(100, user, pool).accounts[0 := User(Deposit, user + pool)]
          == [User(Deposit, user + pool), Pool(pool)];
    }
    assert Book(Snapshot(paid, user + pool, pool), 1, pool, Borrow) == Ok(Snapshot(100, user + pool, 2 * pool)) by {
      assert Snapshot(paid, user + pool, pool).accounts[1 := Pool(2 * pool)]
          == [User(Deposit, user + pool), Pool(2 * pool)];
    }
  }

  function Empty(): State {
    State(QuoteBank(0, 0), [], 0)
  }

  function Deposit100(): Instruction { DepositFunds(0, 100, false, 0, true) }

  lemma FirstDeposit()
    ensures Run(Empty(), [OpenAccount(false), OpenAccount(true), Deposit100()]) == Snapshot(100, 100, 0)
  {
    var l1 := State(QuoteBank(0, 0), [User(Deposit, 0)], 0);
    var l2 := State(QuoteBank(0, 0), [User(Deposit, 0), Pool(0)], 0);
    assert Apply(Empty(), OpenAccount(false)) == l1;
    assert Apply(l1, OpenAccount(true)) == l2;
    UnitPrice(0, QuoteBank(0, 0), Deposit);
    UnitPrice(0, QuoteBank(0, 0), Borrow);
    UnitPrice(100, QuoteBank(0, 0), Deposit);
    assert Accrued(l2, 0) == Ok(l2);
    assert l2.accounts[0 := User(Deposit, 100)] == [User(Deposit, 100), Pool(0)];
    assert Apply(l2, Deposit100()) == Snapshot(100, 100, 0);
    RunThree(Empty(), OpenAccount(false), OpenAccount(true), Deposit100());
  }

  lemma RunThree(l: State, a: Instruction, b: Instruction, c: Instruction)
    ensures Run(l, [a, b, c]) == Apply(Apply(Apply(l, a), b), c)
  {
    hide Apply;
    var l1, l2 := Apply(l, a), Apply(Apply(l, a), b);
    assert [a, b, c][1..] == [b, c];
    assert [b, c][1..] == [c];
    assert [c][1..] == [];
    assert Run(l2, [c]) == Apply(l2, c);
    assert Run(l1, [b, c]) == Run(l2, [c]);
  }

  lemma {:induction false} RunAppend(l: State, first: seq<Instruction>, second: seq<Instruction>)
    ensures Run(l, first + second) == Run(Run(l, first), second)
    decreases |first|
  {
    hide Apply;
    if first == [] {
      assert first + second == second;
    } else {
      assert (first + second)[1..] == first[1..] + second;
      RunAppend(Apply(l, first[0]), first[1..], second);
    }
  }

  /** Conservation is false of the program: one deposit, one realised loss and two
      settled gains leave accounts claiming four times what the bank records, and
      the user's own balance can no longer be withdrawn. */
  lemma PoolBreaksConservation()
    ensures var ixs := [OpenAccount(false), OpenAccount(true), Deposit100()]
                       + [UserPaysIntoPool(), PoolPaysUser(50), PoolPaysUser(100)];
            var l := Run(Empty(), ixs);
            && Initial(Empty())
            && l.bank.depositBalance == 100 && SumPart(l.accounts, Deposit) == 400 && !Conserved(l)
            && l.accounts[0] == User(Deposit, 200)
            && Step(l, WithdrawFunds(0, 200, false, 0, true)) == Err(BalanceUnderflow)
  {
    var l := Snapshot(100, 200, 200);
    FirstDeposit();
    LossIsBooked();
    GainDoublesPool(50, 50);
    GainDoublesPool(100, 100);
    RunThree(Snapshot(100, 100, 0), UserPaysIntoPool(), PoolPaysUser(50), PoolPaysUser(100));
    RunAppend(Empty(), [OpenAccount(false), OpenAccount(true), Deposit100()],
              [UserPaysIntoPool(), PoolPaysUser(50), PoolPaysUser(100)]);
    WithdrawalFails();
    SumOfTwo(User(Deposit, 200), Pool(200), Deposit);
  }

  lemma SumOfTwo(a: Account, b: Account, kind: BalanceType)
    ensures SumPart([a, b], kind) == a.Part(kind) + b.Part(kind)
  {
    assert [a, b][1..] == [b];
    assert [b][1..] == [];
    assert SumPart([b], kind) == b.Part(kind);
  }

  lemma WithdrawalFails()
    ensures Step(Snapshot(100, 200, 200), WithdrawFunds(0, 200, false, 0, true)) == Err(BalanceUnderflow)
  {
    UnitPrice(100, QuoteBank(100, 0), Deposit);
    UnitPrice(200, QuoteBank(100, 0), Deposit);
    UnitPrice(0, QuoteBank(100, 0), Borrow);
    assert Accrued(Snapshot(100, 200, 200), 0) == Ok(Snapshot(100, 200, 200));
  }

  function Lend(): Instruction { DepositFunds(0, 10_000_000_000, false, 0, true) }

  function BorrowAll(): Instruction { WithdrawFunds(1, 9_999_999_999, false, 0, true) }

  function Lent(borrows: u128, borrower: Account, vault: nat): State {
    State(QuoteBank(10_000_000_000, borrows), [User(Deposit, 10_000_000_000), borrower], vault)
  }

  lemma FullyLent()
    ensures Run(Empty(), [OpenAccount(false), OpenAccount(false), Lend()]) == Lent(0, User(Deposit, 0), 10_000_000_000)
    ensures Apply(Lent(0, User(Deposit, 0), 10_000_000_000), BorrowAll())
            == Lent(10_000_000_000, User(Borrow, 10_000_000_000), 1)
  {
    var l1 := State(QuoteBank(0, 0), [User(Deposit, 0)], 0);
    var l2 := State(QuoteBank(0, 0), [User(Deposit, 0), User(Deposit, 0)], 0);
    var l3 := Lent(0, User(Deposit, 0), 10_000_000_000);
    assert Apply(Empty(), OpenAccount(false)) == l1;
    assert Apply(l1, OpenAccount(false)) == l2;
    FirstLent(l2, l3);
    LoanTaken(l3);
    RunThree(Empty(), OpenAccount(false), OpenAccount(false), Lend());
  }

  lemma FirstLent(l2: State, l3: State)
    requires l2 == State(QuoteBank(0, 0), [User(Deposit, 0), User(Deposit, 0)], 0)
    requires l3 == Lent(0, User(Deposit, 0), 10_000_000_000)
    ensures Apply(l2, Lend()) == l3
  {
    UnitPrice(0, QuoteBank(0, 0), Deposit);
    UnitPrice(0, QuoteBank(0, 0), Borrow);
    UnitPrice(10_000_000_000, QuoteBank(0, 0), Deposit);
    assert Accrued(l2, 0) == Ok(l2);
    assert l2.accounts[0 := User(Deposit, 10_000_000_000)] == l3.accounts;
  }

  lemma LoanTaken(l3: State)
    requires l3 == Lent(0, User(Deposit, 0), 10_000_000_000)
    ensures Apply(l3, BorrowAll()) == Lent(10_000_000_000, User(Borrow, 10_000_000_000), 1)
  {
    UnitPrice(0, l3.bank, Deposit);
    UnitPrice(0, l3.bank, Borrow);
    UnitPrice(10_000_000_000, l3.bank, Deposit);
    UnitPrice(9_999_999_999, l3.bank, Borrow);
    UnitPrice(10_000_000_000, QuoteBank(10_000_000_000, 10_000_000_000), Deposit);
    UnitPrice(10_000_000_000, QuoteBank(10_000_000_000, 10_000_000_000), Borrow);
    assert Accrued(l3, 0) == Ok(l3);
    assert l3.accounts[1 := User(Borrow, 10_000_000_000)]
        == [User(Deposit, 10_000_000_000), User(Borrow, 10_000_000_000)];
  }

  /** Backing is not kept by accrual: one user lends, another borrows it all but one
      token, and a second later the borrows have outgrown the deposits. */
  lemma AccrualCanBreakBacking()
    ensures var ixs := [OpenAccount(false), OpenAccount(false), Lend()] + [BorrowAll()];
            && Initial(Empty())
            && Backed(Run(Empty(), ixs).bank)
            && Step(Run(Empty(), ixs), AccrueInterest(1)).Ok?
            && !Backed(Run(Empty(), ixs + [AccrueInterest(1)]).bank)
  {
    var opening := [OpenAccount(false), OpenAccount(false), Lend()];
    var l3, l4 := Lent(0, User(Deposit, 0), 10_000_000_000), Lent(10_000_000_000, User(Borrow, 10_000_000_000), 1);
    FullyLent();
    RunAppend(Empty(), opening, [BorrowAll()]);
    RunOne(l3, BorrowAll());
    RunAppend(Empty(), opening + [BorrowAll()], [AccrueInterest(1)]);
    RunOne(l4, AccrueInterest(1));
    FullUtilizationAccrual();
  }

  lemma RunOne(l: State, ix: Instruction)
    ensures Run(l, [ix]) == Apply(l, ix)
  {
    hide Apply;
    assert [ix][1..] == [];
    assert Run(Apply(l, ix), []) == Apply(l, ix);
  }

  lemma FullUtilizationAccrual()
    ensures var bank := QuoteBank(10_000_000_000, 10_000_000_000);
            && Backed(bank)
            && Accrue(bank, 1).Ok?
            && !Backed(Accrue(bank, 1).value)
  {
    Pow10Values();
    var bank := QuoteBank(10_000_000_000, 10_000_000_000);
    assert bank.Precision() == 10_000_000_000;
    assert DepositTokens(bank) == Ok(10_000_000_000);
    assert BorrowTokens(bank) == Ok(10_000_000_000);
    assert Utilization(10_000_000_000, 10_000_000_000) == Ok(1_000_000);
    assert BorrowRate(bank, 1_000_000) == Ok(1_000_000);
    assert IndexGrowth(10_000_000_000, 1_000_000) == Ok(317);
    assert Accrue(bank, 1)
        == Ok(bank.(cumulativeDepositInterest := 10_000_000_317, cumulativeBorrowInterest := 10_000_000_318,
                    lastUpdated := 1));
  }

  // ------------------------------------------------------- transfers, fees and plain deposits

  function TwoUsers(deposits: u128, borrows: u128, first: Account, second: Account, vault: nat): State {
    State(QuoteBank(deposits, borrows), [first, second], vault)
  }

  /** A transfer of more than its giver has leaves a borrow, rounded up by one unit. */
  lemma TransferGoesIntoDebt()
    ensures Step(TwoUsers(100, 0, User(Deposit, 40), User(Deposit, 60), 100), TransferDeposit(0, 1, 50, 0, true))
            == Ok(TwoUsers(110, 11, User(Borrow, 11), User(Deposit, 110), 100))
  {
    hide Step, UpdateBooks, Accrue;
    var l := TwoUsers(100, 0, User(Deposit, 40), User(Deposit, 60), 100);
    var l1 := TwoUsers(60, 11, User(Borrow, 11), User(Deposit, 60), 100);
    var l2 := TwoUsers(110, 11, User(Borrow, 11), User(Deposit, 110), 100);
    NoBorrowsNoInterest(100);
    GivenIntoDebt(l.bank, l1.bank);
    Added(50, 60, l1.bank, l2.bank);
    assert l.accounts[0 := User(Borrow, 11)] == l1.accounts && l1.accounts[1 := User(Deposit, 110)] == l2.accounts;
    TransferOutcome(l, 0, 1, 50, 0, true);
  }

  lemma NoBorrowsNoInterest(deposits: u128)
    requires deposits <= 1_000
    ensures Accrue(QuoteBank(deposits, 0), 0) == Ok(QuoteBank(deposits, 0))
  {
    UnitPrice(deposits, QuoteBank(deposits, 0), Deposit);
    UnitPrice(0, QuoteBank(deposits, 0), Borrow);
    hide GetTokenAmount, BorrowRate, InterestOverPeriod;
  }

  lemma Added(amount: u128, held: u128, bank: BankState, bank': BankState)
    requires bank == QuoteBank(bank.depositBalance, bank.borrowBalance) && amount + held <= 1_000
    requires bank.depositBalance <= 1_000 && bank' == bank.(depositBalance := bank.depositBalance + amount)
    ensures UpdateBooks(amount, Deposit, Books(bank, User(Deposit, held)))
            == Ok(Books(bank', User(Deposit, held + amount)))
  {
    UnitPrice(amount, bank, Deposit);
    hide GetBankBalance;
  }

  lemma Taken(amount: u128, held: u128, bank: BankState, bank': BankState)
    requires bank == QuoteBank(bank.depositBalance, 0) && 0 < amount < held <= bank.depositBalance <= 1_000
    requires bank' == bank.(depositBalance := bank.depositBalance - amount)
    ensures UpdateBooks(amount, Borrow, Books(bank, User(Deposit, held)))
            == Ok(Books(bank', User(Deposit, held - amount)))
  {
    UnitPrice(amount, bank, Deposit);
    UnitPrice(held, bank, Deposit);
    UnitPrice(bank'.depositBalance, bank', Deposit);
    UnitPrice(0, bank', Borrow);
    hide GetBankBalance, GetTokenAmount;
  }

  lemma GivenIntoDebt(bank: BankState, bank': BankState)
    requires bank == QuoteBank(100, 0) && bank' == QuoteBank(60, 11)
    ensures UpdateBooks(50, Borrow, Books(bank, User(Deposit, 40))) == Ok(Books(bank', User(Borrow, 11)))
  {
    var paid := QuoteBank(60, 0);
    UnitPrice(40, bank, Deposit);
    UnitPrice(10, paid, Borrow);
    UnitPrice(60, bank', Deposit);
    UnitPrice(11, bank', Borrow);
    hide GetBankBalance, GetTokenAmount;
    assert PaymentFor(50, bank, User(Deposit, 40)) == Ok(Payment(40, 40));
    assert PayDown(Payment(40, 40), Books(bank, User(Deposit, 40))) == Ok(Books(paid, User(Deposit, 0)));
    assert Extend(10, Borrow, Books(paid, User(Borrow, 0))) == Ok(Books(bank', User(Borrow, 11)));
  }

  /** A fee of 50 at a share of a third: 16 go to the liquidator, 34 to the insurance
      fund, and the user pays it all. */
  lemma FeeIsCollected()
    ensures Step(TwoUsers(100, 0, User(Deposit, 100), User(Deposit, 0), 100), CollectLiquidationFee(0, 1, 50, 3))
            == Ok(TwoUsers(66, 0, User(Deposit, 50), User(Deposit, 16), 66))
  {
    hide Step, UpdateBooks;
    var l := TwoUsers(100, 0, User(Deposit, 100), User(Deposit, 0), 100);
    var l1 := TwoUsers(116, 0, User(Deposit, 100), User(Deposit, 16), 100);
    var l2 := TwoUsers(66, 0, User(Deposit, 50), User(Deposit, 16), 100);
    Added(16, 0, l.bank, l1.bank);
    Taken(50, 100, l1.bank, l2.bank);
    assert l.accounts[1 := User(Deposit, 16)] == l1.accounts && l1.accounts[0 := User(Deposit, 50)] == l2.accounts;
    FeeOutcome(l, 0, 1, 50, 3);
  }

  function Indebted(): State { State(QuoteBank(1000, 50), [User(Borrow, 50)], 950) }

  /** A plain deposit pays off a borrower's debt and keeps the rest; a reduce-only one
      stops at the debt. */
  lemma DepositPaysDebt()
    ensures Step(Indebted(), DepositFunds(0, 100, false, 0, true))
            == Ok(State(QuoteBank(1050, 0), [User(Deposit, 50)], 1050))
    ensures Step(Indebted(), DepositFunds(0, 100, true, 0, true))
            == Ok(State(QuoteBank(1000, 0), [User(Borrow, 0)], 1000))
  {
    PlainDeposit();
    ReduceOnlyDeposit();
    hide Step, Indebted;
  }

  lemma PlainDeposit()
    ensures Step(Indebted(), DepositFunds(0, 100, false, 0, true))
            == Ok(State(QuoteBank(1050, 0), [User(Deposit, 50)], 1050))
  {
    hide Step, UpdateBooks, Accrue;
    var l := Indebted();
    NoTimeNoInterest();
    DebtPaid(l.bank);
    assert l.accounts[0 := User(Deposit, 50)] == [User(Deposit, 50)];
    DepositOutcome(l, 0, 100, false, 0, true);
  }

  lemma ReduceOnlyDeposit()
    ensures Step(Indebted(), DepositFunds(0, 100, true, 0, true))
            == Ok(State(QuoteBank(1000, 0), [User(Borrow, 0)], 1000))
  {
    hide Step, UpdateBooks, Accrue, GetTokenAmount, TokensOf;
    var l := Indebted();
    NoTimeNoInterest();
    DebtPaid(l.bank);
    UnitPrice(50, l.bank, Borrow);
    TokenAmountInNumbers(50, l.bank, Borrow);
    assert l.accounts[0 := User(Borrow, 0)] == [User(Borrow, 0)];
    DepositOutcome(l, 0, 100, true, 0, true);
  }

  lemma DebtPaid(bank: BankState)
    requires bank == QuoteBank(1000, 50)
    ensures UpdateBooks(100, Deposit, Books(bank, User(Borrow, 50))) == Ok(Books(QuoteBank(1050, 0), User(Deposit, 50)))
    ensures UpdateBooks(50, Deposit, Books(bank, User(Borrow, 50))) == Ok(Books(QuoteBank(1000, 0), User(Borrow, 0)))
  {
    var paid := QuoteBank(1000, 0);
    UnitPrice(50, bank, Borrow);
    UnitPrice(50, paid, Deposit);
    hide GetTokenAmount, GetBankBalance;
    assert PaymentFor(100, bank, User(Borrow, 50)) == Ok(Payment(50, 50));
    assert PaymentFor(50, bank, User(Borrow, 50)) == Ok(Payment(50, 50));
    assert PayDown(Payment(50, 50), Books(bank, User(Borrow, 50))) == Ok(Books(paid, User(Borrow, 0)));
    assert Extend(50, Deposit, Books(paid, User(Deposit, 0))) == Ok(Books(QuoteBank(1050, 0), User(Deposit, 50)));
  }

  lemma NoTimeNoInterest()
    ensures Accrue(QuoteBank(1000, 50), 0) == Ok(QuoteBank(1000, 50))
  {
    var bank := QuoteBank(1000, 50);
    UnitPrice(1000, bank, Deposit);
    UnitPrice(50, bank, Borrow);
    assert DepositTokens(bank) == Ok(1000) && BorrowTokens(bank) == Ok(50);
    assert Utilization(1000, 50) == Ok(50_000);
    assert BorrowRate(bank, 50_000) == Ok(6_250);
    assert IndexGrowth(BANK_CUMULATIVE_INTEREST_PRECISION, 0) == Ok(0);
    assert InterestOverPeriod(bank, 6_250, 0, 50_000) == Ok(InterestAccumulated(1, 0));
  }
}
