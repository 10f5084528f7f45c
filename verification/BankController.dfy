/** The on-chain accounts as mutable objects, the controller that updates them in
    place, and the instructions of lib.rs on top of it, each proved to do what its
    transition of module Ledger says. */
module BankController {
  import opened Arithmetic
  import opened Checked
  import opened BankMath
  import opened Booking
  import opened Ledger

  class Bank {
    const decimals: nat
    var optimalUtilization: u128
    var optimalBorrowRate: u128
    var maxBorrowRate: u128
    var depositBalance: u128
    var borrowBalance: u128
    var cumulativeDepositInterest: u128
    var cumulativeBorrowInterest: u128
    var lastUpdated: u64

    function Terms(): BankState
      reads this
    {
      BankState(decimals, optimalUtilization, optimalBorrowRate, maxBorrowRate, depositBalance, borrowBalance,
                cumulativeDepositInterest, cumulativeBorrowInterest, lastUpdated)
    }

    /** initialize_bank, once its validations passed. */
    constructor (decimals: nat, optimalUtilization: u128, optimalBorrowRate: u128, maxBorrowRate: u128, now: u64)
      requires 6 <= decimals
      ensures Terms().WellFormed()
      ensures Initial(State(Terms(), [], 0))
    {
      this.decimals := decimals;
      this.optimalUtilization, this.optimalBorrowRate, this.maxBorrowRate :=
          optimalUtilization, optimalBorrowRate, maxBorrowRate;
      depositBalance, borrowBalance := 0, 0;
      cumulativeDepositInterest := BANK_CUMULATIVE_INTEREST_PRECISION;
      cumulativeBorrowInterest := BANK_CUMULATIVE_INTEREST_PRECISION;
      lastUpdated := now;
    }

    method IncreaseBankBalance(delta: u128, kind: BalanceType) returns (r: Result<()>)
      modifies this`depositBalance, this`borrowBalance
      ensures match Booking.IncreaseBankBalance(delta, old(Terms()), kind)
              case Ok(bank) => r == Ok(()) && Terms() == bank
              case Err(e) => r == Err(e)
    {
      match kind {
        case Deposit => depositBalance :- CheckedAdd(depositBalance, delta);
        case Borrow => borrowBalance :- CheckedAdd(borrowBalance, delta);
      }
      return Ok(());
    }

    method DecreaseBankBalance(delta: u128, kind: BalanceType) returns (r: Result<()>)
      modifies this`depositBalance, this`borrowBalance
      ensures match Booking.DecreaseBankBalance(delta, old(Terms()), kind)
              case Ok(bank) => r == Ok(()) && Terms() == bank
              case Err(e) => r == Err(e)
    {
      var _ :- Need(delta <= if kind == Deposit then depositBalance else borrowBalance, BalanceUnderflow);
      match kind {
        case Deposit => depositBalance := depositBalance - delta;
        case Borrow => borrowBalance := borrowBalance - delta;
      }
      return Ok(());
    }

    method UpdateCumulativeInterest(now: int) returns (r: Result<()>)
      modifies this`cumulativeDepositInterest, this`cumulativeBorrowInterest, this`lastUpdated
      ensures match Accrue(old(Terms()), now)
              case Ok(bank) => r == Ok(()) && Terms() == bank
              case Err(e) => r == Err(e)
    {
      var interest :- CalculateAccumulatedInterest(Terms(), now);
      if interest.depositInterest > 0 && interest.borrowInterest > 1 {
        cumulativeDepositInterest :- CheckedAdd(cumulativeDepositInterest, interest.depositInterest);
        cumulativeBorrowInterest :- CheckedAdd(cumulativeBorrowInterest, interest.borrowInterest);
        lastUpdated :- CastToU64(now);
      }
      return Ok(());
    }

    method Restore(bank: BankState)
      requires bank.decimals == decimals
      modifies this
      ensures Terms() == bank
    {
      optimalUtilization, optimalBorrowRate, maxBorrowRate :=
          bank.optimalUtilization, bank.optimalBorrowRate, bank.maxBorrowRate;
      depositBalance, borrowBalance := bank.depositBalance, bank.borrowBalance;
      cumulativeDepositInterest, cumulativeBorrowInterest :=
          bank.cumulativeDepositInterest, bank.cumulativeBorrowInterest;
      lastUpdated := bank.lastUpdated;
    }
  }

  /** A user's balance in the bank, or a market's PnL pool. */
  class BankBalance {
    const isPool: bool
    var kind: BalanceType
    var balance: u128

    function Value(): Account
      reads this
    {
      if isPool then Pool(balance) else User(kind, balance)
    }

    constructor (isPool: bool)
      ensures Value() == if isPool then Pool(0) else User(Deposit, 0)
    {
      this.isPool := isPool;
      kind, balance := Deposit, 0;
    }

    method IncreaseBalance(delta: u128) returns (r: Result<()>)
      modifies this`balance
      ensures match old(Value()).Increase(delta)
              case Ok(account) => r == Ok(()) && Value() == account
              case Err(e) => r == Err(e)
    {
      balance :- CheckedAdd(balance, delta);
      return Ok(());
    }

    method DecreaseBalance(delta: u128) returns (r: Result<()>)
      modifies this`balance
      ensures match old(Value()).Decrease(delta)
              case Ok(account) => r == Ok(()) && Value() == account
              case Err(e) => r == Err(e)
    {
      if isPool {
        balance :- CheckedAdd(balance, delta);
      } else {
        var _ :- Need(delta <= balance, BalanceUnderflow);
        balance := balance - delta;
      }
      return Ok(());
    }

    method UpdateBalanceType(k: BalanceType) returns (r: Result<()>)
      modifies this`kind
      ensures match old(Value()).WithKind(k)
              case Ok(account) => r == Ok(()) && Value() == account
              case Err(e) => r == Err(e)
    {
      var _ :- Need(!isPool, CantUpdatePNLPoolBalanceType);
      kind := k;
      return Ok(());
    }

    method Restore(account: Account)
      requires account.Pool? == isPool
      modifies this
      ensures Value() == account
    {
      kind, balance := account.Kind(), account.balance;
    }
  }

  /** update_bank_balances, in place. On an error the objects may be left half
      updated; the runtime discards them. */
  method UpdateBankBalances(amount: u128, direction: BalanceType, bank: Bank, account: BankBalance)
      returns (r: Result<()>)
    modifies bank`depositBalance, bank`borrowBalance, account
    ensures match UpdateBooks(amount, direction, Books(old(bank.Terms()), old(account.Value())))
            case Ok(books) => r == Ok(()) && bank.Terms() == books.bank && account.Value() == books.account
            case Err(e) => r == Err(e)
  {
    hide GetBankBalance, GetTokenAmount;
    var tokenAmount: u128 := amount;
    if direction == account.Value().Kind() {
      var delta :- GetBankBalance(tokenAmount, bank.Terms(), direction);
      var _ :- account.IncreaseBalance(delta);
      var _ :- bank.IncreaseBankBalance(delta, direction);
    } else {
      var kind := account.Value().Kind();
      var current :- GetTokenAmount(account.balance, bank.Terms(), kind);
      if current != 0 {
        var tokenDelta: u128, balanceDelta: u128 := current, account.balance;
        if current > tokenAmount {
          tokenDelta := tokenAmount;
          balanceDelta :- GetBankBalance(tokenAmount, bank.Terms(), kind);
        }
        var _ :- bank.DecreaseBankBalance(balanceDelta, kind);
        var _ :- account.DecreaseBalance(balanceDelta);
        tokenAmount := tokenAmount - tokenDelta; // never more than was asked for
      }
      if tokenAmount > 0 {
        var _ :- account.UpdateBalanceType(direction);
        var delta :- GetBankBalance(tokenAmount, bank.Terms(), direction);
        var _ :- account.IncreaseBalance(delta);
        var _ :- bank.IncreaseBankBalance(delta, direction);
      }
    }
    if direction == Borrow {
      var deposits :- DepositTokens(bank.Terms());
      var borrows :- BorrowTokens(bank.Terms());
      var _ :- Need(deposits >= borrows, BankInsufficientDeposits);
    }
    return Ok(());
  }

  /** The program over one bank. */
  class ClearingHouse {
    const bank: Bank
    var accounts: seq<BankBalance>
    var vault: nat

    constructor (bank: Bank)
      requires Initial(State(bank.Terms(), [], 0))
      ensures this.bank == bank
      ensures Represents(State(bank.Terms(), [], 0))
    {
      this.bank := bank;
      accounts, vault := [], 0;
    }

    ghost predicate Distinct()
      reads this
    {
      forall i, j :: 0 <= i < j < |accounts| ==> accounts[i] != accounts[j]
    }

    /** The objects hold exactly the ledger `l`. */
    ghost predicate Represents(l: State)
      reads this, bank, accounts
    {
      && Distinct()
      && bank.Terms() == l.bank
      && vault == l.vault
      && |accounts| == |l.accounts|
      && forall i :: 0 <= i < |accounts| ==> accounts[i].Value() == l.accounts[i]
    }

    method Book(i: nat, amount: u128, direction: BalanceType, ghost l: State) returns (r: Result<()>)
      requires Represents(l) && i < |accounts|
      modifies bank, accounts
      ensures match Ledger.Book(l, i, amount, direction)
              case Ok(l') => r == Ok(()) && Represents(l')
              case Err(e) => r == Err(e)
    {
      r := UpdateBankBalances(amount, direction, bank, accounts[i]);
    }

    method Accrue(now: int, ghost l: State) returns (r: Result<()>)
      requires Represents(l)
      modifies bank
      ensures match Accrued(l, now)
              case Ok(l') => r == Ok(()) && Represents(l')
              case Err(e) => r == Err(e)
    {
      r := bank.UpdateCumulativeInterest(now);
    }

    /** Tokens leave the vault. */
    method Send(amount: u64, ghost l: State) returns (r: Result<()>)
      requires Represents(l)
      modifies this`vault
      ensures match PayOut(l, amount)
              case Ok(l') => r == Ok(()) && Represents(l')
              case Err(e) => r == Err(e)
    {
      var _ :- Need(amount <= vault, External);
      vault := vault - amount;
      return Ok(());
    }

    predicate HasUser(i: nat)
      reads this
    {
      i < |accounts| && !accounts[i].isPool
    }

    predicate HasPool(i: nat)
      reads this
    {
      i < |accounts| && accounts[i].isPool
    }

    method Deposit(user: nat, amount: u64, reduceOnly: bool, now: int, externalOk: bool, ghost l: State)
        returns (r: Result<()>)
      requires Represents(l)
      modifies this`vault, bank, accounts
      ensures match Deposited(l, user, amount, reduceOnly, now, externalOk)
              case Ok(l') => r == Ok(()) && Represents(l')
              case Err(e) => r == Err(e)
    {
      var _ :- Need(amount != 0, InsufficientDeposit);
      var _ :- Accrue(now, l);
      ghost var l1 := Accrued(l, now).value;
      var _ :- Need(HasUser(user), NoSuchAccount);
      var booked :- CappedAmount(bank.Terms(), accounts[user].Value(), amount, reduceOnly, BalanceType.Borrow);
      var _ :- Book(user, booked, BalanceType.Deposit, l1);
      var _ :- Need(externalOk, External);
      vault := vault + booked;
      return Ok(());
    }

    method Withdraw(user: nat, amount: u64, reduceOnly: bool, now: int, meetsMargin: bool, ghost l: State)
        returns (r: Result<()>)
      requires Represents(l)
      modifies this`vault, bank, accounts
      ensures match Withdrawn(l, user, amount, reduceOnly, now, meetsMargin)
              case Ok(l') => r == Ok(()) && Represents(l')
              case Err(e) => r == Err(e)
    {
      var _ :- Accrue(now, l);
      ghost var l1 := Accrued(l, now).value;
      var _ :- Need(HasUser(user), NoSuchAccount);
      var booked :- CappedAmount(bank.Terms(), accounts[user].Value(), amount, reduceOnly, BalanceType.Deposit);
      var _ :- Book(user, booked, BalanceType.Borrow, l1);
      var _ :- Need(meetsMargin, InsufficientCollateral);
      r := Send(booked, Ledger.Book(l1, user, booked, BalanceType.Borrow).value);
    }

    method Transfer(from: nat, to: nat, amount: u64, now: int, meetsMargin: bool, ghost l: State)
        returns (r: Result<()>)
      requires Represents(l)
      modifies bank, accounts
      ensures match Transferred(l, from, to, amount, now, meetsMargin)
              case Ok(l') => r == Ok(()) && Represents(l')
              case Err(e) => r == Err(e)
    {
      var _ :- Need(from != to, AccountBorrowed);
      var _ :- Need(HasUser(from) && HasUser(to), NoSuchAccount);
      var _ :- Accrue(now, l);
      ghost var l1 := Accrued(l, now).value;
      var _ :- Book(from, amount, BalanceType.Borrow, l1);
      var _ :- Need(meetsMargin, InsufficientCollateral);
      r := Book(to, amount, BalanceType.Deposit, Ledger.Book(l1, from, amount, BalanceType.Borrow).value);
    }

    /** Returns the pnl that is still unsettled. */
    method SettlePnl(user: nat, pool: nat, unsettled: i128, authorised: bool, ghost l: State) returns (r: Result<i128>)
      requires Represents(l)
      modifies bank, accounts
      ensures match Settled(l, user, pool, unsettled, authorised)
              case Ok(settlement) => r == Ok(settlement.unsettled) && Represents(settlement.state)
              case Err(e) => r == Err(e)
    {
      var _ :- Need(HasUser(user) && HasPool(pool), NoSuchAccount);
      if unsettled == 0 {
        return Ok(0);
      }
      if unsettled > 0 {
        var _ :- Need(authorised, UserMustSettleTheirOwnPositiveUnsettledPNL);
        var poolTokens :- GetTokenAmount(accounts[pool].balance, bank.Terms(), BalanceType.Deposit);
        if poolTokens == 0 {
          return Ok(unsettled);
        }
        var paid := AmountToSettle(unsettled, poolTokens);
        var _ :- Book(user, paid, BalanceType.Deposit, l);
        var _ :- Book(pool, paid, BalanceType.Borrow, Ledger.Book(l, user, paid, BalanceType.Deposit).value);
        return Ok(unsettled - paid);
      } else {
        var paid: u128 := Abs(unsettled);
        var _ :- Book(pool, paid, BalanceType.Deposit, l);
        var _ :- Book(user, paid, BalanceType.Borrow, Ledger.Book(l, pool, paid, BalanceType.Deposit).value);
        return Ok(0);
      }
    }

    method CollectLiquidationFee(user: nat, liquidator: nat, fee: u128, shareDenominator: u64, ghost l: State)
        returns (r: Result<()>)
      requires Represents(l)
      modifies this`vault, bank, accounts
      ensures match FeeCollected(l, user, liquidator, fee, shareDenominator)
              case Ok(l') => r == Ok(()) && Represents(l')
              case Err(e) => r == Err(e)
    {
      var _ :- Need(HasUser(user) && HasUser(liquidator), NoSuchAccount);
      var _ :- Need(accounts[user].kind == BalanceType.Deposit || accounts[user].balance == 0, LiquidationOfBorrower);
      var split :- SplitFee(fee, shareDenominator);
      ghost var l1 := l;
      if split.toLiquidator > 0 {
        var _ :- Book(liquidator, split.toLiquidator, BalanceType.Deposit, l);
        l1 := Ledger.Book(l, liquidator, split.toLiquidator, BalanceType.Deposit).value;
      }
      var _ :- Book(user, fee, BalanceType.Borrow, l1);
      if split.toInsurance > 0 {
        var _ :- Send(split.toInsurance, Ledger.Book(l1, user, fee, BalanceType.Borrow).value);
      }
      return Ok(());
    }

    method OpenAccount(isPool: bool, ghost l: State)
      requires Represents(l)
      modifies this`accounts
      ensures Represents(Apply(l, Instruction.OpenAccount(isPool)))
      ensures |accounts| == old(|accounts|) + 1 && fresh(accounts[|accounts| - 1])
      ensures accounts[..|accounts| - 1] == old(accounts)
    {
      var account := new BankBalance(isPool);
      accounts := accounts + [account];
    }

    // ------------------------------------------------------- transactions

    method Save() returns (saved: seq<Account>)
      ensures |saved| == |accounts|
      ensures forall i :: 0 <= i < |accounts| ==> saved[i] == accounts[i].Value()
    {
      saved := [];
      for i := 0 to |accounts|
        invariant |saved| == i
        invariant forall j :: 0 <= j < i ==> saved[j] == accounts[j].Value()
      {
        saved := saved + [accounts[i].Value()];
      }
    }

    method Rollback(bankState: BankState, saved: seq<Account>, tokens: nat)
      requires Distinct() && bankState.decimals == bank.decimals
      requires |saved| == |accounts|
      requires forall i :: 0 <= i < |accounts| ==> saved[i].Pool? == accounts[i].isPool
      modifies this`vault, bank, accounts
      ensures Represents(State(bankState, saved, tokens))
    {
      bank.Restore(bankState);
      vault := tokens;
      for i := 0 to |accounts|
        invariant bank.Terms() == bankState && vault == tokens
        invariant forall j :: 0 <= j < i ==> accounts[j].Value() == saved[j]
      {
        accounts[i].Restore(saved[i]);
      }
    }

    method Dispatch(ix: Instruction, ghost l: State) returns (r: Result<()>)
      requires Represents(l) && !ix.OpenAccount?
      modifies this`vault, bank, accounts
      ensures match Step(l, ix)
              case Ok(l') => r == Ok(()) && Represents(l')
              case Err(e) => r == Err(e)
    {
      match ix {
        case AccrueInterest(now) =>
          r := Accrue(now, l);
        case DepositFunds(user, amount, reduceOnly, now, externalOk) =>
          r := Deposit(user, amount, reduceOnly, now, externalOk, l);
        case WithdrawFunds(user, amount, reduceOnly, now, meetsMargin) =>
          r := Withdraw(user, amount, reduceOnly, now, meetsMargin, l);
        case TransferDeposit(from, to, amount, now, meetsMargin) =>
          r := Transfer(from, to, amount, now, meetsMargin, l);
        case SettlePnl(user, pool, unsettled, authorised) =>
          var _ :- SettlePnl(user, pool, unsettled, authorised, l);
          r := Ok(());
        case CollectLiquidationFee(user, liquidator, fee, shareDenominator) =>
          r := CollectLiquidationFee(user, liquidator, fee, shareDenominator, l);
        case WithdrawFees(amount, maxWithdraw) =>
          var _ :- Need(amount <= maxWithdraw, AdminWithdrawTooLarge);
          r := Send(amount, l);
      }
    }

    /** One transaction: the instruction takes effect, or everything it touched is
        put back. */
    method Execute(ix: Instruction, ghost l: State) returns (ok: bool)
      requires Represents(l)
      modifies this, bank, accounts
      ensures ok == Step(l, ix).Ok?
      ensures Represents(Apply(l, ix))
      ensures forall i :: 0 <= i < |accounts| ==> accounts[i] in old(accounts) || fresh(accounts[i])
    {
      if ix.OpenAccount? {
        OpenAccount(ix.isPool, l);
        return true;
      }
      var bankState, tokens := bank.Terms(), vault;
      var saved := Save();
      assert saved == l.accounts;
      var r := Dispatch(ix, l);
      if r.Err? {
        Rollback(bankState, saved, tokens);
      }
      return r.Ok?;
    }

    /** Any run of the objects is the same run of the ledger, so every result about
        Run holds of the objects. */
    method ExecuteAll(ixs: seq<Instruction>, ghost l: State)
      requires Represents(l)
      modifies this, bank, accounts
      ensures Represents(Run(l, ixs))
      decreases |ixs|
    {
      if ixs != [] {
        var _ := Execute(ixs[0], l);
        ExecuteAll(ixs[1..], Apply(l, ixs[0]));
      }
    }
  }
}
