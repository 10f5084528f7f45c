/** One bank, every account that holds a balance in it, and the vault's tokens:
    the instructions of lib.rs as transitions of a state machine. An instruction
    that fails leaves the ledger as it was, as the runtime guarantees. */
module Ledger {
  import opened Arithmetic
  import opened Checked
  import opened BankMath
  import opened Booking

  datatype State = State(bank: BankState, accounts: seq<Account>, vault: nat)

  datatype Instruction =
    | OpenAccount(isPool: bool)
    | AccrueInterest(now: int)
    | DepositFunds(user: nat, amount: u64, reduceOnly: bool, now: int, externalOk: bool)
    | WithdrawFunds(user: nat, amount: u64, reduceOnly: bool, now: int, meetsMargin: bool)
    | TransferDeposit(from: nat, to: nat, amount: u64, now: int, meetsMargin: bool)
    | SettlePnl(user: nat, pool: nat, unsettled: i128, authorised: bool)
    | CollectLiquidationFee(user: nat, liquidator: nat, fee: u128, shareDenominator: u64)
    | WithdrawFees(amount: u64, maxWithdraw: u128)

  predicate Initial(l: State) {
    && 6 <= l.bank.decimals
    && l.bank.depositBalance == 0 && l.bank.borrowBalance == 0
    && l.bank.cumulativeDepositInterest == BANK_CUMULATIVE_INTEREST_PRECISION
    && l.bank.cumulativeBorrowInterest == BANK_CUMULATIVE_INTEREST_PRECISION
    && l.accounts == [] && l.vault == 0
  }

  predicate IsUser(l: State, i: nat) {
    i < |l.accounts| && l.accounts[i].User?
  }

  predicate IsPool(l: State, i: nat) {
    i < |l.accounts| && l.accounts[i].Pool?
  }

  // ------------------------------------------------------- the building blocks

  /** update_bank_cumulative_interest: both indices grow, or neither does. */
  function Accrue(bank: BankState, now: int): Result<BankState> {
    var interest :- CalculateAccumulatedInterest(bank, now);
    if interest.depositInterest > 0 && interest.borrowInterest > 1 then
      var depositIndex :- CheckedAdd(bank.cumulativeDepositInterest, interest.depositInterest);
      var borrowIndex :- CheckedAdd(bank.cumulativeBorrowInterest, interest.borrowInterest);
      var time :- CastToU64(now);
      Ok(bank.(cumulativeDepositInterest := depositIndex, cumulativeBorrowInterest := borrowIndex, lastUpdated := time))
    else Ok(bank)
  }

  function Accrued(l: State, now: int): Result<State> {
    var bank :- Accrue(l.bank, now);
    Ok(l.(bank := bank))
  }

  /** update_bank_balances on account `i`. */
  function Book(l: State, i: nat, amount: u128, direction: BalanceType): Result<State> {
    var _ :- Need(i < |l.accounts|, NoSuchAccount);
    var books :- UpdateBooks(amount, direction, Books(l.bank, l.accounts[i]));
    Ok(l.(bank := books.bank, accounts := l.accounts[i := books.account]))
  }

  function PayOut(l: State, amount: u64): Result<State> {
    var _ :- Need(amount <= l.vault, External);
    Ok(l.(vault := l.vault - amount))
  }

  /** With reduce_only, an amount on the other side of the account is capped at
      what the account holds; the cap goes through a truncating cast. */
  function CappedAmount(bank: BankState, account: Account, amount: u64, reduceOnly: bool,
                        against: BalanceType): Result<u64> {
    if reduceOnly && account.Kind() == against then
      var tokens :- GetTokenAmount(account.balance, bank, account.Kind());
      var cap := TruncateToU64(tokens);
      Ok(if cap < amount then cap else amount)
    else Ok(amount)
  }

  /** What is moved of `amount`, in plain numbers: all of it, unless reduce_only meets
      an account on the other side, and then no more than the low 64 bits of what the
      account is worth. */
  function AmountMoved(bank: BankState, account: Account, amount: u64, reduceOnly: bool, against: BalanceType): u64 {
    if !reduceOnly || account.Kind() != against then amount
    else
      var held := TokensOf(account.balance, bank, against) % 0x1_0000_0000_0000_0000;
      if held < amount then held else amount
  }

  lemma CappedAmountInNumbers(bank: BankState, account: Account, amount: u64, reduceOnly: bool, against: BalanceType)
    ensures var capped := CappedAmount(bank, account, amount, reduceOnly, against);
            && (capped.Ok? <==> reduceOnly && account.Kind() == against ==> TokensFit(account.balance, bank, against))
            && (capped.Ok? ==> capped.value == AmountMoved(bank, account, amount, reduceOnly, against))
  {
    TokenAmountInNumbers(account.balance, bank, account.Kind());
    hide TokensOf, GetTokenAmount;
  }

  // ------------------------------------------------------- the instructions

  function Deposited(l: State, user: nat, amount: u64, reduceOnly: bool, now: int, externalOk: bool): Result<State> {
    var _ :- Need(amount != 0, InsufficientDeposit);
    var l1 :- Accrued(l, now);
    var _ :- Need(IsUser(l1, user), NoSuchAccount);
    var booked :- CappedAmount(l1.bank, l1.accounts[user], amount, reduceOnly, Borrow);
    var l2 :- Book(l1, user, booked, Deposit);
    var _ :- Need(externalOk, External);
    Ok(l2.(vault := l2.vault + booked))
  }

  function Withdrawn(l: State, user: nat, amount: u64, reduceOnly: bool, now: int, meetsMargin: bool): Result<State> {
    var l1 :- Accrued(l, now);
    var _ :- Need(IsUser(l1, user), NoSuchAccount);
    var booked :- CappedAmount(l1.bank, l1.accounts[user], amount, reduceOnly, Deposit);
    var l2 :- Book(l1, user, booked, Borrow);
    var _ :- Need(meetsMargin, InsufficientCollateral);
    PayOut(l2, booked)
  }

  function Transferred(l: State, from: nat, to: nat, amount: u64, now: int, meetsMargin: bool): Result<State> {
    var _ :- Need(from != to, AccountBorrowed);
    var _ :- Need(IsUser(l, from) && IsUser(l, to), NoSuchAccount);
    var l1 :- Accrued(l, now);
    var l2 :- Book(l1, from, amount, Borrow);
    var _ :- Need(meetsMargin, InsufficientCollateral);
    Book(l2, to, amount, Deposit)
  }

  datatype Settlement = Settlement(state: State, unsettled: i128, paid: u128)

  function AmountToSettle(unsettled: i128, poolTokens: u128): u128
    requires 0 < unsettled
  {
    if unsettled < poolTokens then unsettled else poolTokens
  }

  function Settled(l: State, user: nat, pool: nat, unsettled: i128, authorised: bool): Result<Settlement> {
    var _ :- Need(IsUser(l, user) && IsPool(l, pool), NoSuchAccount);
    if unsettled == 0 then Ok(Settlement(l, 0, 0))
    else if unsettled > 0 then
      var _ :- Need(authorised, UserMustSettleTheirOwnPositiveUnsettledPNL);
      var poolTokens :- GetTokenAmount(l.accounts[pool].balance, l.bank, Deposit);
      if poolTokens == 0 then Ok(Settlement(l, unsettled, 0))
      else
        var paid := AmountToSettle(unsettled, poolTokens);
        var l1 :- Book(l, user, paid, Deposit);
        var l2 :- Book(l1, pool, paid, Borrow);
        Ok(Settlement(l2, unsettled - paid, paid))
    else
      var paid: u128 := Abs(unsettled);
      var l1 :- Book(l, pool, paid, Deposit);
      var l2 :- Book(l1, user, paid, Borrow);
      Ok(Settlement(l2, 0, paid))
  }

  datatype FeeSplit = FeeSplit(toLiquidator: u64, toInsurance: u64)

  function SplitFee(fee: u128, shareDenominator: u64): Result<FeeSplit> {
    var withdrawal :- CastToU64(fee);
    var toLiquidator :- CheckedDiv(withdrawal, shareDenominator);
    var toInsurance :- CheckedSub(withdrawal, toLiquidator);
    assert toLiquidator <= withdrawal;
    Ok(FeeSplit(toLiquidator, toInsurance))
  }

  /** The tail of liquidate; the liquidator may be the user. */
  function FeeCollected(l: State, user: nat, liquidator: nat, fee: u128, shareDenominator: u64): Result<State> {
    var _ :- Need(IsUser(l, user) && IsUser(l, liquidator), NoSuchAccount);
    var _ :- Need(l.accounts[user].kind == Deposit || l.accounts[user].balance == 0, LiquidationOfBorrower);
    var split :- SplitFee(fee, shareDenominator);
    var l1 :- if split.toLiquidator > 0 then Book(l, liquidator, split.toLiquidator, Deposit) else Ok(l);
    var l2 :- Book(l1, user, fee, Borrow);
    if split.toInsurance > 0 then PayOut(l2, split.toInsurance) else Ok(l2)
  }

  function Step(l: State, ix: Instruction): Result<State> {
    match ix
    case OpenAccount(isPool) => Ok(l.(accounts := l.accounts + [if isPool then Pool(0) else User(Deposit, 0)]))
    case AccrueInterest(now) => Accrued(l, now)
    case DepositFunds(user, amount, reduceOnly, now, externalOk) =>
      Deposited(l, user, amount, reduceOnly, now, externalOk)
    case WithdrawFunds(user, amount, reduceOnly, now, meetsMargin) =>
      Withdrawn(l, user, amount, reduceOnly, now, meetsMargin)
    case TransferDeposit(from, to, amount, now, meetsMargin) => Transferred(l, from, to, amount, now, meetsMargin)
    case SettlePnl(user, pool, unsettled, authorised) =>
      var settlement :- Settled(l, user, pool, unsettled, authorised);
      Ok(settlement.state)
    case CollectLiquidationFee(user, liquidator, fee, shareDenominator) =>
      FeeCollected(l, user, liquidator, fee, shareDenominator)
    case WithdrawFees(amount, maxWithdraw) =>
      var _ :- Need(amount <= maxWithdraw, AdminWithdrawTooLarge);
      PayOut(l, amount)
  }

  function Apply(l: State, ix: Instruction): State {
    match Step(l, ix)
    case Ok(l') => l'
    case Err(_) => l
  }

  function Run(l: State, ixs: seq<Instruction>): State
    decreases |ixs|
  {
    if ixs == [] then l else Run(Apply(l, ixs[0]), ixs[1..])
  }
}
