/** What one call of update_bank_balances does to a bank and one account
    (controller/bank_balance.rs), on values: the specification the imperative
    controller is proved against, and the laws every booking obeys. */
module Booking {
  import opened Arithmetic
  import opened Checked
  import opened BankMath

  /** The two implementations of the program's BankBalance trait. */
  datatype Account =
    | User(kind: BalanceType, balance: u128)
    | Pool(balance: u128)
  {
    function Kind(): BalanceType {
      if User? then kind else Deposit
    }

    /** What this account contributes to the bank total of `k`. */
    function Part(k: BalanceType): u128 {
      if Kind() == k then balance else 0
    }

    function Increase(delta: u128): Result<Account> {
      var total :- CheckedAdd(balance, delta);
      Ok(this.(balance := total))
    }

    /** A PnL pool ADDS the delta here, as state/market.rs:74-77 does. */
    function Decrease(delta: u128): Result<Account> {
      if Pool? then Increase(delta)
      else if delta <= balance then Ok(this.(balance := balance - delta))
      else Err(BalanceUnderflow)
    }

    function WithKind(k: BalanceType): Result<Account> {
      if Pool? then Err(CantUpdatePNLPoolBalanceType) else Ok(this.(kind := k))
    }
  }

  function IncreaseBankBalance(delta: u128, bank: BankState, kind: BalanceType): Result<BankState> {
    var total :- CheckedAdd(bank.Total(kind), delta);
    Ok(bank.WithTotal(kind, total))
  }

  function DecreaseBankBalance(delta: u128, bank: BankState, kind: BalanceType): Result<BankState> {
    if delta <= bank.Total(kind) then Ok(bank.WithTotal(kind, bank.Total(kind) - delta)) else Err(BalanceUnderflow)
  }

  datatype Books = Books(bank: BankState, account: Account)

  /** Book `amount` tokens on the side the account is already on. */
  function Extend(amount: u128, kind: BalanceType, books: Books): Result<Books> {
    var delta :- GetBankBalance(amount, books.bank, kind);
    var account :- books.account.Increase(delta);
    var bank :- IncreaseBankBalance(delta, books.bank, kind);
    Ok(Books(bank, account))
  }

  /** How much of `amount` pays the account down, in tokens and balance units. */
  datatype Payment = Payment(tokens: u128, units: u128)

  function PaymentFor(amount: u128, bank: BankState, account: Account): Result<Payment> {
    var current :- GetTokenAmount(account.balance, bank, account.Kind());
    if current == 0 then Ok(Payment(0, 0))
    else if current > amount then
      var units :- GetBankBalance(amount, bank, account.Kind());
      Ok(Payment(amount, units))
    else Ok(Payment(current, account.balance))
  }

  function PayDown(payment: Payment, books: Books): Result<Books> {
    if payment.tokens == 0 && payment.units == 0 then Ok(books)
    else
      var bank :- DecreaseBankBalance(payment.units, books.bank, books.account.Kind());
      var account :- books.account.Decrease(payment.units);
      Ok(Books(bank, account))
  }

  /** Book `amount` tokens against the account: pay it down, and put whatever is
      left on the other side. */
  function Reverse(amount: u128, direction: BalanceType, books: Books): Result<Books> {
    var payment :- PaymentFor(amount, books.bank, books.account);
    var paid :- PayDown(payment, books);
    if payment.tokens < amount then
      var flipped :- paid.account.WithKind(direction);
      Extend(amount - payment.tokens, direction, paid.(account := flipped))
    else Ok(paid)
  }

  function CheckBacking(direction: BalanceType, bank: BankState): Result<()> {
    if direction == Deposit then Ok(())
    else
      var deposits :- DepositTokens(bank);
      var borrows :- BorrowTokens(bank);
      Need(deposits >= borrows, BankInsufficientDeposits)
  }

  /** The booking itself, before the check that follows it. */
  function Booked(amount: u128, direction: BalanceType, books: Books): Result<Books> {
    if direction == books.account.Kind() then Extend(amount, direction, books) else Reverse(amount, direction, books)
  }

  function UpdateBooks(amount: u128, direction: BalanceType, books: Books): Result<Books> {
    var books' :- Booked(amount, direction, books);
    var _ :- CheckBacking(direction, books'.bank);
    Ok(books')
  }

  // ------------------------------------------------------- what a booking does

  predicate SameTerms(a: BankState, b: BankState) {
    && a.decimals == b.decimals
    && a.cumulativeDepositInterest == b.cumulativeDepositInterest
    && a.cumulativeBorrowInterest == b.cumulativeBorrowInterest
    && a.optimalUtilization == b.optimalUtilization
    && a.optimalBorrowRate == b.optimalBorrowRate
    && a.maxBorrowRate == b.maxBorrowRate
    && a.lastUpdated == b.lastUpdated
  }

  /** Bookings move balances only: rates, indices and decimals stay. */
  lemma BookingKeepsTerms(amount: u128, direction: BalanceType, books: Books)
    requires UpdateBooks(amount, direction, books).Ok?
    ensures var books' := UpdateBooks(amount, direction, books).value;
            && SameTerms(books.bank, books'.bank)
            && books'.account.Pool? == books.account.Pool?
            && (books.bank.WellFormed() ==> books'.bank.WellFormed())
  {
    hide GetBankBalance, GetTokenAmount, CheckBacking;
  }

  /** The closed form of a booking on a user account. The type flips exactly when
      more is booked against the balance than it is worth, and then the new
      balance is made of the excess alone: nothing of the old one is carried over. */
  lemma UserBookingClosedForm(amount: u128, direction: BalanceType, books: Books)
    requires books.bank.WellFormed() && books.account.User?
    requires UpdateBooks(amount, direction, books).Ok?
    ensures GetTokenAmount(books.account.balance, books.bank, books.account.kind).Ok? || direction == books.account.kind
    ensures var after, kind, held :=
        UpdateBooks(amount, direction, books).value.account, books.account.kind, books.account.balance;
            if direction == kind then
              var units := GetBankBalance(amount, books.bank, kind);
              units.Ok? && after == User(kind, held + units.value)
            else
              var current := GetTokenAmount(held, books.bank, kind).value;
              if amount < current then
                var units := GetBankBalance(amount, books.bank, kind);
                units.Ok? && units.value <= held && after == User(kind, held - units.value)
              else if amount == current then after == User(kind, 0)
              else
                var units := GetBankBalance(amount - current, books.bank, direction);
                units.Ok? && after == User(direction, units.value)
  {
    var account, bank := books.account, books.bank;
    if direction != account.kind {
      ZeroTokensIffZeroBalance(account.balance, bank, account.kind);
      var current := GetTokenAmount(account.balance, bank, account.kind).value;
      var payment := PaymentFor(amount, bank, account).value;
      if current != 0 && amount < current {
        PartialPaymentFits(amount, account.balance, bank, account.kind);
      } else if amount > current {
        var paid := PayDown(payment, books).value;
        assert paid.account.balance == 0;
      }
    }
  }

  /** The booking needs more units from the account's side than the bank records
      there: the guard of decrease_bank_balance. */
  predicate Overdraws(amount: u128, direction: BalanceType, books: Books) {
    var kind := books.account.Kind();
    var payment := PaymentFor(amount, books.bank, books.account);
    direction != kind && payment.Ok? && payment.value.units > books.bank.Total(kind)
  }

  lemma UnitErrors()
    ensures forall x, b, kind :: GetTokenAmount(x, b, kind) != Err(BalanceUnderflow)
    ensures forall x, b, kind :: GetBankBalance(x, b, kind) != Err(BalanceUnderflow)
  {
  }

  /** A payment never takes more units than the account holds. */
  lemma PaymentWithinBalance(amount: u128, bank: BankState, account: Account)
    ensures var payment := PaymentFor(amount, bank, account);
            payment.Ok? ==> payment.value.units <= account.balance
    ensures PaymentFor(amount, bank, account) != Err(BalanceUnderflow)
  {
    var kind := account.Kind();
    if PaymentFor(amount, bank, account).Ok? {
      var current := GetTokenAmount(account.balance, bank, kind).value;
      if current != 0 && current > amount {
        PartialPaymentFits(amount, account.balance, bank, kind);
      }
    }
  }

  /** A booking underflows exactly when it overdraws the bank's total: no account
      balance is ever reduced below zero, and nothing else can report it. */
  lemma BookingUnderflowIff(amount: u128, direction: BalanceType, books: Books)
    ensures UpdateBooks(amount, direction, books) == Err(BalanceUnderflow) <==> Overdraws(amount, direction, books)
  {
    hide GetBankBalance, GetTokenAmount, PaymentFor;
    UnitErrors();
    PaymentWithinBalance(amount, books.bank, books.account);
  }

  /** Units a booking takes out of a PnL pool. */
  function PoolUnitsPaid(amount: u128, direction: BalanceType, books: Books): u128 {
    if books.account.Pool? && direction == Borrow then
      match PaymentFor(amount, books.bank, books.account)
      case Ok(payment) => payment.units
      case Err(_) => 0
    else 0
  }

  /** How much more the account holds on side `k` than the bank records. */
  function Gap(books: Books, k: BalanceType): int {
    books.account.Part(k) - books.bank.Total(k)
  }

  lemma ExtendMirrors(amount: u128, kind: BalanceType, books: Books)
    requires books.account.Kind() == kind && Extend(amount, kind, books).Ok?
    ensures forall k :: Gap(Extend(amount, kind, books).value, k) == Gap(books, k)
  {
    hide GetBankBalance;
  }

  lemma PayDownMirrors(payment: Payment, books: Books)
    requires PayDown(payment, books).Ok?
    ensures var paid := PayDown(payment, books).value;
            && paid.account.Kind() == books.account.Kind() && paid.account.Pool? == books.account.Pool?
            && Gap(paid, Borrow) == Gap(books, Borrow)
            && Gap(paid, Deposit) == Gap(books, Deposit) + (if books.account.Pool? then 2 * payment.units else 0)
  {
  }

  /** Whoever still has tokens to book has been paid down to an empty balance, so
      changing its type moves nothing. */
  lemma FlipMovesNothing(amount: u128, direction: BalanceType, books: Books)
    requires books.bank.WellFormed() && books.account.User?
    requires PaymentFor(amount, books.bank, books.account).Ok?
    requires PaymentFor(amount, books.bank, books.account).value.tokens < amount
    requires PayDown(PaymentFor(amount, books.bank, books.account).value, books).Ok?
    ensures var paid := PayDown(PaymentFor(amount, books.bank, books.account).value, books).value;
            && paid.account.balance == 0
            && paid.account.WithKind(direction).Ok?
            && forall k :: Gap(paid.(account := paid.account.WithKind(direction).value), k) == Gap(paid, k)
  {
    ZeroTokensIffZeroBalance(books.account.balance, books.bank, books.account.kind);
  }

  /** Every booking moves the bank's totals exactly as it moves the account, on
      both sides, except that a pool paid from grows by what the bank loses. */
  lemma BookingMirrors(amount: u128, direction: BalanceType, books: Books)
    requires books.bank.WellFormed()
    requires UpdateBooks(amount, direction, books).Ok?
    ensures var books' := UpdateBooks(amount, direction, books).value;
            && Gap(books', Borrow) == Gap(books, Borrow)
            && Gap(books', Deposit) == Gap(books, Deposit) + 2 * PoolUnitsPaid(amount, direction, books)
  {
    hide GetBankBalance, GetTokenAmount, CheckBacking, PaymentFor, PayDown, Gap;
    if direction == books.account.Kind() {
      ExtendMirrors(amount, direction, books);
    } else {
      var payment := PaymentFor(amount, books.bank, books.account).value;
      var paid := PayDown(payment, books).value;
      PayDownMirrors(payment, books);
      if payment.tokens < amount {
        FlipMovesNothing(amount, direction, books);
        ExtendMirrors(amount - payment.tokens, direction, paid.(account := paid.account.WithKind(direction).value));
      }
    }
  }

  // ------------------------------------------------------- solvency of one booking

  /** What the bank owes net of what it is owed, in token fractions. */
  function NetOwed(bank: BankState): int {
    bank.depositBalance * bank.cumulativeDepositInterest - bank.borrowBalance * bank.cumulativeBorrowInterest
  }

  function Signed(direction: BalanceType, x: int): int {
    if direction == Deposit then x else -x
  }

  lemma TotalChange(bank: BankState, kind: BalanceType, total: u128)
    ensures NetOwed(bank.WithTotal(kind, total)) - NetOwed(bank)
            == Signed(kind, (total - bank.Total(kind)) * bank.Index(kind))
  {
  }

  /** Extending books `amount` tokens with an error of at most one index unit. */
  lemma ExtendDrift(amount: u128, kind: BalanceType, books: Books)
    requires Extend(amount, kind, books).Ok?
    ensures var bank, bank' := books.bank, Extend(amount, kind, books).value.bank;
            && SameTerms(bank, bank')
            && 0 - bank.Index(kind)
               <= NetOwed(bank') - NetOwed(bank) - Signed(kind, amount * bank.Precision()) <= bank.Index(kind)
  {
    var bank := books.bank;
    var delta := GetBankBalance(amount, bank, kind).value;
    BankBalanceBounds(amount, bank, kind);
    TotalChange(bank, kind, bank.Total(kind) + delta);
  }

  /** The units taken for a payment are worth the tokens paid, up to one index unit. */
  lemma PaymentBounds(amount: u128, bank: BankState, account: Account)
    requires bank.WellFormed()
    requires PaymentFor(amount, bank, account).Ok?
    ensures var payment, index := PaymentFor(amount, bank, account).value, bank.Index(account.Kind());
            && payment.tokens <= amount
            && payment.tokens * bank.Precision() - index <= payment.units * index
               <= payment.tokens * bank.Precision() + index
  {
    var kind := account.Kind();
    TokenAmountBounds(account.balance, bank, kind);
    var current := GetTokenAmount(account.balance, bank, kind).value;
    if current != 0 && current > amount {
      BankBalanceBounds(amount, bank, kind);
    }
  }

  /** Paying down books the tokens paid with an error of at most one index unit. */
  lemma PayDownDrift(amount: u128, books: Books)
    requires books.bank.WellFormed()
    requires PaymentFor(amount, books.bank, books.account).Ok?
    requires PayDown(PaymentFor(amount, books.bank, books.account).value, books).Ok?
    ensures var payment, kind := PaymentFor(amount, books.bank, books.account).value, books.account.Kind();
            var bank, bank' := books.bank, PayDown(payment, books).value.bank;
            && payment.tokens <= amount
            && SameTerms(bank, bank')
            && 0 - bank.Index(kind)
               <= NetOwed(bank') - NetOwed(bank) + Signed(kind, payment.tokens * bank.Precision()) <= bank.Index(kind)
  {
    var bank, kind := books.bank, books.account.Kind();
    var payment := PaymentFor(amount, bank, books.account).value;
    PaymentBounds(amount, bank, books.account);
    PaidTotal(payment, books);
  }

  lemma PaidTotal(payment: Payment, books: Books)
    requires PayDown(payment, books).Ok?
    ensures var bank, bank', kind := books.bank, PayDown(payment, books).value.bank, books.account.Kind();
            && SameTerms(bank, bank')
            && NetOwed(bank') - NetOwed(bank) == -Signed(kind, payment.units * bank.Index(kind))
  {
    var bank, kind := books.bank, books.account.Kind();
    if payment.tokens != 0 || payment.units != 0 {
      TotalChange(bank, kind, bank.Total(kind) - payment.units);
      NegatedProduct(payment.units, bank.Index(kind));
    } else {
      assert payment.units * bank.Index(kind) == 0;
    }
  }

  /** One booking of `amount` tokens changes the net debt of the bank by those
      tokens, with a rounding error of at most one unit of each index. */
  lemma BookingDrift(amount: u128, direction: BalanceType, books: Books)
    requires books.bank.WellFormed()
    requires UpdateBooks(amount, direction, books).Ok?
    ensures var bank, bank' := books.bank, UpdateBooks(amount, direction, books).value.bank;
            var slack := bank.cumulativeDepositInterest + bank.cumulativeBorrowInterest;
            -slack <= NetOwed(bank') - NetOwed(bank) - Signed(direction, amount * bank.Precision()) <= slack
  {
    var bank, account := books.bank, books.account;
    if direction == account.Kind() {
      ExtendDrift(amount, direction, books);
    } else {
      var payment := PaymentFor(amount, bank, account).value;
      var paid := PayDown(payment, books).value;
      PayDownDrift(amount, books);
      if payment.tokens < amount {
        var flipped := paid.account.WithKind(direction).value;
        ExtendDrift(amount - payment.tokens, direction, paid.(account := flipped));
      }
      SplitAmount(payment.tokens, amount, bank.Precision());
    }
  }

  lemma SplitAmount(part: nat, whole: nat, p: nat)
    requires part <= whole
    ensures part * p + (whole - part) * p == whole * p
  {
  }

  // ------------------------------------------------------- backing

  /** Deposits, in whole tokens, are worth at least the borrows. */
  predicate Backed(bank: BankState) {
    (bank.borrowBalance * bank.cumulativeBorrowInterest) / bank.Precision()
    <= (bank.depositBalance * bank.cumulativeDepositInterest) / bank.Precision()
  }

  lemma ScaledMonotone(small: nat, large: nat, index: nat, p: nat)
    requires small <= large && 0 < p
    ensures 0 <= small * index && (small * index) / p <= (large * index) / p
  {
    MulMono(small, large, index);
    DivMono(small * index, large * index, p);
  }

  lemma CheckedIsBacked(bank: BankState)
    requires CheckBacking(Borrow, bank).Ok?
    ensures Backed(bank)
  {
  }

  lemma DepositsOnlyHelp(amount: u128, books: Books)
    requires UpdateBooks(amount, Deposit, books).Ok?
    ensures var bank, bank' := books.bank, UpdateBooks(amount, Deposit, books).value.bank;
            && SameTerms(bank, bank')
            && bank'.borrowBalance <= bank.borrowBalance
            && bank.depositBalance <= bank'.depositBalance
  {
    hide GetBankBalance, GetTokenAmount;
  }

  lemma CheckPassed(amount: u128, direction: BalanceType, books: Books)
    requires UpdateBooks(amount, direction, books).Ok?
    ensures CheckBacking(direction, UpdateBooks(amount, direction, books).value.bank).Ok?
  {
  }

  /** The check after a Borrow-direction booking, and the direction of travel of
      the others, keep deposits above borrows. */
  lemma BookingKeepsBacking(amount: u128, direction: BalanceType, books: Books)
    requires books.bank.WellFormed() && Backed(books.bank)
    requires UpdateBooks(amount, direction, books).Ok?
    ensures Backed(UpdateBooks(amount, direction, books).value.bank)
  {
    hide UpdateBooks, Backed, CheckBacking;
    var bank, bank' := books.bank, UpdateBooks(amount, direction, books).value.bank;
    CheckPassed(amount, direction, books);
    if direction == Deposit {
      DepositsOnlyHelp(amount, books);
      BackedMonotone(bank, bank');
    } else {
      CheckedIsBacked(bank');
    }
  }

  lemma BackedMonotone(bank: BankState, bank': BankState)
    requires Backed(bank) && SameTerms(bank, bank')
    requires bank'.borrowBalance <= bank.borrowBalance && bank.depositBalance <= bank'.depositBalance
    ensures Backed(bank')
  {
    ScaledMonotone(bank'.borrowBalance, bank.borrowBalance, bank.cumulativeBorrowInterest, bank.Precision());
    ScaledMonotone(bank.depositBalance, bank'.depositBalance, bank.cumulativeDepositInterest, bank.Precision());
  }

  /** What an account is worth at the bank's indices: negative for a borrower. */
  function Worth(account: Account, bank: BankState): int {
    account.Part(Deposit) * bank.cumulativeDepositInterest - account.Part(Borrow) * bank.cumulativeBorrowInterest
  }

  /** A booking is worth to a user what it says, up to one unit of each index. */
  lemma UserBookingWorth(amount: u128, direction: BalanceType, books: Books)
    requires books.bank.WellFormed() && books.account.User?
    requires UpdateBooks(amount, direction, books).Ok?
    ensures var bank, before, after := books.bank, books.account, UpdateBooks(amount, direction, books).value.account;
            var slack := bank.cumulativeDepositInterest + bank.cumulativeBorrowInterest;
            -slack <= Worth(after, bank) - Worth(before, bank) - Signed(direction, amount * bank.Precision()) <= slack
  {
    hide UpdateBooks;
    var books' := UpdateBooks(amount, direction, books).value;
    BookingMirrors(amount, direction, books);
    BookingDrift(amount, direction, books);
    BookingKeepsTerms(amount, direction, books);
    SameGapSameChange(books.account.Part(Deposit), books'.account.Part(Deposit), books.bank.depositBalance,
                      books'.bank.depositBalance, books.bank.cumulativeDepositInterest);
    SameGapSameChange(books.account.Part(Borrow), books'.account.Part(Borrow), books.bank.borrowBalance,
                      books'.bank.borrowBalance, books.bank.cumulativeBorrowInterest);
  }

  lemma SameGapSameChange(part: int, part': int, total: int, total': int, index: int)
    requires part - total == part' - total'
    ensures part' * index - part * index == total' * index - total * index
  {
    assert part' * index - part * index == (part' - part) * index;
    assert total' * index - total * index == (total' - total) * index;
  }
}
