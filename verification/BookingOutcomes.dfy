/** When a booking succeeds and with what, in plain numbers: the bounds each step has
    to stay within, and the check that only a booking in the Borrow direction meets. */
module BookingOutcomes {
  import opened Arithmetic
  import opened Checked
  import opened BankMath
  import opened Booking

  /** `amount` tokens fit on top of `balance` and of the bank's total. */
  predicate CanExtend(amount: nat, kind: BalanceType, bank: BankState, balance: nat) {
    && UnitsFit(amount, bank, kind)
    && balance + UnitsOf(amount, bank, kind) <= U128_MAX
    && bank.Total(kind) + UnitsOf(amount, bank, kind) <= U128_MAX
  }

  /** `units` can be taken from the bank's total, and added to the account if that is
      a pool. */
  predicate CanTake(units: nat, books: Books) {
    && units <= books.bank.Total(books.account.Kind())
    && (books.account.Pool? ==> books.account.balance + units <= U128_MAX)
  }

  /** Everything a booking needs before the check that follows it. */
  predicate CanBook(amount: nat, direction: BalanceType, books: Books) {
    var bank, kind, balance := books.bank, books.account.Kind(), books.account.balance;
    if direction == kind then CanExtend(amount, kind, bank, balance)
    else
      && TokensFit(balance, bank, kind)
      && var held := TokensOf(balance, bank, kind);
         if held == 0 then amount == 0 || (books.account.User? && CanExtend(amount, direction, bank, balance))
         else if amount < held then UnitsFit(amount, bank, kind) && CanTake(UnitsOf(amount, bank, kind), books)
         else
           && CanTake(balance, books)
           && (amount > held ==> books.account.User? && CanExtend(amount - held, direction, bank, 0))
  }

  lemma ExtendSucceedsIff(amount: u128, kind: BalanceType, books: Books)
    ensures Extend(amount, kind, books).Ok? <==> CanExtend(amount, kind, books.bank, books.account.balance)
    ensures Extend(amount, kind, books).Ok? ==>
              var units := UnitsOf(amount, books.bank, kind);
              Extend(amount, kind, books).value
              == Books(books.bank.WithTotal(kind, books.bank.Total(kind) + units),
                       books.account.(balance := books.account.balance + units))
  {
    BankBalanceInNumbers(amount, books.bank, kind);
    hide GetBankBalance, UnitsOf;
  }

  lemma PaymentInNumbers(amount: u128, bank: BankState, account: Account)
    ensures var kind, balance := account.Kind(), account.balance;
            var payment := PaymentFor(amount, bank, account);
            && (payment.Ok? <==> TokensFit(balance, bank, kind)
                                 && (0 < TokensOf(balance, bank, kind) && amount < TokensOf(balance, bank, kind) ==>
                                       UnitsFit(amount, bank, kind)))
            && (payment.Ok? ==>
                  var held := TokensOf(balance, bank, kind);
                  payment.value == if held == 0 then Payment(0, 0)
                                   else if amount < held then Payment(amount, UnitsOf(amount, bank, kind))
                                   else Payment(held, balance))
  {
    TokenAmountInNumbers(account.balance, bank, account.Kind());
    BankBalanceInNumbers(amount, bank, account.Kind());
    hide GetBankBalance, GetTokenAmount, UnitsOf, TokensOf;
  }

  /** A booking goes through, but for the check, exactly when its numbers fit. */
  lemma BookedSucceedsIff(amount: u128, direction: BalanceType, books: Books)
    ensures Booked(amount, direction, books).Ok? <==> CanBook(amount, direction, books)
  {
    var bank, account := books.bank, books.account;
    if direction == account.Kind() {
      ExtendSucceedsIff(amount, direction, books);
    } else {
      PaymentInNumbers(amount, bank, account);
      PaymentWithinBalance(amount, bank, account);
      hide PaymentFor, Extend, UnitsOf, TokensOf, UnitsFit, TokensFit;
      if PaymentFor(amount, bank, account).Ok? {
        var payment := PaymentFor(amount, bank, account).value;
        if payment.tokens < amount && account.User? && PayDown(payment, books).Ok? {
          var paid := PayDown(payment, books).value;
          ExtendSucceedsIff(amount - payment.tokens, direction,
                            paid.(account := paid.account.WithKind(direction).value));
          SameUnits(amount - payment.tokens, bank, paid.bank, direction);
        }
      }
    }
  }

  lemma SameUnits(amount: u128, bank: BankState, bank': BankState, kind: BalanceType)
    requires SameTerms(bank, bank')
    ensures UnitsFit(amount, bank, kind) == UnitsFit(amount, bank', kind)
    ensures bank.Index(kind) != 0 ==> UnitsOf(amount, bank, kind) == UnitsOf(amount, bank', kind)
  {
  }

  /** The check: both totals can be expressed in tokens, and deposits cover borrows. */
  predicate PassesCheck(bank: BankState) {
    && TokensFit(bank.depositBalance, bank, Deposit) && TokensFit(bank.borrowBalance, bank, Borrow)
    && TokensOf(bank.borrowBalance, bank, Borrow) <= TokensOf(bank.depositBalance, bank, Deposit)
  }

  lemma CheckInNumbers(direction: BalanceType, bank: BankState)
    ensures CheckBacking(direction, bank).Ok? <==> direction == Deposit || PassesCheck(bank)
    ensures CheckBacking(direction, bank) == Err(BankInsufficientDeposits)
            <==> && direction == Borrow
                 && TokensFit(bank.depositBalance, bank, Deposit) && TokensFit(bank.borrowBalance, bank, Borrow)
                 && TokensOf(bank.depositBalance, bank, Deposit) < TokensOf(bank.borrowBalance, bank, Borrow)
  {
    TokenAmountInNumbers(bank.depositBalance, bank, Deposit);
    TokenAmountInNumbers(bank.borrowBalance, bank, Borrow);
    hide GetTokenAmount, TokensOf;
  }

  /** When a booking succeeds: its numbers fit, and one in the Borrow direction leaves
      the borrows covered. A deposit is not asked for that. */
  lemma BookingSucceedsIff(amount: u128, direction: BalanceType, books: Books)
    ensures Booked(amount, direction, books).Ok? <==> CanBook(amount, direction, books)
    ensures UpdateBooks(amount, direction, books).Ok?
            <==> && Booked(amount, direction, books).Ok?
                 && (direction == Borrow ==> PassesCheck(Booked(amount, direction, books).value.bank))
    ensures UpdateBooks(amount, direction, books).Ok? ==>
              UpdateBooks(amount, direction, books) == Booked(amount, direction, books)
  {
    BookedSucceedsIff(amount, direction, books);
    hide Booked, CanBook, CheckBacking, PassesCheck;
    if Booked(amount, direction, books).Ok? {
      CheckInNumbers(direction, Booked(amount, direction, books).value.bank);
    }
  }

  lemma NoBackingError(amount: u128, direction: BalanceType, books: Books)
    ensures Booked(amount, direction, books) != Err(BankInsufficientDeposits)
    ensures forall balance, bank, kind :: GetTokenAmount(balance, bank, kind) != Err(BankInsufficientDeposits)
  {
    hide GetBankBalance, GetTokenAmount;
    UnitsHaveNoBackingError();
  }

  lemma UnitsHaveNoBackingError()
    ensures forall x, b, kind :: GetTokenAmount(x, b, kind) != Err(BankInsufficientDeposits)
    ensures forall x, b, kind :: GetBankBalance(x, b, kind) != Err(BankInsufficientDeposits)
  {
  }

  /** A booking is refused for want of deposits exactly if it goes in the Borrow
      direction, its numbers fit, and the borrows it leaves are worth more tokens than
      the deposits. A deposit or a repayment never is. */
  lemma InsufficientDepositsIff(amount: u128, direction: BalanceType, books: Books)
    ensures Booked(amount, direction, books).Ok? <==> CanBook(amount, direction, books)
    ensures UpdateBooks(amount, direction, books) == Err(BankInsufficientDeposits)
            <==> && direction == Borrow && Booked(amount, direction, books).Ok?
                 && var bank := Booked(amount, direction, books).value.bank;
                 && TokensFit(bank.depositBalance, bank, Deposit) && TokensFit(bank.borrowBalance, bank, Borrow)
                 && TokensOf(bank.depositBalance, bank, Deposit) < TokensOf(bank.borrowBalance, bank, Borrow)
  {
    BookedSucceedsIff(amount, direction, books);
    NoBackingError(amount, direction, books);
    hide Booked, CanBook, CheckBacking, PassesCheck, TokensFit, TokensOf, GetTokenAmount;
    if Booked(amount, direction, books).Ok? {
      CheckInNumbers(direction, Booked(amount, direction, books).value.bank);
    }
  }

  /** The closed form of a booking on a pool: it grows by the units of what is paid in,
      and by the units of what is paid out; only the bank's total tells the two apart. */
  lemma PoolBookingClosedForm(amount: u128, direction: BalanceType, books: Books)
    requires books.account.Pool? && UpdateBooks(amount, direction, books).Ok?
    ensures var bank, balance := books.bank, books.account.balance;
            var books' := UpdateBooks(amount, direction, books).value;
            if direction == Deposit then
              && bank.Index(Deposit) != 0
              && var units := UnitsOf(amount, bank, Deposit);
              books' == Books(bank.WithTotal(Deposit, bank.depositBalance + units), Pool(balance + units))
            else
              var held := TokensOf(balance, bank, Deposit);
              && amount <= held
              && (0 < amount < held ==> bank.Index(Deposit) != 0)
              && var units := if amount == held then (if held == 0 then 0 else balance)
                              else if amount == 0 then 0 else UnitsOf(amount, bank, Deposit);
              books' == Books(bank.WithTotal(Deposit, bank.depositBalance - units), Pool(balance + units))
  {
    hide GetTokenAmount, GetBankBalance, CheckBacking, TokensFit, TokensOf, UnitsOf;
    if direction == Deposit {
      ExtendSucceedsIff(amount, direction, books);
      hide Extend;
    } else {
      PaymentInNumbers(amount, books.bank, books.account);
      hide PaymentFor;
      NoUnits(books.bank);
    }
  }

  lemma NoUnits(bank: BankState)
    ensures bank.Index(Deposit) != 0 ==> UnitsOf(0, bank, Deposit) == 0
  {
    assert 0 * bank.Precision() == 0;
  }
}
