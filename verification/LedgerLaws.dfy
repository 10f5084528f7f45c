/** What every run of the ledger keeps: how far the accounts and the bank totals
    agree, how solvent the bank stays, and which errors cannot happen. */
module LedgerLaws {
  import opened Arithmetic
  import opened Checked
  import opened BankMath
  import opened Booking
  import opened Ledger

  // ------------------------------------------------------- sums over accounts

  function SumPart(accounts: seq<Account>, kind: BalanceType): nat {
    if accounts == [] then 0 else accounts[0].Part(kind) + SumPart(accounts[1..], kind)
  }

  lemma {:induction false} SumPartUpdate(accounts: seq<Account>, i: nat, account: Account, kind: BalanceType)
    requires i < |accounts|
    ensures SumPart(accounts[i := account], kind)
            == SumPart(accounts, kind) - accounts[i].Part(kind) + account.Part(kind)
  {
    if i == 0 {
      assert accounts[i := account][1..] == accounts[1..];
    } else {
      assert accounts[i := account][1..] == accounts[1..][i - 1 := account];
      SumPartUpdate(accounts[1..], i - 1, account, kind);
    }
  }

  lemma {:induction false} SumPartAppend(accounts: seq<Account>, account: Account, kind: BalanceType)
    ensures SumPart(accounts + [account], kind) == SumPart(accounts, kind) + account.Part(kind)
  {
    if accounts == [] {
      assert accounts + [account] == [account];
    } else {
      assert (accounts + [account])[1..] == accounts[1..] + [account];
      SumPartAppend(accounts[1..], account, kind);
    }
  }

  lemma {:induction false} SumPartAtLeast(accounts: seq<Account>, i: nat, kind: BalanceType)
    requires i < |accounts|
    ensures accounts[i].Part(kind) <= SumPart(accounts, kind)
  {
    if i != 0 {
      SumPartAtLeast(accounts[1..], i - 1, kind);
    }
  }

  /** By how much the accounts of one side claim more than the bank records. */
  function Overstated(l: State, kind: BalanceType): int {
    SumPart(l.accounts, kind) - l.bank.Total(kind)
  }

  predicate Conserved(l: State) {
    Overstated(l, Deposit) == 0 && Overstated(l, Borrow) == 0
  }

  // ------------------------------------------------------- effects, and how they compose

  predicate SameIndices(a: BankState, b: BankState) {
    && a.cumulativeDepositInterest == b.cumulativeDepositInterest
    && a.cumulativeBorrowInterest == b.cumulativeBorrowInterest
  }

  function IndexSum(bank: BankState): nat {
    bank.cumulativeDepositInterest + bank.cumulativeBorrowInterest
  }

  /** From `a` to `b` with `net` tokens booked in, `updates` bookings,
      `poolUnits` balance units taken out of PnL pools, and `earned` token
      fractions charged to borrowers beyond what depositors were credited. */
  predicate Effect(a: State, b: State, net: int, updates: nat, poolUnits: nat, earned: int) {
    && a.bank.WellFormed() && b.bank.WellFormed()
    && a.bank.decimals == b.bank.decimals
    && a.bank.cumulativeDepositInterest <= b.bank.cumulativeDepositInterest
    && a.bank.cumulativeBorrowInterest <= b.bank.cumulativeBorrowInterest
    // accounts against totals
    && Overstated(b, Borrow) == Overstated(a, Borrow)
    && Overstated(b, Deposit) == Overstated(a, Deposit) + 2 * poolUnits
    // net debt
    && 0 - updates * IndexSum(b.bank)
       <= NetOwed(b.bank) - NetOwed(a.bank) - net * a.bank.Precision() + earned
       <= updates * IndexSum(b.bank)
    && earned >= a.bank.cumulativeDepositInterest - b.bank.cumulativeDepositInterest
    && (SameIndices(a.bank, b.bank) ==> earned == 0)
    // backing
    && (SameIndices(a.bank, b.bank) && Backed(a.bank) ==> Backed(b.bank))
  }

  lemma NoEffect(a: State, b: State)
    requires a.bank.WellFormed() && a.bank == b.bank
    requires SumPart(a.accounts, Deposit) == SumPart(b.accounts, Deposit)
    requires SumPart(a.accounts, Borrow) == SumPart(b.accounts, Borrow)
    ensures Effect(a, b, 0, 0, 0, 0)
  {
  }

  lemma EffectsCompose(a: State, b: State, c: State, net: int, updates: nat, poolUnits: nat, earned: int,
                       net': int, updates': nat, poolUnits': nat, earned': int)
    requires Effect(a, b, net, updates, poolUnits, earned) && Effect(b, c, net', updates', poolUnits', earned')
    ensures Effect(a, c, net + net', updates + updates', poolUnits + poolUnits', earned + earned')
  {
    var p, s, s' := a.bank.Precision(), IndexSum(b.bank), IndexSum(c.bank);
    assert p == b.bank.Precision();
    assert (net + net') * p == net * p + net' * p;
    MulMono(s, s', updates);
    assert (updates + updates') * s' == updates * s' + updates' * s';
    assert SameIndices(a.bank, c.bank) ==> SameIndices(a.bank, b.bank) && SameIndices(b.bank, c.bank);
  }

  lemma BookEffect(l: State, i: nat, amount: u128, direction: BalanceType)
    requires l.bank.WellFormed()
    requires Book(l, i, amount, direction).Ok?
    ensures i < |l.accounts|
    ensures var l' := Book(l, i, amount, direction).value;
            && Effect(l, l', Signed(direction, amount), 1,
                      PoolUnitsPaid(amount, direction, Books(l.bank, l.accounts[i])), 0)
            && l'.bank.WellFormed()
            && SameTerms(l.bank, l'.bank)
            && |l'.accounts| == |l.accounts| && l'.vault == l.vault
            && (forall j :: 0 <= j < |l.accounts| ==> l'.accounts[j].Pool? == l.accounts[j].Pool?)
            && (forall j :: 0 <= j < |l.accounts| && j != i ==> l'.accounts[j] == l.accounts[j])
  {
    var books := Books(l.bank, l.accounts[i]);
    var books' := UpdateBooks(amount, direction, books).value;
    BookingKeepsTerms(amount, direction, books);
    BookingMirrors(amount, direction, books);
    BookingDrift(amount, direction, books);
    SumPartUpdate(l.accounts, i, books'.account, Deposit);
    SumPartUpdate(l.accounts, i, books'.account, Borrow);
    if Backed(l.bank) {
      BookingKeepsBacking(amount, direction, books);
    }
    NegatedProduct(amount, l.bank.Precision());
  }

  /** The growth an accrual applies: both indices move, or neither does. */
  function Growth(bank: BankState, now: int): InterestAccumulated {
    match CalculateAccumulatedInterest(bank, now)
    case Ok(i) => if i.depositInterest > 0 && i.borrowInterest > 1 then i else InterestAccumulated(0, 0)
    case Err(_) => InterestAccumulated(0, 0)
  }

  /** What an accrual charges borrowers beyond what it credits depositors. */
  function Earned(bank: BankState, now: int): int {
    bank.borrowBalance * Growth(bank, now).borrowInterest - bank.depositBalance * Growth(bank, now).depositInterest
  }

  /** An accrual takes from the net debt what it earns; what it can lose is no more
      than the growth of the deposit index. */
  lemma AccrueEffect(l: State, now: int)
    requires l.bank.WellFormed()
    requires Accrued(l, now).Ok?
    ensures var l' := Accrued(l, now).value;
            && Effect(l, l', 0, 0, 0, Earned(l.bank, now))
            && l'.bank.WellFormed()
            && l'.accounts == l.accounts && l'.vault == l.vault
            && l'.bank.depositBalance == l.bank.depositBalance && l'.bank.borrowBalance == l.bank.borrowBalance
  {
    var bank, bank' := l.bank, Accrue(l.bank, now).value;
    if bank' != bank {
      var interest := CalculateAccumulatedInterest(bank, now).value;
      InterestIsCovered(bank, now);
      IndexShift(bank, bank', interest.depositInterest, interest.borrowInterest);
      assert !SameIndices(bank, bank');
    }
  }

  lemma IndexShift(bank: BankState, bank': BankState, di: nat, bi: nat)
    requires bank'.depositBalance == bank.depositBalance && bank'.borrowBalance == bank.borrowBalance
    requires bank'.cumulativeDepositInterest == bank.cumulativeDepositInterest + di
    requires bank'.cumulativeBorrowInterest == bank.cumulativeBorrowInterest + bi
    ensures NetOwed(bank') - NetOwed(bank) == bank.depositBalance * di - bank.borrowBalance * bi
  {
  }

  // ------------------------------------------------------- one instruction

  /** Tokens an instruction takes out of the vault without booking them. */
  function FeesOut(ix: Instruction): nat {
    if ix.WithdrawFees? then ix.amount else 0
  }

  function Bookings(ix: Instruction): nat {
    match ix
    case OpenAccount(_) => 0
    case AccrueInterest(_) => 0
    case DepositFunds(_, _, _, _, _) => 1
    case WithdrawFunds(_, _, _, _, _) => 1
    case TransferDeposit(_, _, _, _, _) => 2
    case SettlePnl(_, _, _, _) => 2
    case CollectLiquidationFee(_, _, _, _) => 2
    case WithdrawFees(_, _) => 0
  }

  /** Balance units a settlement of positive pnl takes out of a pool. */
  function PoolPaid(l: State, ix: Instruction): nat {
    if ix.SettlePnl? && ix.unsettled > 0 && IsPool(l, ix.pool) then
      match GetTokenAmount(l.accounts[ix.pool].balance, l.bank, Deposit)
      case Ok(poolTokens) =>
        PoolUnitsPaid(AmountToSettle(ix.unsettled, poolTokens), Borrow, Books(l.bank, l.accounts[ix.pool]))
      case Err(_) => 0
    else 0
  }

  /** Interest an instruction makes the bank earn, from its accrual. */
  function EarnedBy(l: State, ix: Instruction): int {
    match ix
    case AccrueInterest(now) => Earned(l.bank, now)
    case DepositFunds(_, _, _, now, _) => Earned(l.bank, now)
    case WithdrawFunds(_, _, _, now, _) => Earned(l.bank, now)
    case TransferDeposit(_, _, _, now, _) => Earned(l.bank, now)
    case _ => 0
  }

  lemma MoreBookings(a: State, b: State, net: int, updates: nat, updates': nat, poolUnits: nat, earned: int)
    requires Effect(a, b, net, updates, poolUnits, earned) && updates <= updates'
    ensures Effect(a, b, net, updates', poolUnits, earned)
  {
    MulMono(updates, updates', IndexSum(b.bank));
  }

  /** A deposit into one account followed by a withdrawal from another, or the
      other way round, within one instruction. */
  lemma TwoBookings(l: State, i: nat, amount: u128, direction: BalanceType, j: nat, amount': u128,
                    direction': BalanceType)
    requires l.bank.WellFormed()
    requires Book(l, i, amount, direction).Ok?
    requires i < |l.accounts| && (l.accounts[i].User? || direction == Deposit)
    requires Book(Book(l, i, amount, direction).value, j, amount', direction').Ok?
    requires j < |l.accounts| && (i != j || l.accounts[i].User?)
    ensures var l' := Book(Book(l, i, amount, direction).value, j, amount', direction').value;
            && Effect(l, l', Signed(direction, amount) + Signed(direction', amount'), 2,
                      PoolUnitsPaid(amount', direction', Books(l.bank, l.accounts[j])), 0)
            && l'.vault == l.vault
            && l'.bank.WellFormed()
  {
    hide Effect, UpdateBooks, Book;
    var l1 := Book(l, i, amount, direction).value;
    var l2 := Book(l1, j, amount', direction').value;
    BookEffect(l, i, amount, direction);
    BookEffect(l1, j, amount', direction');
    var units := PoolUnitsPaid(amount', direction', Books(l1.bank, l1.accounts[j]));
    assert units == PoolUnitsPaid(amount', direction', Books(l.bank, l.accounts[j])) by {
      SameTermsSamePayment(amount', direction', l.bank, l1.bank, l1.accounts[j]);
    }
    EffectsCompose(l, l1, l2, Signed(direction, amount), 1, 0, 0, Signed(direction', amount'), 1, units, 0);
  }

  lemma SettleEffect(l: State, user: nat, pool: nat, unsettled: i128, authorised: bool)
    requires l.bank.WellFormed() && Settled(l, user, pool, unsettled, authorised).Ok?
    ensures var l' := Settled(l, user, pool, unsettled, authorised).value.state;
            && Effect(l, l', 0, 2, PoolPaid(l, SettlePnl(user, pool, unsettled, authorised)), 0)
            && l'.vault == l.vault
            && l'.bank.WellFormed()
  {
    hide Effect, UpdateBooks, Book, GetTokenAmount;
    var settlement := Settled(l, user, pool, unsettled, authorised).value;
    var paid := settlement.paid;
    if unsettled == 0 {
      NothingBooked(l);
    } else if unsettled < 0 {
      TwoBookings(l, pool, paid, Deposit, user, paid, Borrow);
    } else if GetTokenAmount(l.accounts[pool].balance, l.bank, Deposit).value == 0 {
      NothingBooked(l);
    } else {
      TwoBookings(l, user, paid, Deposit, pool, paid, Borrow);
    }
  }

  /** Effects are about the bank and the accounts; the vault moves separately. */
  lemma VaultAside(a: State, b: State, b': State, net: int, updates: nat, poolUnits: nat, earned: int)
    requires Effect(a, b, net, updates, poolUnits, earned)
    requires b'.bank == b.bank && b'.accounts == b.accounts
    ensures Effect(a, b', net, updates, poolUnits, earned)
  {
  }

  lemma NothingBooked(l: State)
    requires l.bank.WellFormed()
    ensures Effect(l, l, 0, 2, 0, 0)
  {
    NoEffect(l, l);
    MoreBookings(l, l, 0, 0, 2, 0, 0);
  }

  /** A payment depends on the bank's terms only, not on its totals. */
  lemma SameTermsSamePayment(amount: u128, direction: BalanceType, bank: BankState, bank': BankState, account: Account)
    requires SameTerms(bank, bank')
    ensures PoolUnitsPaid(amount, direction, Books(bank, account))
            == PoolUnitsPaid(amount, direction, Books(bank', account))
  {
  }

  lemma FeeEffect(l: State, user: nat, liquidator: nat, fee: u128, shareDenominator: u64)
    requires l.bank.WellFormed() && FeeCollected(l, user, liquidator, fee, shareDenominator).Ok?
    ensures var l' := FeeCollected(l, user, liquidator, fee, shareDenominator).value;
            && Effect(l, l', l'.vault - l.vault, 2, 0, 0)
            && l'.bank.WellFormed()
  {
    hide Effect, UpdateBooks, Book;
    var l' := FeeCollected(l, user, liquidator, fee, shareDenominator).value;
    var split := SplitFee(fee, shareDenominator).value;
    var l1 := l;
    if split.toLiquidator > 0 {
      TwoBookings(l, liquidator, split.toLiquidator, Deposit, user, fee, Borrow);
      BookEffect(l, liquidator, split.toLiquidator, Deposit);
      l1 := Book(l, liquidator, split.toLiquidator, Deposit).value;
    } else {
      BookEffect(l, user, fee, Borrow);
      MoreBookings(l, Book(l, user, fee, Borrow).value, Signed(Borrow, fee), 1, 2, 0, 0);
    }
    BookEffect(l1, user, fee, Borrow);
    VaultAside(l, Book(l1, user, fee, Borrow).value, l',
               Signed(Deposit, split.toLiquidator) + Signed(Borrow, fee), 2, 0, 0);
  }

  /** Accrual, then one booking on a user: the shape of deposit and withdraw. */
  lemma AccrueThenBook(l: State, now: int, user: nat, amount: u128, direction: BalanceType)
    requires l.bank.WellFormed()
    requires Accrued(l, now).Ok? && IsUser(l, user)
    requires Book(Accrued(l, now).value, user, amount, direction).Ok?
    ensures var l' := Book(Accrued(l, now).value, user, amount, direction).value;
            && Effect(l, l', Signed(direction, amount), 1, 0, Earned(l.bank, now))
            && l'.vault == l.vault
            && l'.bank.WellFormed()
  {
    hide Effect, UpdateBooks, Book, Accrued, Earned;
    AccrueEffect(l, now);
    var l1 := Accrued(l, now).value;
    BookEffect(l1, user, amount, direction);
    EffectsCompose(l, l1, Book(l1, user, amount, direction).value,
                   0, 0, 0, Earned(l.bank, now), Signed(direction, amount), 1, 0, 0);
  }

  lemma TransferEffect(l: State, from: nat, to: nat, amount: u64, now: int, meetsMargin: bool)
    requires l.bank.WellFormed() && Transferred(l, from, to, amount, now, meetsMargin).Ok?
    ensures var l' := Transferred(l, from, to, amount, now, meetsMargin).value;
            && Effect(l, l', 0, 2, 0, Earned(l.bank, now))
            && l'.vault == l.vault
            && l'.bank.WellFormed()
  {
    hide Effect, UpdateBooks, Book, Accrued, Earned;
    AccrueEffect(l, now);
    var l1 := Accrued(l, now).value;
    TwoBookings(l1, from, amount, Borrow, to, amount, Deposit);
    EffectsCompose(l, l1, Transferred(l, from, to, amount, now, meetsMargin).value,
                   0, 0, 0, Earned(l.bank, now), 0, 2, 0, 0);
  }

  /** The effect of any successful instruction. */
  lemma StepEffect(l: State, ix: Instruction)
    requires l.bank.WellFormed() && Step(l, ix).Ok?
    ensures var l' := Step(l, ix).value;
            && Effect(l, l', l'.vault - l.vault + FeesOut(ix), Bookings(ix), PoolPaid(l, ix), EarnedBy(l, ix))
            && l'.bank.WellFormed()
  {
    hide Effect, Book, Accrued, Earned, Settled, FeeCollected, Transferred, GetTokenAmount;
    var l' := Step(l, ix).value;
    match ix
    case OpenAccount(isPool) =>
      var account := if isPool then Pool(0) else User(Deposit, 0);
      SumPartAppend(l.accounts, account, Deposit);
      SumPartAppend(l.accounts, account, Borrow);
      NoEffect(l, l');
    case AccrueInterest(now) =>
      AccrueEffect(l, now);
    case DepositFunds(user, amount, reduceOnly, now, _) =>
      AccrueEffect(l, now);
      var l1 := Accrued(l, now).value;
      var booked := CappedAmount(l1.bank, l1.accounts[user], amount, reduceOnly, Borrow).value;
      AccrueThenBook(l, now, user, booked, Deposit);
      VaultAside(l, Book(l1, user, booked, Deposit).value, l', booked, 1, 0, Earned(l.bank, now));
    case WithdrawFunds(user, amount, reduceOnly, now, _) =>
      AccrueEffect(l, now);
      var l1 := Accrued(l, now).value;
      var booked := CappedAmount(l1.bank, l1.accounts[user], amount, reduceOnly, Deposit).value;
      AccrueThenBook(l, now, user, booked, Borrow);
      VaultAside(l, Book(l1, user, booked, Borrow).value, l', Signed(Borrow, booked), 1, 0, Earned(l.bank, now));
    case TransferDeposit(from, to, amount, now, meetsMargin) =>
      TransferEffect(l, from, to, amount, now, meetsMargin);
    case SettlePnl(user, pool, unsettled, authorised) =>
      SettleEffect(l, user, pool, unsettled, authorised);
    case CollectLiquidationFee(user, liquidator, fee, shareDenominator) =>
      FeeEffect(l, user, liquidator, fee, shareDenominator);
    case WithdrawFees(_, _) =>
      NoEffect(l, l');
  }

  // ------------------------------------------------------- whole runs

  function RunBookings(l: State, ixs: seq<Instruction>): nat
    decreases |ixs|
  {
    if ixs == [] then 0
    else (if Step(l, ixs[0]).Ok? then Bookings(ixs[0]) else 0) + RunBookings(Apply(l, ixs[0]), ixs[1..])
  }

  function RunFees(l: State, ixs: seq<Instruction>): nat
    decreases |ixs|
  {
    if ixs == [] then 0
    else (if Step(l, ixs[0]).Ok? then FeesOut(ixs[0]) else 0) + RunFees(Apply(l, ixs[0]), ixs[1..])
  }

  function RunPoolPaid(l: State, ixs: seq<Instruction>): nat
    decreases |ixs|
  {
    if ixs == [] then 0
    else (if Step(l, ixs[0]).Ok? then PoolPaid(l, ixs[0]) else 0) + RunPoolPaid(Apply(l, ixs[0]), ixs[1..])
  }

  function RunEarned(l: State, ixs: seq<Instruction>): int
    decreases |ixs|
  {
    if ixs == [] then 0
    else (if Step(l, ixs[0]).Ok? then EarnedBy(l, ixs[0]) else 0) + RunEarned(Apply(l, ixs[0]), ixs[1..])
  }

  lemma {:induction false} RunEffect(l: State, ixs: seq<Instruction>)
    requires l.bank.WellFormed()
    ensures var l' := Run(l, ixs);
            Effect(l, l', l'.vault - l.vault + RunFees(l, ixs), RunBookings(l, ixs), RunPoolPaid(l, ixs),
                   RunEarned(l, ixs))
    decreases |ixs|
  {
    hide Effect, Step, PoolPaid, EarnedBy;
    if ixs == [] {
      NoEffect(l, l);
    } else {
      var ix, l1, l' := ixs[0], Apply(l, ixs[0]), Run(l, ixs);
      if Step(l, ix).Ok? {
        StepEffect(l, ix);
        RunEffect(l1, ixs[1..]);
        EffectsCompose(l, l1, l', l1.vault - l.vault + FeesOut(ix), Bookings(ix), PoolPaid(l, ix), EarnedBy(l, ix),
                       l'.vault - l1.vault + RunFees(l1, ixs[1..]),
                       RunBookings(l1, ixs[1..]), RunPoolPaid(l1, ixs[1..]),
                       RunEarned(l1, ixs[1..]));
      } else {
        RunEffect(l1, ixs[1..]);
      }
    }
  }
}
