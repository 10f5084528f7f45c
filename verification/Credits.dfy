/** What a user is credited: by one instruction, and over a whole run. */
module Credits {
  import opened Arithmetic
  import opened Checked
  import opened BankMath
  import opened Booking
  import opened Ledger
  import opened LedgerLaws
  import opened Legs

  // ------------------------------------------------------- one instruction

  /** Tokens an instruction credits to account `i`, negative when it debits them. */
  function Credit(l: State, ix: Instruction, i: nat): int
    requires Step(l, ix).Ok?
  {
    match ix
    case DepositFunds(user, amount, reduceOnly, now, _) =>
      if i == user then AmountMoved(Accrue(l.bank, now).value, l.accounts[user], amount, reduceOnly, Borrow) else 0
    case WithdrawFunds(user, amount, reduceOnly, now, _) =>
      if i == user then 0 - AmountMoved(Accrue(l.bank, now).value, l.accounts[user], amount, reduceOnly, Deposit) else 0
    case TransferDeposit(from, to, amount, _, _) => (if i == to then amount else 0) - (if i == from then amount else 0)
    case SettlePnl(user, pool, unsettled, authorised) =>
      var paid := Settled(l, user, pool, unsettled, authorised).value.paid;
      if i != user then 0 else if unsettled > 0 then paid else 0 - paid
    case CollectLiquidationFee(user, liquidator, fee, shareDenominator) =>
      (if i == liquidator then fee / shareDenominator else 0) - (if i == user then fee else 0)
    case _ => 0
  }

  function Count(condition: bool): nat {
    if condition then 1 else 0
  }

  /** How many of its bookings name user `i`. */
  function BookingsOf(ix: Instruction, i: nat): nat {
    match ix
    case DepositFunds(user, _, _, _, _) => Count(i == user)
    case WithdrawFunds(user, _, _, _, _) => Count(i == user)
    case TransferDeposit(from, to, _, _, _) => Count(i == from) + Count(i == to)
    case SettlePnl(user, _, _, _) => Count(i == user)
    case CollectLiquidationFee(user, liquidator, _, _) => Count(i == user) + Count(i == liquidator)
    case _ => 0
  }

  /** Account `i` of `l'` is worth `credit` tokens more than in `l`, at the indices
      of `l'`, up to `updates` roundings. */
  predicate Credited(l: State, l': State, i: nat, credit: int, updates: nat)
    requires i < |l.accounts| <= |l'.accounts|
  {
    var change := Worth(l'.accounts[i], l'.bank) - Worth(l.accounts[i], l'.bank) - credit * l'.bank.Precision();
    -(updates * IndexSum(l'.bank)) <= change <= updates * IndexSum(l'.bank)
  }

  function LegCredit(leg: Leg, i: nat): int {
    if leg.account == i then Signed(leg.direction, leg.amount) else 0
  }

  function LegsCredit(legs: seq<Leg>, i: nat): int {
    if legs == [] then 0 else LegCredit(legs[0], i) + LegsCredit(legs[1..], i)
  }

  function LegsNaming(legs: seq<Leg>, i: nat): nat {
    if legs == [] then 0 else Count(legs[0].account == i) + LegsNaming(legs[1..], i)
  }

  lemma LegCredits(l: State, leg: Leg, i: nat)
    requires l.bank.WellFormed() && IsUser(l, i) && Book(l, leg.account, leg.amount, leg.direction).Ok?
    ensures var l' := Book(l, leg.account, leg.amount, leg.direction).value;
            && |l'.accounts| == |l.accounts| && IsUser(l', i) && SameTerms(l.bank, l'.bank) && l'.bank.WellFormed()
            && Credited(l, l', i, LegCredit(leg, i), Count(leg.account == i))
            && (leg.account != i ==> l'.accounts[i] == l.accounts[i])
  {
    hide UpdateBooks;
    BookEffect(l, leg.account, leg.amount, leg.direction);
    if leg.account == i {
      UserBookingWorth(leg.amount, leg.direction, Books(l.bank, l.accounts[i]));
      NegatedProduct(leg.amount, l.bank.Precision());
    }
  }

  lemma CreditsAdd(l: State, l1: State, l2: State, i: nat, credit: int, credit': int, updates: nat, updates': nat)
    requires i < |l.accounts| == |l1.accounts| == |l2.accounts|
    requires SameTerms(l1.bank, l2.bank)
    requires Credited(l, l1, i, credit, updates) && Credited(l1, l2, i, credit', updates')
    ensures Credited(l, l2, i, credit + credit', updates + updates')
  {
    Distributes(credit, credit', l2.bank.Precision());
    Distributes(updates, updates', IndexSum(l2.bank));
  }

  lemma Distributes(a: int, b: int, c: int)
    ensures (a + b) * c == a * c + b * c
  {
  }

  lemma Unchanged(l: State, l': State, i: nat, updates: nat)
    requires i < |l.accounts| <= |l'.accounts| && l.accounts[i] == l'.accounts[i]
    ensures Credited(l, l', i, 0, updates)
  {
    MulNonNegative(updates, IndexSum(l'.bank));
  }

  lemma MoreRoundings(l: State, l': State, i: nat, credit: int, updates: nat, updates': nat)
    requires i < |l.accounts| <= |l'.accounts| && updates <= updates'
    requires Credited(l, l', i, credit, updates)
    ensures Credited(l, l', i, credit, updates')
  {
    MulMono(updates, updates', IndexSum(l'.bank));
  }

  /** Legs credit a user the sum of what they say, within a unit of each index per
      leg that names him. */
  lemma {:induction false} LegsCreditUsers(l: State, legs: seq<Leg>, i: nat)
    requires l.bank.WellFormed() && IsUser(l, i) && BookAll(l, legs).Ok?
    ensures var l' := BookAll(l, legs).value;
            && |l'.accounts| == |l.accounts| && IsUser(l', i) && SameTerms(l.bank, l'.bank)
            && Credited(l, l', i, LegsCredit(legs, i), LegsNaming(legs, i))
            && (LegsNaming(legs, i) == 0 ==> l'.accounts[i] == l.accounts[i])
    decreases |legs|
  {
    hide Book, Credited, LegCredit;
    if legs == [] {
      Unchanged(l, l, i, 0);
    } else {
      var l1 := Book(l, legs[0].account, legs[0].amount, legs[0].direction).value;
      LegCredits(l, legs[0], i);
      LegsCreditUsers(l1, legs[1..], i);
      CreditsAdd(l, l1, BookAll(l, legs).value, i, LegCredit(legs[0], i), LegsCredit(legs[1..], i),
                 Count(legs[0].account == i), LegsNaming(legs[1..], i));
    }
  }

  lemma OneLeg(leg: Leg, i: nat)
    ensures LegsCredit([leg], i) == LegCredit(leg, i)
    ensures LegsNaming([leg], i) == Count(leg.account == i)
  {
    assert [leg][1..] == [];
  }

  lemma TwoLegs(first: Leg, second: Leg, i: nat)
    ensures LegsCredit([first, second], i) == LegCredit(first, i) + LegCredit(second, i)
    ensures LegsNaming([first, second], i) == Count(first.account == i) + Count(second.account == i)
  {
    assert [first, second][1..] == [second];
    OneLeg(second, i);
  }

  predicate SaysItsCredit(l: State, ix: Instruction, i: nat)
    requires Step(l, ix).Ok? && Planned(l, ix).Ok?
  {
    && LegsCredit(Planned(l, ix).value.legs, i) == Credit(l, ix, i)
    && LegsNaming(Planned(l, ix).value.legs, i) <= BookingsOf(ix, i)
  }

  /** The legs of an instruction say what it is about. */
  lemma PlanCredits(l: State, ix: Instruction, i: nat)
    requires IsUser(l, i) && Step(l, ix).Ok?
    ensures Planned(l, ix).Ok? && SaysItsCredit(l, ix, i)
  {
    StepFollowsPlan(l, ix);
    if ix.SettlePnl? {
      SettlementCredits(l, ix, i);
    } else if ix.CollectLiquidationFee? {
      FeeCredits(l, ix, i);
    } else {
      hide Book, BookAll, Accrue, GetTokenAmount;
      var plan := Planned(l, ix).value;
      if ix.TransferDeposit? {
        TwoLegs(plan.legs[0], plan.legs[1], i);
      } else if ix.DepositFunds? {
        OneLeg(plan.legs[0], i);
        CappedAmountInNumbers(plan.start.bank, l.accounts[ix.user], ix.amount, ix.reduceOnly, Borrow);
      } else if ix.WithdrawFunds? {
        OneLeg(plan.legs[0], i);
        CappedAmountInNumbers(plan.start.bank, l.accounts[ix.user], ix.amount, ix.reduceOnly, Deposit);
      }
    }
  }

  lemma SettlementCredits(l: State, ix: Instruction, i: nat)
    requires IsUser(l, i) && ix.SettlePnl? && Step(l, ix).Ok? && Planned(l, ix).Ok?
    ensures SaysItsCredit(l, ix, i)
  {
    hide Book, GetTokenAmount;
    var legs := Planned(l, ix).value.legs;
    if legs != [] {
      TwoLegs(legs[0], legs[1], i);
    }
  }

  lemma FeeCredits(l: State, ix: Instruction, i: nat)
    requires IsUser(l, i) && ix.CollectLiquidationFee? && Step(l, ix).Ok? && Planned(l, ix).Ok?
    ensures SaysItsCredit(l, ix, i)
  {
    hide Book;
    var legs := Planned(l, ix).value.legs;
    if |legs| == 1 {
      OneLeg(legs[0], i);
    } else {
      TwoLegs(legs[0], legs[1], i);
    }
  }

  /** Every instruction credits each user exactly the tokens it is about, up to one
      unit of each index per booking that names him, and leaves accounts it does
      not name alone. */
  lemma UsersGetWhatTheInstructionSays(l: State, ix: Instruction, i: nat)
    requires l.bank.WellFormed() && IsUser(l, i) && Step(l, ix).Ok?
    ensures var l' := Step(l, ix).value;
            && |l.accounts| <= |l'.accounts| && IsUser(l', i)
            && Credited(l, l', i, Credit(l, ix, i), BookingsOf(ix, i))
            && (BookingsOf(ix, i) == 0 ==> l'.accounts[i] == l.accounts[i])
  {
    hide Step, Planned, BookAll, Credited, Credit, LegsCredit, LegsNaming, BookingsOf;
    StepFollowsPlan(l, ix);
    PlannedStart(l, ix);
    PlanCredits(l, ix, i);
    var plan, l' := Planned(l, ix).value, Step(l, ix).value;
    OpenedAtTheEnd(l, ix, i);
    LegsCreditUsers(plan.start, plan.legs, i);
    CreditedElsewhere(plan.start, l, BookAll(plan.start, plan.legs).value, l', i, Credit(l, ix, i),
                      LegsNaming(plan.legs, i));
    MoreRoundings(l, l', i, Credit(l, ix, i), LegsNaming(plan.legs, i), BookingsOf(ix, i));
  }

  lemma OpenedAtTheEnd(l: State, ix: Instruction, i: nat)
    requires i < |l.accounts| && Planned(l, ix).Ok?
    ensures var start := Planned(l, ix).value.start;
            |l.accounts| <= |start.accounts| && start.accounts[i] == l.accounts[i]
  {
    hide Accrue, GetTokenAmount;
  }

  /** Only the bank and this account matter to what the account was credited. */
  lemma CreditedElsewhere(l: State, m: State, l': State, m': State, i: nat, credit: int, updates: nat)
    requires i < |l.accounts| <= |l'.accounts| && i < |m.accounts| <= |m'.accounts|
    requires l.accounts[i] == m.accounts[i] && l'.accounts[i] == m'.accounts[i] && l'.bank == m'.bank
    requires Credited(l, l', i, credit, updates)
    ensures Credited(m, m', i, credit, updates)
  {
  }

  // ------------------------------------------------------- whole runs

  /** What account `i` is worth; nothing before it is opened. */
  function Held(l: State, i: nat): int {
    if i < |l.accounts| then Worth(l.accounts[i], l.bank) else 0
  }

  /** What the growth of the indices from `l` to `l'` adds to account `i`. */
  function Interest(l: State, l': State, i: nat): int {
    if i < |l.accounts| then
      l.accounts[i].Part(Deposit) * (l'.bank.cumulativeDepositInterest - l.bank.cumulativeDepositInterest)
      - l.accounts[i].Part(Borrow) * (l'.bank.cumulativeBorrowInterest - l.bank.cumulativeBorrowInterest)
    else 0
  }

  function RunCredit(l: State, ixs: seq<Instruction>, i: nat): int
    decreases |ixs|
  {
    if ixs == [] then 0
    else (if Step(l, ixs[0]).Ok? then Credit(l, ixs[0], i) else 0) + RunCredit(Apply(l, ixs[0]), ixs[1..], i)
  }

  function RunInterest(l: State, ixs: seq<Instruction>, i: nat): int
    decreases |ixs|
  {
    if ixs == [] then 0
    else Interest(l, Apply(l, ixs[0]), i) + RunInterest(Apply(l, ixs[0]), ixs[1..], i)
  }

  function RunBookingsOf(l: State, ixs: seq<Instruction>, i: nat): nat
    decreases |ixs|
  {
    if ixs == [] then 0
    else (if Step(l, ixs[0]).Ok? then BookingsOf(ixs[0], i) else 0) + RunBookingsOf(Apply(l, ixs[0]), ixs[1..], i)
  }

  /** From `l` to `l'` account `i` gains `credit` tokens and `interest` token
      fractions, up to `updates` roundings. */
  predicate Gained(l: State, l': State, i: nat, credit: int, interest: int, updates: nat) {
    var error := Held(l', i) - Held(l, i) - credit * l.bank.Precision() - interest;
    -(updates * IndexSum(l'.bank)) <= error <= updates * IndexSum(l'.bank)
  }

  /** Indices only grow, and the precision stays. */
  predicate Later(a: BankState, b: BankState) {
    IndexSum(a) <= IndexSum(b) && a.Precision() == b.Precision()
  }

  lemma GainsAdd(l: State, l1: State, l2: State, i: nat, credit: int, interest: int, updates: nat,
                 credit': int, interest': int, updates': nat)
    requires Later(l.bank, l1.bank) && Later(l1.bank, l2.bank)
    requires Gained(l, l1, i, credit, interest, updates) && Gained(l1, l2, i, credit', interest', updates')
    ensures Gained(l, l2, i, credit + credit', interest + interest', updates + updates')
  {
    Distributes(credit, credit', l.bank.Precision());
    MulMono(IndexSum(l1.bank), IndexSum(l2.bank), updates);
    Distributes(updates, updates', IndexSum(l2.bank));
  }

  lemma InterestOnHeld(account: Account, bank: BankState, bank': BankState)
    ensures Worth(account, bank') - Worth(account, bank)
            == account.Part(Deposit) * (bank'.cumulativeDepositInterest - bank.cumulativeDepositInterest)
               - account.Part(Borrow) * (bank'.cumulativeBorrowInterest - bank.cumulativeBorrowInterest)
  {
  }

  /** Accounts are never closed, a pool stays a pool and a user a user, and what
      is opened is empty. */
  lemma AccountsStay(l: State, ix: Instruction, i: nat)
    requires l.bank.WellFormed() && Step(l, ix).Ok?
    ensures var l' := Step(l, ix).value;
            && (IsPool(l, i) ==> IsPool(l', i))
            && (i >= |l.accounts| ==> Held(l', i) == 0 && BookingsOf(ix, i) == 0 && Credit(l, ix, i) == 0)
  {
    hide Accrue, GetTokenAmount, Book;
    StepFollowsPlan(l, ix);
    PlannedStart(l, ix);
    var plan := Planned(l, ix).value;
    LegsKeepAccounts(plan.start, plan.legs, i);
  }

  lemma {:induction false} LegsKeepAccounts(l: State, legs: seq<Leg>, i: nat)
    requires l.bank.WellFormed() && BookAll(l, legs).Ok?
    ensures var l' := BookAll(l, legs).value;
            |l'.accounts| == |l.accounts| && (IsPool(l, i) ==> IsPool(l', i))
    decreases |legs|
  {
    hide Book;
    if legs != [] {
      BookEffect(l, legs[0].account, legs[0].amount, legs[0].direction);
      LegsKeepAccounts(Book(l, legs[0].account, legs[0].amount, legs[0].direction).value, legs[1..], i);
    }
  }

  lemma StepGains(l: State, ix: Instruction, i: nat)
    requires l.bank.WellFormed() && Step(l, ix).Ok? && !IsPool(Step(l, ix).value, i)
    ensures var l' := Step(l, ix).value;
            Gained(l, l', i, Credit(l, ix, i), Interest(l, l', i), BookingsOf(ix, i))
  {
    hide Step, Credit, BookingsOf, PoolPaid, EarnedBy;
    AccountsStay(l, ix, i);
    StepEffect(l, ix);
    if i < |l.accounts| {
      UsersGetWhatTheInstructionSays(l, ix, i);
      InterestOnHeld(l.accounts[i], l.bank, Step(l, ix).value.bank);
    }
  }

  lemma {:induction false} PoolsStay(l: State, ixs: seq<Instruction>, i: nat)
    requires l.bank.WellFormed() && IsPool(l, i)
    ensures IsPool(Run(l, ixs), i)
    decreases |ixs|
  {
    hide Step, IsPool;
    if ixs != [] {
      if Step(l, ixs[0]).Ok? {
        AccountsStay(l, ixs[0], i);
        StepEffect(l, ixs[0]);
      }
      PoolsStay(Apply(l, ixs[0]), ixs[1..], i);
    }
  }

  /** Over a whole run a user's account gains exactly what the successful
      instructions say, plus the interest on what it held, within one unit of each
      index for every booking that named it. */
  lemma {:induction false} UsersGetWhatTheRunSays(l: State, ixs: seq<Instruction>, i: nat)
    requires l.bank.WellFormed() && !IsPool(Run(l, ixs), i)
    ensures Gained(l, Run(l, ixs), i, RunCredit(l, ixs, i), RunInterest(l, ixs, i), RunBookingsOf(l, ixs, i))
    decreases |ixs|
  {
    hide Step, Credit, BookingsOf, Gained, IsPool, Interest, Effect;
    if ixs == [] {
      NothingGained(l, i);
    } else {
      var ix, l1 := ixs[0], Apply(l, ixs[0]);
      if Step(l, ix).Ok? {
        StepEffect(l, ix);
        if IsPool(l1, i) {
          PoolsStay(l1, ixs[1..], i);
        }
        StepGains(l, ix, i);
        UsersGetWhatTheRunSays(l1, ixs[1..], i);
        RunEffect(l1, ixs[1..]);
        LaterBanks(l, l1, Run(l, ixs), ix, ixs[1..]);
        GainsAdd(l, l1, Run(l, ixs), i, Credit(l, ix, i), Interest(l, l1, i), BookingsOf(ix, i),
                 RunCredit(l1, ixs[1..], i), RunInterest(l1, ixs[1..], i), RunBookingsOf(l1, ixs[1..], i));
      } else {
        UsersGetWhatTheRunSays(l1, ixs[1..], i);
        NoInterest(l, i);
      }
    }
  }

  lemma NothingGained(l: State, i: nat)
    ensures Gained(l, l, i, 0, 0, 0)
  {
  }

  lemma NoInterest(l: State, i: nat)
    ensures Interest(l, l, i) == 0
  {
  }

  lemma LaterBanks(l: State, l1: State, l2: State, ix: Instruction, ixs: seq<Instruction>)
    requires l.bank.WellFormed() && Step(l, ix) == Ok(l1) && l2 == Run(l1, ixs)
    ensures Later(l.bank, l1.bank) && Later(l1.bank, l2.bank)
  {
    hide Step, PoolPaid, EarnedBy;
    StepEffect(l, ix);
    RunEffect(l1, ixs);
  }
}
