/** When a balance or a bank total would be reduced below zero: exactly which
    instruction fails so, and why none does while the books balance. */
module Underflow {
  import opened Checked
  import opened BankMath
  import opened Booking
  import opened Ledger
  import opened LedgerLaws
  import opened Legs

  predicate LegOverdraws(l: State, leg: Leg) {
    leg.account < |l.accounts| && Overdraws(leg.amount, leg.direction, Books(l.bank, l.accounts[leg.account]))
  }

  /** The first leg that cannot be booked fails by overdrawing. */
  predicate SomeLegOverdraws(l: State, legs: seq<Leg>)
    decreases |legs|
  {
    legs != [] &&
    (LegOverdraws(l, legs[0])
     || var booked := Book(l, legs[0].account, legs[0].amount, legs[0].direction);
        booked.Ok? && SomeLegOverdraws(booked.value, legs[1..]))
  }

  lemma BookUnderflowIff(l: State, leg: Leg)
    ensures Book(l, leg.account, leg.amount, leg.direction) == Err(BalanceUnderflow) <==> LegOverdraws(l, leg)
  {
    hide UpdateBooks, Overdraws;
    if leg.account < |l.accounts| {
      BookingUnderflowIff(leg.amount, leg.direction, Books(l.bank, l.accounts[leg.account]));
    }
  }

  lemma {:induction false} LegsUnderflowIff(l: State, legs: seq<Leg>)
    ensures BookAll(l, legs) == Err(BalanceUnderflow) <==> SomeLegOverdraws(l, legs)
    decreases |legs|
  {
    hide Book, LegOverdraws;
    if legs != [] {
      BookUnderflowIff(l, legs[0]);
      var booked := Book(l, legs[0].account, legs[0].amount, legs[0].direction);
      if booked.Ok? {
        LegsUnderflowIff(booked.value, legs[1..]);
      }
    }
  }

  /** Every instruction, from any state: it underflows exactly when its checks
      pass and one of its legs overdraws the bank. */
  lemma UnderflowIff(l: State, ix: Instruction)
    ensures Step(l, ix) == Err(BalanceUnderflow)
            <==> Planned(l, ix).Ok? && SomeLegOverdraws(Planned(l, ix).value.start, Planned(l, ix).value.legs)
  {
    hide Step, Planned, BookAll, SomeLegOverdraws;
    StepFollowsPlan(l, ix);
    if Planned(l, ix).Ok? {
      LegsUnderflowIff(Planned(l, ix).value.start, Planned(l, ix).value.legs);
    }
  }

  /** Where borrows are not overstated, only a debit of a depositor or a pool
      overdraws, and only while deposits are overstated. */
  lemma OnlyDebitsOverdraw(l: State, leg: Leg)
    requires Overstated(l, Borrow) <= 0 && LegOverdraws(l, leg)
    ensures leg.direction == Borrow && l.accounts[leg.account].Kind() == Deposit
    ensures Overstated(l, Deposit) > 0
  {
    hide PaymentFor;
    var account := l.accounts[leg.account];
    PaymentWithinBalance(leg.amount, l.bank, account);
    SumPartAtLeast(l.accounts, leg.account, account.Kind());
  }

  /** The leg with which an instruction takes tokens out of an account overdraws
      the bank: it needs more deposit units than the bank records by then. */
  predicate DebitOverdraws(l: State, ix: Instruction) {
    && Planned(l, ix).Ok?
    && var plan := Planned(l, ix).value;
    && match ix
       case WithdrawFunds(_, _, _, _, _) => LegOverdraws(plan.start, plan.legs[0])
       case TransferDeposit(_, _, _, _, _) => LegOverdraws(plan.start, plan.legs[0])
       case SettlePnl(_, _, _, _) => plan.legs != [] && SecondOverdraws(plan.start, plan.legs[0], plan.legs[1])
       case CollectLiquidationFee(_, _, _, _) =>
         if |plan.legs| == 1 then LegOverdraws(plan.start, plan.legs[0])
         else SecondOverdraws(plan.start, plan.legs[0], plan.legs[1])
       case _ => false
  }

  predicate SecondOverdraws(l: State, first: Leg, second: Leg) {
    var booked := Book(l, first.account, first.amount, first.direction);
    booked.Ok? && LegOverdraws(booked.value, second)
  }

  lemma OneLeg(l: State, leg: Leg)
    ensures SomeLegOverdraws(l, [leg]) <==> LegOverdraws(l, leg)
  {
    hide Book, LegOverdraws;
    assert [leg][1..] == [];
  }

  lemma TwoLegs(l: State, first: Leg, second: Leg)
    ensures SomeLegOverdraws(l, [first, second]) <==> LegOverdraws(l, first) || SecondOverdraws(l, first, second)
  {
    hide Book, LegOverdraws;
    assert [first, second][1..] == [second];
    var booked := Book(l, first.account, first.amount, first.direction);
    if booked.Ok? {
      OneLeg(booked.value, second);
    }
  }

  lemma CreditNeverOverdraws(l: State, leg: Leg)
    requires Overstated(l, Borrow) <= 0 && leg.direction == Deposit
    ensures !LegOverdraws(l, leg)
  {
    hide LegOverdraws;
    if LegOverdraws(l, leg) {
      OnlyDebitsOverdraw(l, leg);
    }
  }

  lemma CreditAfterBooking(l: State, first: Leg, second: Leg)
    requires l.bank.WellFormed() && Overstated(l, Borrow) <= 0 && second.direction == Deposit
    ensures !SecondOverdraws(l, first, second)
  {
    hide Book, LegOverdraws;
    var booked := Book(l, first.account, first.amount, first.direction);
    if booked.Ok? {
      BookEffect(l, first.account, first.amount, first.direction);
      CreditNeverOverdraws(booked.value, second);
    }
  }

  /** Where borrows are not overstated, so in every reachable state, an
      instruction underflows exactly when its debit overdraws. */
  lemma DebitUnderflowIff(l: State, ix: Instruction)
    requires l.bank.WellFormed() && Overstated(l, Borrow) <= 0
    ensures Step(l, ix) == Err(BalanceUnderflow) <==> DebitOverdraws(l, ix)
  {
    UnderflowIff(l, ix);
    hide Step, Book, Accrued, LegOverdraws, SecondOverdraws, SomeLegOverdraws, GetTokenAmount, BookAll, Overstated;
    if Planned(l, ix).Ok? {
      PlannedStart(l, ix);
      var plan := Planned(l, ix).value;
      if |plan.legs| == 0 {
        NoLegs(plan.start);
      } else if |plan.legs| == 1 {
        OneLeg(plan.start, plan.legs[0]);
        if plan.legs[0].direction == Deposit {
          CreditNeverOverdraws(plan.start, plan.legs[0]);
        }
      } else {
        TwoLegs(plan.start, plan.legs[0], plan.legs[1]);
        if plan.legs[0].direction == Deposit {
          CreditNeverOverdraws(plan.start, plan.legs[0]);
        } else {
          CreditAfterBooking(plan.start, plan.legs[0], plan.legs[1]);
        }
      }
    }
  }

  lemma NoLegs(l: State)
    ensures !SomeLegOverdraws(l, [])
  {
  }

  lemma ReachableUnderflowIff(l0: State, ixs: seq<Instruction>, ix: Instruction)
    requires Initial(l0)
    ensures Step(Run(l0, ixs), ix) == Err(BalanceUnderflow) <==> DebitOverdraws(Run(l0, ixs), ix)
  {
    hide Step, DebitOverdraws;
    RunEffect(l0, ixs);
    DebitUnderflowIff(Run(l0, ixs), ix);
  }

  /** The condition written out for a withdrawal: once interest has accrued, the
      user is a depositor and the payment takes more units than the bank records. */
  lemma WithdrawalUnderflowIff(l: State, user: nat, amount: u64, reduceOnly: bool, now: int, meetsMargin: bool)
    ensures Step(l, WithdrawFunds(user, amount, reduceOnly, now, meetsMargin)) == Err(BalanceUnderflow)
            <==> && Accrued(l, now).Ok? && IsUser(l, user)
                 && var bank, account := Accrued(l, now).value.bank, l.accounts[user];
                 && account.kind == Deposit
                 && var booked := CappedAmount(bank, account, amount, reduceOnly, Deposit);
                 && booked.Ok? && PaymentFor(booked.value, bank, account).Ok?
                 && PaymentFor(booked.value, bank, account).value.units > bank.depositBalance
  {
    hide CalculateAccumulatedInterest, CappedAmount, PaymentFor, Book;
    var ix := WithdrawFunds(user, amount, reduceOnly, now, meetsMargin);
    UnderflowIff(l, ix);
    if Planned(l, ix).Ok? {
      OneLeg(Planned(l, ix).value.start, Planned(l, ix).value.legs[0]);
    }
  }

  /** On balanced books nothing overdraws, so no instruction can drive a balance,
      or a bank total, below zero. */
  lemma NoUnderflowOnBalancedBooks(l: State, ix: Instruction)
    requires l.bank.WellFormed() && Conserved(l)
    ensures Step(l, ix) != Err(BalanceUnderflow)
  {
    DebitUnderflowIff(l, ix);
    hide Step, Book, Accrued, LegOverdraws, SecondOverdraws, GetTokenAmount, Overstated;
    if DebitOverdraws(l, ix) {
      PlannedStart(l, ix);
      var plan := Planned(l, ix).value;
      if LegOverdraws(plan.start, plan.legs[0]) {
        OnlyDebitsOverdraw(plan.start, plan.legs[0]);
      } else {
        SecondNeverOverdraws(plan.start, plan.legs[0], plan.legs[1]);
      }
    }
  }

  lemma SecondNeverOverdraws(l: State, first: Leg, second: Leg)
    requires l.bank.WellFormed() && Conserved(l) && first.direction == Deposit
    ensures !SecondOverdraws(l, first, second)
  {
    hide Book, LegOverdraws;
    var booked := Book(l, first.account, first.amount, first.direction);
    if booked.Ok? {
      BookEffect(l, first.account, first.amount, first.direction);
      if LegOverdraws(booked.value, second) {
        OnlyDebitsOverdraw(booked.value, second);
      }
    }
  }

  /** So an underflow needs a run in which some pool has paid. */
  lemma UnderflowNeedsPoolPayment(l0: State, ixs: seq<Instruction>, ix: Instruction)
    requires Initial(l0) && Step(Run(l0, ixs), ix) == Err(BalanceUnderflow)
    ensures RunPoolPaid(l0, ixs) > 0
  {
    hide Step, Run, RunPoolPaid;
    RunEffect(l0, ixs);
    if RunPoolPaid(l0, ixs) == 0 {
      NoUnderflowOnBalancedBooks(Run(l0, ixs), ix);
    }
  }
}
