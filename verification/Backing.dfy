/** Whether deposits stay worth at least the borrows: bookings keep it, and an
    accrual keeps it under a condition that can be checked beforehand. */
module Backing {
  import opened Arithmetic
  import opened Checked
  import opened BankMath
  import opened Booking
  import opened Ledger
  import opened LedgerLaws
  import opened Legs

  /** Deposits stay worth at least the borrows in every run without accrual. */
  lemma DepositsBackBorrows(l0: State, ixs: seq<Instruction>)
    requires Initial(l0) && SameIndices(l0.bank, Run(l0, ixs).bank)
    ensures Backed(Run(l0, ixs).bank)
  {
    hide Step;
    RunEffect(l0, ixs);
    assert Backed(l0.bank);
  }

  // ------------------------------------------------------- one accrual

  /** Tokens of one side, and the whole tokens an accrual adds to them. */
  function Tokens(bank: BankState, kind: BalanceType): nat {
    WholeTokens(bank.Total(kind), bank.Index(kind), bank.Precision())
  }

  function GrowthOf(bank: BankState, kind: BalanceType, now: int): nat {
    var growth := Growth(bank, now);
    if kind == Deposit then growth.depositInterest else growth.borrowInterest
  }

  function TokensAdded(bank: BankState, kind: BalanceType, now: int): nat {
    WholeTokens(bank.Total(kind), GrowthOf(bank, kind, now), bank.Precision())
  }

  function TokenCarry(bank: BankState, kind: BalanceType, now: int): nat {
    CarryOf(bank.Total(kind), bank.Index(kind), GrowthOf(bank, kind, now), bank.Precision())
  }

  /** One if the fractions of both products add up to a whole. */
  function CarryOf(balance: nat, index: nat, growth: nat, p: nat): nat
    requires 0 < p
  {
    if (balance * index) % p + (balance * growth) % p >= p then 1 else 0
  }

  lemma GrownTokens(balance: nat, index: nat, growth: nat, p: nat)
    requires 0 < p
    ensures WholeTokens(balance, index + growth, p)
            == WholeTokens(balance, index, p) + WholeTokens(balance, growth, p) + CarryOf(balance, index, growth, p)
  {
    MulNonNegative(balance, index);
    MulNonNegative(balance, growth);
    assert balance * (index + growth) == balance * index + balance * growth;
    FloorOfSum(balance * index, balance * growth, p);
  }

  lemma TokensAfter(bank: BankState, kind: BalanceType, now: int)
    requires Accrue(bank, now).Ok?
    ensures Tokens(Accrue(bank, now).value, kind)
            == Tokens(bank, kind) + TokensAdded(bank, kind, now) + TokenCarry(bank, kind, now)
  {
    hide CalculateAccumulatedInterest, WholeTokens, CarryOf;
    assert Accrue(bank, now).value.Index(kind) == bank.Index(kind) + GrowthOf(bank, kind, now);
    GrownTokens(bank.Total(kind), bank.Index(kind), GrowthOf(bank, kind, now), bank.Precision());
  }

  /** After an accrual deposits back the borrows exactly when the whole tokens
      added on both sides, with the carries of their fractions, still allow it. */
  lemma AccrualKeepsBackingIff(bank: BankState, now: int)
    requires Accrue(bank, now).Ok?
    ensures Backed(Accrue(bank, now).value)
            <==> Tokens(bank, Borrow) + TokensAdded(bank, Borrow, now) + TokenCarry(bank, Borrow, now)
                 <= Tokens(bank, Deposit) + TokensAdded(bank, Deposit, now) + TokenCarry(bank, Deposit, now)
  {
    hide Accrue, TokenCarry, TokensAdded;
    TokensAfter(bank, Borrow, now);
    TokensAfter(bank, Deposit, now);
  }

  /** Room for an accrual, in whole tokens: nothing accrues, or one token to spare
      after what is charged and credited. */
  predicate HasRoom(bank: BankState, now: int) {
    Growth(bank, now) == InterestAccumulated(0, 0)
    || Tokens(bank, Borrow) + TokensAdded(bank, Borrow, now) + 1
       <= Tokens(bank, Deposit) + TokensAdded(bank, Deposit, now)
  }

  /** Room is enough, and without it backing survives by the carries at most. */
  lemma RoomKeepsBacking(bank: BankState, now: int)
    requires Backed(bank) && Accrue(bank, now).Ok?
    ensures HasRoom(bank, now) ==> Backed(Accrue(bank, now).value)
    ensures Backed(Accrue(bank, now).value)
            ==> Tokens(bank, Borrow) + TokensAdded(bank, Borrow, now)
                <= Tokens(bank, Deposit) + TokensAdded(bank, Deposit, now) + 1
  {
    hide TokensAdded, CalculateAccumulatedInterest;
    AccrualKeepsBackingIff(bank, now);
  }

  // ------------------------------------------------------- erosion

  const SCALE: nat := BANK_UTILIZATION_PRECISION
  const YEAR: nat := ONE_YEAR * BANK_INTEREST_PRECISION

  /** The most an accrual can take from the cover of the borrows, times SCALE * YEAR:
      one token's interest, what rounding the utilization and the deposit rate
      withholds from the depositors, and one index unit for each unit of balance. `m`
      is the borrow rate times the seconds elapsed. */
  function Erosion(bank: BankState, depositTokens: u128, m: int): int {
    bank.Precision() * (m * SCALE + m * depositTokens + SCALE * depositTokens)
    + (bank.borrowBalance + bank.depositBalance) * (SCALE * YEAR)
  }

  /** The borrow rate times the seconds elapsed. */
  function RateTimesTime(bank: BankState, utilization: u128, now: int): int
    requires BorrowRate(bank, utilization).Ok?
  {
    BorrowRate(bank, utilization).value * (now - bank.lastUpdated)
  }

  /** What one accrual can take from the cover of the borrows, whatever the rate
      and the elapsed time. */
  lemma AccrualErosion(bank: BankState, now: int)
    requires bank.WellFormed() && bank.depositBalance != 0 && Accrue(bank, now).Ok?
    ensures DepositTokens(bank).Ok? && BorrowTokens(bank).Ok?
    ensures var dt, bank' := DepositTokens(bank).value, Accrue(bank, now).value;
            var u := Utilization(dt, BorrowTokens(bank).value);
            && u.Ok?
            && (u.value == 0 ==> bank' == bank)
            && (u.value != 0 ==>
                  && BorrowRate(bank, u.value).Ok?
                  && SCALE * YEAR * (NetOwed(bank') - NetOwed(bank))
                     >= 0 - Erosion(bank, dt, RateTimesTime(bank, u.value, now)))
  {
    hide Erosion;
    var dt, bt := DepositTokens(bank).value, BorrowTokens(bank).value;
    var u := Utilization(dt, bt).value;
    if u != 0 {
      var i, rate := CalculateAccumulatedInterest(bank, now).value, RateTimesTime(bank, u, now);
      ErosionSteps(bank, now, dt, bt, u, rate, i);
      ErosionBound(bank.depositBalance, bank.cumulativeDepositInterest, dt, bank.Precision(),
                   bank.borrowBalance, bank.cumulativeBorrowInterest, bt, rate, u, rate * u / SCALE,
                   i.depositInterest, i.borrowInterest, YEAR, SCALE);
      ErosionCombined(bank, now, dt, rate, i);
    }
  }

  /** The cover outweighs all that the accrual can take at this rate and over this
      time; the interest itself need not be known. */
  predicate CoversErosion(bank: BankState, now: int) {
    && bank.WellFormed() && bank.depositBalance != 0
    && DepositTokens(bank).Ok? && BorrowTokens(bank).Ok?
    && var dt := DepositTokens(bank).value;
    && var u := Utilization(dt, BorrowTokens(bank).value);
    && u.Ok? && BorrowRate(bank, u.value).Ok?
    && SCALE * YEAR * NetOwed(bank) >= Erosion(bank, dt, RateTimesTime(bank, u.value, now))
  }

  lemma CoverKeepsBacking(bank: BankState, now: int)
    requires CoversErosion(bank, now) && Accrue(bank, now).Ok? && Backed(bank)
    ensures Backed(Accrue(bank, now).value)
    ensures Accrue(bank, now).value != bank ==> NetOwed(Accrue(bank, now).value) >= 0
  {
    hide Backed, Erosion, BorrowRate;
    AccrualErosion(bank, now);
    var bank' := Accrue(bank, now).value;
    if bank' != bank {
      hide *;
      assert SCALE * YEAR * (NetOwed(bank') - NetOwed(bank))
          == SCALE * YEAR * NetOwed(bank') - SCALE * YEAR * NetOwed(bank);
      NotNegative(SCALE * YEAR, NetOwed(bank'));
      CoveredIsBacked(bank');
    }
  }

  lemma NotNegative(factor: int, x: int)
    requires 0 < factor && factor * x >= 0
    ensures x >= 0
  {
    if x < 0 {
      MulLess(x, 0, factor);
    }
  }

  lemma CoveredIsBacked(bank: BankState)
    requires NetOwed(bank) >= 0
    ensures Backed(bank)
  {
    MulNonNegative(bank.borrowBalance, bank.cumulativeBorrowInterest);
    DivMono(bank.borrowBalance * bank.cumulativeBorrowInterest, bank.depositBalance * bank.cumulativeDepositInterest,
            bank.Precision());
  }

  /** The bounds of each division of an accrual. */
  lemma ErosionSteps(bank: BankState, now: int, dt: u128, bt: u128, u: u128, rate: int, i: InterestAccumulated)
    requires bank.WellFormed() && bank.depositBalance != 0
    requires DepositTokens(bank) == Ok(dt) && BorrowTokens(bank) == Ok(bt) && Utilization(dt, bt) == Ok(u) && u != 0
    requires CalculateAccumulatedInterest(bank, now) == Ok(i)
    requires rate == RateTimesTime(bank, u, now)
    ensures rate >= 0 && rate * u >= 0
    ensures var p, md := bank.Precision(), rate * u / SCALE;
            && dt * p <= bank.depositBalance * bank.cumulativeDepositInterest
            && bank.borrowBalance * bank.cumulativeBorrowInterest <= (bt + 1) * p
            && (i.borrowInterest - 1) * YEAR <= bank.cumulativeBorrowInterest * rate
            && bank.cumulativeDepositInterest * md <= (i.depositInterest + 1) * YEAR
            && rate * u <= (md + 1) * SCALE && bt * SCALE <= (u + 1) * dt
  {
    hide BorrowRate;
    ZeroTokensIffZeroBalance(bank.depositBalance, bank, Deposit);
    TokenAmountBounds(bank.depositBalance, bank, Deposit);
    TokenAmountBounds(bank.borrowBalance, bank, Borrow);
    assert CheckedMul(BorrowRate(bank, u).value, now - bank.lastUpdated) == Ok(rate);
    MulNonNegative(rate, u);
    DivFloor(rate * u, SCALE);
    DivFloor(bt * SCALE, dt);
    IndexGrowthBounds(bank.cumulativeBorrowInterest, rate);
    IndexGrowthBounds(bank.cumulativeDepositInterest, rate * u / SCALE);
  }

  lemma ErosionCombined(bank: BankState, now: int, dt: u128, rate: nat, i: InterestAccumulated)
    requires CalculateAccumulatedInterest(bank, now) == Ok(i) && Accrue(bank, now).Ok?
    requires SCALE * YEAR * (bank.borrowBalance * i.borrowInterest - bank.depositBalance * i.depositInterest)
             <= bank.Precision() * (rate * SCALE + rate * dt + SCALE * dt)
                + (bank.borrowBalance + bank.depositBalance) * (SCALE * YEAR)
    ensures SCALE * YEAR * (NetOwed(Accrue(bank, now).value) - NetOwed(bank)) >= 0 - Erosion(bank, dt, rate)
  {
    hide CalculateAccumulatedInterest;
    var bank' := Accrue(bank, now).value;
    if bank' == bank {
      ErosionNotPositive(bank.Precision(), rate, dt, bank.borrowBalance + bank.depositBalance);
    } else {
      IndexShift(bank, bank', i.depositInterest, i.borrowInterest);
    }
  }

  lemma ErosionNotPositive(p: nat, rate: nat, dt: nat, balances: nat)
    ensures p * (rate * SCALE + rate * dt + SCALE * dt) >= 0
    ensures balances * (SCALE * YEAR) >= 0
  {
    MulNonNegative(rate, dt);
    MulNonNegative(p, rate * SCALE + rate * dt + SCALE * dt);
  }

  /** The arithmetic of AccrualErosion, over plain numbers as in InterestIsCovered. */
  lemma ErosionBound(dep: nat, id: nat, dt: nat, p: nat, bor: nat, ib: nat, bt: nat,
                     rate: nat, u: nat, md: nat, di: nat, bi: nat, year: nat, scale: nat)
    requires dt * p <= dep * id && bor * ib <= (bt + 1) * p
    requires (bi - 1) * year <= ib * rate && id * md <= (di + 1) * year
    requires rate * u <= (md + 1) * scale && bt * scale <= (u + 1) * dt
    ensures scale * year * (bor * bi - dep * di)
            <= p * (rate * scale + rate * dt + scale * dt) + (bor + dep) * (scale * year)
  {
    ChargedBound(bor, ib, bt, p, rate, bi, year);
    CreditedBound(dep, id, dt, p, md, di, year);
    ModifiedRateBound(dt, bt, u, rate, md, scale);
    var charged, credited := bor * bi, dep * di;
    MulMono(charged * year, (bt + 1) * p * rate + bor * year, scale);
    MulMono(dt * p * md - dep * year, credited * year, scale);
    MulMono(rate * bt * scale - rate * dt - scale * dt, dt * md * scale, p);
    CombineErosion(charged, credited, dep, dt, p, bor, bt, rate, md, year, scale);
  }

  lemma ChargedBound(bor: nat, ib: nat, bt: nat, p: nat, rate: nat, bi: nat, year: nat)
    requires bor * ib <= (bt + 1) * p && (bi - 1) * year <= ib * rate
    ensures bor * bi * year <= (bt + 1) * p * rate + bor * year
  {
    MulMono((bi - 1) * year, ib * rate, bor);
    MulMono(bor * ib, (bt + 1) * p, rate);
    assert bor * ((bi - 1) * year) == bor * bi * year - bor * year;
    assert bor * (ib * rate) == (bor * ib) * rate;
  }

  lemma CreditedBound(dep: nat, id: nat, dt: nat, p: nat, md: nat, di: nat, year: nat)
    requires dt * p <= dep * id && id * md <= (di + 1) * year
    ensures dt * p * md - dep * year <= dep * di * year
  {
    MulMono(id * md, (di + 1) * year, dep);
    MulMono(dt * p, dep * id, md);
    assert dep * ((di + 1) * year) == dep * di * year + dep * year;
    assert dep * (id * md) == (dep * id) * md;
  }

  lemma ModifiedRateBound(dt: nat, bt: nat, u: nat, rate: nat, md: nat, scale: nat)
    requires rate * u <= (md + 1) * scale && bt * scale <= (u + 1) * dt
    ensures rate * bt * scale - rate * dt - scale * dt <= dt * md * scale
  {
    MulMono(rate * u, (md + 1) * scale, dt);
    MulMono(bt * scale, (u + 1) * dt, rate);
    RateProducts(dt, bt, u, rate, md, scale);
  }

  lemma RateProducts(dt: nat, bt: nat, u: nat, rate: nat, md: nat, scale: nat)
    ensures rate * (bt * scale) == rate * bt * scale
    ensures rate * ((u + 1) * dt) == (rate * u) * dt + rate * dt
    ensures ((md + 1) * scale) * dt == dt * md * scale + scale * dt
  {
    assert rate * ((u + 1) * dt) == (rate * (u + 1)) * dt;
    assert ((md + 1) * scale) * dt == (md * scale) * dt + scale * dt;
  }

  lemma CombineErosion(charged: nat, credited: nat, dep: nat, dt: nat, p: nat, bor: nat, bt: nat,
                       rate: nat, md: nat, year: nat, scale: nat)
    requires (charged * year) * scale <= ((bt + 1) * p * rate + bor * year) * scale
    requires (dt * p * md - dep * year) * scale <= (credited * year) * scale
    requires (rate * bt * scale - rate * dt - scale * dt) * p <= (dt * md * scale) * p
    ensures scale * year * (charged - credited)
            <= p * (rate * scale + rate * dt + scale * dt) + (bor + dep) * (scale * year)
  {
    assert scale * year * (charged - credited) == (charged * year) * scale - (credited * year) * scale;
    ChargedTerms(bt, p, rate, bor, year, scale);
    CreditedTerms(dt, p, md, dep, year, scale);
    RateTerms(rate * bt * scale, rate * dt, scale * dt, rate * scale, p);
    assert (bor + dep) * (scale * year) == bor * (scale * year) + dep * (scale * year);
  }

  lemma ChargedTerms(bt: nat, p: nat, rate: nat, bor: nat, year: nat, scale: nat)
    ensures ((bt + 1) * p * rate + bor * year) * scale
            == (rate * bt * scale) * p + (rate * scale) * p + bor * (scale * year)
  {
    assert (bt + 1) * p * rate == (rate * p) * (bt + 1);
    assert ((bt + 1) * p * rate) * scale == (rate * (bt + 1) * scale) * p;
    assert rate * (bt + 1) * scale == rate * bt * scale + rate * scale;
  }

  lemma CreditedTerms(dt: nat, p: nat, md: nat, dep: nat, year: nat, scale: nat)
    ensures (dt * p * md - dep * year) * scale == (dt * md * scale) * p - dep * (scale * year)
  {
    assert (dt * p * md) * scale == (dt * md * scale) * p;
    assert (dep * year) * scale == dep * (scale * year);
  }

  lemma RateTerms(a: nat, b: nat, c: nat, d: nat, p: nat)
    ensures (a - b - c) * p == a * p - b * p - c * p
    ensures p * (d + b + c) == d * p + b * p + c * p
  {
  }

  // ------------------------------------------------------- whole runs

  lemma {:induction false} LegsKeepBacking(l: State, legs: seq<Leg>)
    requires l.bank.WellFormed() && Backed(l.bank) && BookAll(l, legs).Ok?
    ensures Backed(BookAll(l, legs).value.bank)
    decreases |legs|
  {
    hide Book, Backed;
    if legs != [] {
      BookEffect(l, legs[0].account, legs[0].amount, legs[0].direction);
      LegsKeepBacking(Book(l, legs[0].account, legs[0].amount, legs[0].direction).value, legs[1..]);
    }
  }

  /** What an accrual leaves behind is enough: by the growth it applies, or by its
      rate and the time elapsed. */
  predicate CanAccrue(bank: BankState, now: int) {
    HasRoom(bank, now) || CoversErosion(bank, now)
  }

  lemma AccrualKeepsBacking(bank: BankState, now: int)
    requires Backed(bank) && Accrue(bank, now).Ok? && CanAccrue(bank, now)
    ensures Backed(Accrue(bank, now).value)
  {
    hide HasRoom, CoversErosion, Accrue, Backed;
    if CoversErosion(bank, now) {
      CoverKeepsBacking(bank, now);
    } else {
      RoomKeepsBacking(bank, now);
    }
  }

  /** Every accrual of the instruction finds room. */
  predicate RoomFor(l: State, ix: Instruction) {
    match ix
    case AccrueInterest(now) => CanAccrue(l.bank, now)
    case DepositFunds(_, _, _, now, _) => CanAccrue(l.bank, now)
    case WithdrawFunds(_, _, _, now, _) => CanAccrue(l.bank, now)
    case TransferDeposit(_, _, _, now, _) => CanAccrue(l.bank, now)
    case _ => true
  }

  predicate RoomThroughout(l: State, ixs: seq<Instruction>)
    decreases |ixs|
  {
    ixs == [] || (RoomFor(l, ixs[0]) && RoomThroughout(Apply(l, ixs[0]), ixs[1..]))
  }

  lemma StepKeepsBacking(l: State, ix: Instruction)
    requires l.bank.WellFormed() && Backed(l.bank) && Step(l, ix).Ok? && RoomFor(l, ix)
    ensures Backed(Step(l, ix).value.bank)
  {
    StepFollowsPlan(l, ix);
    var plan := Planned(l, ix).value;
    PlannedStart(l, ix);
    StartIsBacked(l, ix);
    LegsKeepBacking(plan.start, plan.legs);
  }

  lemma StartIsBacked(l: State, ix: Instruction)
    requires Backed(l.bank) && Planned(l, ix).Ok? && RoomFor(l, ix)
    ensures Backed(Planned(l, ix).value.start.bank)
  {
    hide Backed, Accrue, CanAccrue, GetTokenAmount;
    match ix
    case AccrueInterest(now) => AccrualKeepsBacking(l.bank, now);
    case DepositFunds(_, _, _, now, _) => AccrualKeepsBacking(l.bank, now);
    case WithdrawFunds(_, _, _, now, _) => AccrualKeepsBacking(l.bank, now);
    case TransferDeposit(_, _, _, now, _) => AccrualKeepsBacking(l.bank, now);
    case _ =>
  }

  /** Deposits back the borrows after every run whose accruals find room, however
      the bookings between them fall. */
  lemma {:induction false} RoomBacksBorrows(l: State, ixs: seq<Instruction>)
    requires l.bank.WellFormed() && Backed(l.bank) && RoomThroughout(l, ixs)
    ensures Backed(Run(l, ixs).bank)
    decreases |ixs|
  {
    hide Step, Backed, RoomFor;
    if ixs != [] {
      if Step(l, ixs[0]).Ok? {
        StepEffect(l, ixs[0]);
        StepKeepsBacking(l, ixs[0]);
      }
      RoomBacksBorrows(Apply(l, ixs[0]), ixs[1..]);
    }
  }
}
