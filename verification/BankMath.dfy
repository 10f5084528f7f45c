/** Scaled balances, token amounts and interest (math/bank_balance.rs). */
module BankMath {
  import opened Arithmetic
  import opened Checked

  const BANK_CUMULATIVE_INTEREST_PRECISION: u128 := 10_000_000_000
  const BANK_UTILIZATION_PRECISION: u128 := 1_000_000
  const BANK_INTEREST_PRECISION: u128 := 1_000_000
  const ONE_YEAR: u128 := 31_536_000

  datatype BalanceType = Deposit | Borrow

  datatype BankState = BankState(
    decimals: nat,
    optimalUtilization: u128,
    optimalBorrowRate: u128,
    maxBorrowRate: u128,
    depositBalance: u128,
    borrowBalance: u128,
    cumulativeDepositInterest: u128,
    cumulativeBorrowInterest: u128,
    lastUpdated: u64
  ) {
    function Index(kind: BalanceType): u128 {
      if kind == Deposit then cumulativeDepositInterest else cumulativeBorrowInterest
    }

    function Total(kind: BalanceType): u128 {
      if kind == Deposit then depositBalance else borrowBalance
    }

    function WithTotal(kind: BalanceType, total: u128): BankState {
      if kind == Deposit then this.(depositBalance := total) else this.(borrowBalance := total)
    }

    /** What initialize_bank establishes: at least six decimals, and interest
        indices that start at 10^10 and never shrink. */
    predicate WellFormed() {
      && 6 <= decimals
      && BANK_CUMULATIVE_INTEREST_PRECISION <= cumulativeDepositInterest
      && BANK_CUMULATIVE_INTEREST_PRECISION <= cumulativeBorrowInterest
    }

    /** Balance units times the index, per token: 10^(16 - decimals). */
    function Precision(): (p: nat)
      ensures 1 <= p
      ensures WellFormed() ==> p <= cumulativeDepositInterest && p <= cumulativeBorrowInterest
    {
      if decimals > 16 then 1
      else
        assert WellFormed() ==> Pow10(16 - decimals) <= BANK_CUMULATIVE_INTEREST_PRECISION by {
          if WellFormed() {
            Pow10Monotone(16 - decimals, 10);
            Pow10Values();
          }
        }
        Pow10(16 - decimals)
    }
  }

  function PrecisionFactor(bank: BankState): (r: Result<u128>)
    ensures r.Ok? ==> r.value == bank.Precision()
  {
    if bank.decimals > 16 then Err(Underflow)
    else
      assert Pow10(16 - bank.decimals) <= U128_MAX by {
        Pow10Monotone(16 - bank.decimals, 16);
        Pow10Values();
      }
      Ok(Pow10(16 - bank.decimals))
  }

  function GetBankBalance(tokenAmount: u128, bank: BankState, kind: BalanceType): Result<u128> {
    var precision :- PrecisionFactor(bank);
    var scaled :- CheckedMul(tokenAmount, precision);
    var balance :- CheckedDiv(scaled, bank.Index(kind));
    if balance != 0 && kind == Borrow then CheckedAdd(balance, 1) else Ok(balance)
  }

  function GetTokenAmount(balance: u128, bank: BankState, kind: BalanceType): Result<u128> {
    var precision :- PrecisionFactor(bank);
    var scaled :- CheckedMul(balance, bank.Index(kind));
    CheckedDiv(scaled, precision)
  }

  function DepositTokens(bank: BankState): Result<u128> {
    GetTokenAmount(bank.depositBalance, bank, Deposit)
  }

  function BorrowTokens(bank: BankState): Result<u128> {
    GetTokenAmount(bank.borrowBalance, bank, Borrow)
  }

  datatype InterestAccumulated = InterestAccumulated(borrowInterest: u128, depositInterest: u128)

  function Utilization(depositTokens: u128, borrowTokens: u128): Result<u128> {
    var scaled :- CheckedMul(borrowTokens, BANK_UTILIZATION_PRECISION);
    if depositTokens != 0 then CheckedDiv(scaled, depositTokens)
    else if borrowTokens == 0 then Ok(0)
    else Ok(BANK_UTILIZATION_PRECISION)
  }

  /** The two-slope borrow rate curve. */
  function BorrowRate(bank: BankState, utilization: u128): Result<u128> {
    if utilization > bank.optimalUtilization then
      var surplus :- CheckedSub(utilization, bank.optimalUtilization);
      var rise :- CheckedSub(bank.maxBorrowRate, bank.optimalBorrowRate);
      var scaledRise :- CheckedMul(rise, BANK_UTILIZATION_PRECISION);
      var run :- CheckedSub(BANK_UTILIZATION_PRECISION, bank.optimalUtilization);
      var slope :- CheckedDiv(scaledRise, run);
      var scaled :- CheckedMul(surplus, slope);
      var extra :- CheckedDiv(scaled, BANK_UTILIZATION_PRECISION);
      CheckedAdd(bank.optimalBorrowRate, extra)
    else
      var scaledRate :- CheckedMul(bank.optimalBorrowRate, BANK_UTILIZATION_PRECISION);
      var slope :- CheckedDiv(scaledRate, bank.optimalUtilization);
      var scaled :- CheckedMul(utilization, slope);
      CheckedDiv(scaled, BANK_UTILIZATION_PRECISION)
  }

  /** Index growth for a rate already multiplied by the elapsed time. */
  function IndexGrowth(index: u128, modifiedRate: u128): Result<u128> {
    var scaled :- CheckedMul(index, modifiedRate);
    var yearly :- CheckedDiv(scaled, ONE_YEAR);
    CheckedDiv(yearly, BANK_INTEREST_PRECISION)
  }

  /** Interest on both indices at a rate, over the seconds elapsed. */
  function InterestOverPeriod(bank: BankState, borrowRate: u128, elapsed: u128, utilization: u128)
      : Result<InterestAccumulated> {
    var modifiedBorrowRate :- CheckedMul(borrowRate, elapsed);
    var scaled :- CheckedMul(modifiedBorrowRate, utilization);
    var modifiedDepositRate :- CheckedDiv(scaled, BANK_UTILIZATION_PRECISION);
    var borrowGrowth :- IndexGrowth(bank.cumulativeBorrowInterest, modifiedBorrowRate);
    var borrowInterest :- CheckedAdd(borrowGrowth, 1);
    var depositInterest :- IndexGrowth(bank.cumulativeDepositInterest, modifiedDepositRate);
    Ok(InterestAccumulated(borrowInterest, depositInterest))
  }

  function CalculateAccumulatedInterest(bank: BankState, now: int): Result<InterestAccumulated> {
    var depositTokens :- DepositTokens(bank);
    var borrowTokens :- BorrowTokens(bank);
    var utilization :- Utilization(depositTokens, borrowTokens);
    if utilization == 0 then Ok(InterestAccumulated(0, 0))
    else
      var borrowRate :- BorrowRate(bank, utilization);
      var time :- CastToU64(now);
      var elapsed :- CheckedSub(time, bank.lastUpdated);
      InterestOverPeriod(bank, borrowRate, elapsed, utilization)
  }

  // ---------------------------------------------------------------- in plain numbers

  /** Tokens a balance is worth, rounded down. */
  function TokensOf(balance: nat, bank: BankState, kind: BalanceType): nat {
    WholeTokens(balance, bank.Index(kind), bank.Precision())
  }

  function WholeTokens(balance: nat, index: nat, p: nat): nat
    requires 0 < p
  {
    MulNonNegative(balance, index);
    balance * index / p
  }

  /** Balance units that tokens are booked as: deposits down, borrows up. */
  function UnitsOf(tokens: nat, bank: BankState, kind: BalanceType): nat
    requires bank.Index(kind) != 0
  {
    MulNonNegative(tokens, bank.Precision());
    var units := tokens * bank.Precision() / bank.Index(kind);
    if kind == Borrow && units > 0 then units + 1 else units
  }

  predicate TokensFit(balance: nat, bank: BankState, kind: BalanceType) {
    bank.decimals <= 16 && balance * bank.Index(kind) <= U128_MAX
  }

  predicate UnitsFit(tokens: nat, bank: BankState, kind: BalanceType) {
    && bank.decimals <= 16 && tokens * bank.Precision() <= U128_MAX && bank.Index(kind) != 0
    && UnitsOf(tokens, bank, kind) <= U128_MAX
  }

  /** A token is 10^decimals of its own units, and 10^16 when scaled. */
  lemma PrecisionScales(bank: BankState)
    requires bank.decimals <= 16
    ensures bank.Precision() * Pow10(bank.decimals) == 10_000_000_000_000_000
  {
    Pow10Add(16 - bank.decimals, bank.decimals);
    Pow10Values();
  }

  lemma TokenAmountInNumbers(balance: u128, bank: BankState, kind: BalanceType)
    ensures GetTokenAmount(balance, bank, kind)
            == if bank.decimals > 16 then Err(Underflow)
               else if balance * bank.Index(kind) > U128_MAX then Err(Overflow)
               else Ok(TokensOf(balance, bank, kind))
  {
  }

  lemma BankBalanceInNumbers(tokens: u128, bank: BankState, kind: BalanceType)
    ensures var units := GetBankBalance(tokens, bank, kind);
            if bank.decimals > 16 then units == Err(Underflow)
            else if tokens * bank.Precision() > U128_MAX then units == Err(Overflow)
            else if bank.Index(kind) == 0 then units == Err(DivisionByZero)
            else if UnitsOf(tokens, bank, kind) > U128_MAX then units == Err(Overflow)
            else units == Ok(UnitsOf(tokens, bank, kind))
  {
  }

  // ---------------------------------------------------------------- rounding

  /** A token amount, back in balance units, is the balance up to one token. */
  lemma TokenAmountBounds(balance: u128, bank: BankState, kind: BalanceType)
    requires GetTokenAmount(balance, bank, kind).Ok?
    ensures var tokens, p := GetTokenAmount(balance, bank, kind).value, bank.Precision();
            && tokens * p <= balance * bank.Index(kind) < tokens * p + p
  {
    DivFloor(balance * bank.Index(kind), bank.Precision());
  }

  /** A booked balance is worth the tokens asked for, up to one index unit:
      deposits are rounded down, borrows up unless they round to nothing. */
  lemma BankBalanceBounds(tokens: u128, bank: BankState, kind: BalanceType)
    requires GetBankBalance(tokens, bank, kind).Ok?
    ensures var units, index := GetBankBalance(tokens, bank, kind).value, bank.Index(kind);
            && index != 0
            && (kind == Deposit || units == 0 ==> units * index <= tokens * bank.Precision() < units * index + index)
            && (kind == Borrow && units != 0 ==> units * index - index <= tokens * bank.Precision() < units * index)
  {
    var index := bank.Index(kind);
    var scaled := tokens * bank.Precision();
    DivFloor(scaled, index);
    var q := scaled / index;
    assert (q + 1) * index == q * index + index;
  }

  /** With an index of at least one token, "no tokens" means "no balance": a
      balance whose type is about to flip carries no dust. */
  lemma ZeroTokensIffZeroBalance(balance: u128, bank: BankState, kind: BalanceType)
    requires bank.WellFormed()
    requires GetTokenAmount(balance, bank, kind).Ok?
    ensures GetTokenAmount(balance, bank, kind).value == 0 <==> balance == 0
  {
    TokenAmountBounds(balance, bank, kind);
    if balance != 0 {
      MulMono(1, balance, bank.Index(kind));
    }
  }

  /** Paying less than the whole balance never takes more units than it holds. */
  lemma PartialPaymentFits(tokens: u128, balance: u128, bank: BankState, kind: BalanceType)
    requires GetTokenAmount(balance, bank, kind).Ok?
    requires GetBankBalance(tokens, bank, kind).Ok?
    requires tokens < GetTokenAmount(balance, bank, kind).value
    ensures GetBankBalance(tokens, bank, kind).value <= balance
  {
    TokenAmountBounds(balance, bank, kind);
    BankBalanceBounds(tokens, bank, kind);
    UnitsBelowBalance(tokens, GetTokenAmount(balance, bank, kind).value, GetBankBalance(tokens, bank, kind).value,
                      balance, bank.Index(kind), bank.Precision());
  }

  lemma UnitsBelowBalance(tokens: nat, current: nat, units: nat, balance: nat, index: nat, p: nat)
    requires tokens < current && 0 < p && 0 < index
    requires current * p <= balance * index
    requires units * index - index <= tokens * p
    ensures units <= balance
  {
    MulLess(tokens, current, p);
    assert (units - 1) * index == units * index - index;
    MulCancelStrict(units - 1, balance, index);
  }

  // ---------------------------------------------------------------- interest

  lemma IndexGrowthBounds(index: u128, rate: u128)
    requires IndexGrowth(index, rate).Ok?
    ensures var growth, year := IndexGrowth(index, rate).value, ONE_YEAR * BANK_INTEREST_PRECISION;
            growth * year <= index * rate < (growth + 1) * year
  {
    DivDiv(index * rate, ONE_YEAR, BANK_INTEREST_PRECISION);
    DivFloor(index * rate, ONE_YEAR * BANK_INTEREST_PRECISION);
  }

  /** The arithmetic core of InterestIsCovered, over plain numbers: `dep` and
      `bor` are balances, `id` and `ib` indices, `dt` and `bt` token amounts,
      `rate` the borrow rate times time, `md` the deposit rate times time. */
  lemma CreditedRateBound(dt: nat, bt: nat, u: nat, rate: nat, md: nat)
    requires 0 < dt && u == bt * BANK_UTILIZATION_PRECISION / dt
    requires md == rate * u / BANK_UTILIZATION_PRECISION
    ensures dt * md <= rate * bt
  {
    var scale := BANK_UTILIZATION_PRECISION;
    DivFloor(bt * scale, dt);
    DivFloor(rate * u, scale);
    MulMono(md * scale, rate * u, dt);
    MulMono(u * dt, bt * scale, rate);
    assert (dt * md) * scale == (md * scale) * dt;
    assert (rate * u) * dt == rate * (u * dt);
    assert rate * (bt * scale) == (rate * bt) * scale;
    MulCancel(dt * md, rate * bt, scale);
  }

  lemma CreditedInterestBound(dep: nat, id: nat, dt: nat, p: nat, bor: nat, ib: nat, bt: nat, rate: nat, md: nat)
    requires dt * p <= dep * id < dt * p + p
    requires bt * p <= bor * ib
    requires dt * md <= rate * bt
    ensures (dep * id) * md <= (bor * ib) * rate + p * md
  {
    MulMono(dep * id, dt * p + p, md);
    MulMono(dt * md, rate * bt, p);
    MulMono(bt * p, bor * ib, rate);
    calc <= {
      (dep * id) * md;
      (dt * p + p) * md;
      { assert (dt * p + p) * md == (dt * p) * md + p * md; }
      (dt * p) * md + p * md;
      { assert (dt * p) * md == (dt * md) * p; }
      (dt * md) * p + p * md;
      (rate * bt) * p + p * md;
      { assert (rate * bt) * p == (bt * p) * rate; }
      (bt * p) * rate + p * md;
      (bor * ib) * rate + p * md;
    }
  }

  /** The intermediate values of an accrual and the bounds each step gives. */
  lemma AccrualSteps(bank: BankState, now: int) returns (rate: nat, md: nat, dt: nat, bt: nat)
    requires bank.WellFormed()
    requires CalculateAccumulatedInterest(bank, now).Ok?
    requires CalculateAccumulatedInterest(bank, now).value.depositInterest != 0
    requires bank.depositBalance != 0
    ensures var p := bank.Precision();
            && DepositTokens(bank) == Ok(dt)
            && dt * md <= rate * bt
            && dt * p <= bank.depositBalance * bank.cumulativeDepositInterest < dt * p + p
            && bt * p <= bank.borrowBalance * bank.cumulativeBorrowInterest
    ensures var i, year := CalculateAccumulatedInterest(bank, now).value, ONE_YEAR * BANK_INTEREST_PRECISION;
            && i.depositInterest * year <= bank.cumulativeDepositInterest * md < (i.depositInterest + 1) * year
            && bank.cumulativeBorrowInterest * rate < i.borrowInterest * year
  {
    dt := DepositTokens(bank).value;
    bt := BorrowTokens(bank).value;
    var u := Utilization(dt, bt).value;
    ZeroTokensIffZeroBalance(bank.depositBalance, bank, Deposit);
    TokenAmountBounds(bank.depositBalance, bank, Deposit);
    TokenAmountBounds(bank.borrowBalance, bank, Borrow);
    rate := CheckedMul(BorrowRate(bank, u).value, now - bank.lastUpdated).value;
    md := rate * u / BANK_UTILIZATION_PRECISION;
    CreditedRateBound(dt, bt, u, rate, md);
    IndexGrowthBounds(bank.cumulativeBorrowInterest, rate);
    IndexGrowthBounds(bank.cumulativeDepositInterest, md);
  }

  /** Whatever the rate curve and the elapsed time, what depositors are credited
      is paid for by what borrowers are charged, except for the index growth of
      one single unit of deposit balance. */
  lemma InterestIsCovered(bank: BankState, now: int)
    requires bank.WellFormed()
    requires CalculateAccumulatedInterest(bank, now).Ok?
    ensures var i := CalculateAccumulatedInterest(bank, now).value;
            bank.depositBalance * i.depositInterest
            <= bank.borrowBalance * i.borrowInterest + i.depositInterest
  {
    var i := CalculateAccumulatedInterest(bank, now).value;
    if i.depositInterest != 0 && bank.depositBalance != 0 {
      var rate, md, dt, bt := AccrualSteps(bank, now);
      CoveredFromSteps(bank, rate, md, i, dt, bt);
    } else {
      MulNonNegative(bank.borrowBalance, i.borrowInterest);
      assert bank.depositBalance * i.depositInterest == 0;
    }
  }

  lemma CoveredFromSteps(bank: BankState, rate: nat, md: nat, i: InterestAccumulated, dt: nat, bt: nat)
    requires bank.WellFormed()
    requires dt * md <= rate * bt
    requires var p := bank.Precision();
             && dt * p <= bank.depositBalance * bank.cumulativeDepositInterest < dt * p + p
             && bt * p <= bank.borrowBalance * bank.cumulativeBorrowInterest
    requires var year := ONE_YEAR * BANK_INTEREST_PRECISION;
             && i.depositInterest * year <= bank.cumulativeDepositInterest * md < (i.depositInterest + 1) * year
             && bank.cumulativeBorrowInterest * rate < i.borrowInterest * year
    ensures bank.depositBalance * i.depositInterest
            <= bank.borrowBalance * i.borrowInterest + i.depositInterest
  {
    CreditedInterestBound(bank.depositBalance, bank.cumulativeDepositInterest, dt, bank.Precision(),
                          bank.borrowBalance, bank.cumulativeBorrowInterest, bt, rate, md);
    CoveredFromBounds(bank.depositBalance, bank.cumulativeDepositInterest,
                      bank.borrowBalance, bank.cumulativeBorrowInterest, bank.Precision(), rate, md,
                      i.depositInterest, i.borrowInterest, ONE_YEAR * BANK_INTEREST_PRECISION);
  }

  lemma CoveredFromBounds(dep: nat, id: nat, bor: nat, ib: nat, p: nat, rate: nat, md: nat, di: nat, bi: nat, year: nat)
    requires 0 < year && p <= id
    requires (dep * id) * md <= (bor * ib) * rate + p * md
    requires di * year <= id * md < (di + 1) * year
    requires ib * rate < bi * year
    ensures dep * di <= bor * bi + di
  {
    MulMono(p, id, md);
    ScaledBy(dep, di * year, id * md);
    ScaledBy(bor, ib * rate, bi * year);
    Regroup3(dep, di, id, md, year);
    Regroup3(bor, bi, ib, rate, year);
    assert (dep * di) * year < (bor * bi) * year + (di + 1) * year;
    assert (bor * bi) * year + (di + 1) * year == (bor * bi + di + 1) * year;
    MulCancelStrict(dep * di, bor * bi + di + 1, year);
  }

  lemma ScaledBy(c: nat, a: nat, b: nat)
    requires a <= b
    ensures c * a <= c * b
  {
    MulMono(a, b, c);
  }

  lemma Regroup3(c: int, a: int, x: int, y: int, year: int)
    ensures c * (a * year) == (c * a) * year
    ensures c * (x * y) == (c * x) * y
  {
  }

  /** The same cover as a ratio: interest credited exceeds interest charged by
      at most one part in the number of tokens deposited. */
  lemma InterestIsCoveredProportionally(bank: BankState, now: int)
    requires bank.WellFormed()
    requires CalculateAccumulatedInterest(bank, now).Ok?
    ensures DepositTokens(bank).Ok?
    ensures var i, dt := CalculateAccumulatedInterest(bank, now).value, DepositTokens(bank).value;
            bank.depositBalance * i.depositInterest * dt <= (dt + 1) * (bank.borrowBalance * i.borrowInterest)
  {
    var i, tokens := CalculateAccumulatedInterest(bank, now).value, DepositTokens(bank).value;
    if i.depositInterest != 0 && bank.depositBalance != 0 {
      var rate, md, dt, bt := AccrualSteps(bank, now);
      assert dt == tokens;
      ProportionalFromBounds(bank.depositBalance, bank.cumulativeDepositInterest, dt, bank.Precision(),
                             bank.borrowBalance, bank.cumulativeBorrowInterest, bt, rate, md,
                             i.depositInterest, i.borrowInterest, ONE_YEAR * BANK_INTEREST_PRECISION);
    } else {
      NothingCredited(bank.depositBalance, i.depositInterest, tokens, bank.borrowBalance, i.borrowInterest);
    }
  }

  lemma NothingCredited(dep: nat, di: nat, dt: nat, bor: nat, bi: nat)
    requires dep == 0 || di == 0
    ensures dep * di * dt <= (dt + 1) * (bor * bi)
  {
    MulNonNegative(bor, bi);
    MulNonNegative(dt + 1, bor * bi);
    assert dep * di == 0;
  }

  lemma ProportionalFromBounds(dep: nat, id: nat, dt: nat, p: nat, bor: nat, ib: nat, bt: nat,
                               rate: nat, md: nat, di: nat, bi: nat, year: nat)
    requires 0 < year
    requires dep * id < dt * p + p && bt * p <= bor * ib && dt * md <= rate * bt
    requires di * year <= id * md && ib * rate < bi * year
    ensures dep * di * dt <= (dt + 1) * (bor * bi)
  {
    MulNonNegative(dep, dt);
    MulNonNegative(rate, bt);
    MulMono(di * year, id * md, dep * dt);
    MulMono(dt * md, rate * bt, dep * id);
    MulMono(dep * id, (dt + 1) * p, rate * bt);
    MulNonNegative(dt + 1, rate);
    MulMono(bt * p, bor * ib, (dt + 1) * rate);
    MulNonNegative(dt + 1, bor);
    MulMono(ib * rate, bi * year, (dt + 1) * bor);
    calc <= {
      (dep * di * dt) * year;
      { Regroup4(dep, di, dt, year); }
      (dep * dt) * (di * year);
      (dep * dt) * (id * md);
      { Regroup4(dep, id, dt, md); Regroup4(dep, dt, id, md); }
      (dep * id) * (dt * md);
      (dep * id) * (rate * bt);
      ((dt + 1) * p) * (rate * bt);
      { Regroup4(dt + 1, p, rate, bt); Regroup4(dt + 1, rate, p, bt); }
      ((dt + 1) * rate) * (bt * p);
      ((dt + 1) * rate) * (bor * ib);
      { Regroup4(dt + 1, rate, bor, ib); Regroup4(dt + 1, bor, rate, ib); }
      ((dt + 1) * bor) * (ib * rate);
      ((dt + 1) * bor) * (bi * year);
      { Regroup4(dt + 1, bor, bi, year); }
      ((dt + 1) * (bor * bi)) * year;
    }
    MulCancel(dep * di * dt, (dt + 1) * (bor * bi), year);
  }

  lemma Regroup4(a: int, b: int, c: int, d: int)
    ensures (a * b * c) * d == (a * c) * (b * d)
    ensures (a * b) * (c * d) == (a * c) * (b * d)
    ensures (a * b) * (c * d) == (a * (b * c)) * d
    ensures c * d == d * c
  {
    assert a * b * c == (a * c) * b;
    assert ((a * c) * b) * d == (a * c) * (b * d);
    assert (a * b) * (c * d) == ((a * b) * c) * d;
    assert (a * b) * c == a * (b * c);
  }

  // ---------------------------------------------------------------- the rate curve

  /** Both slopes, on plain numbers: `rise` over `run`, floored twice. */
  function SlopedRate(x: nat, rise: nat, run: nat): nat
    requires 0 < run
  {
    MulNonNegative(x, rise * BANK_UTILIZATION_PRECISION / run);
    x * (rise * BANK_UTILIZATION_PRECISION / run) / BANK_UTILIZATION_PRECISION
  }

  lemma SlopedRateBounds(x: nat, rise: nat, run: nat)
    requires 0 < run
    ensures x <= run ==> SlopedRate(x, rise, run) <= rise
    ensures x == run ==>
              BANK_UTILIZATION_PRECISION * (rise - SlopedRate(x, rise, run)) < run + BANK_UTILIZATION_PRECISION
  {
    var scale := BANK_UTILIZATION_PRECISION;
    var slope := rise * scale / run;
    DivFloor(rise * scale, run);
    if x <= run {
      MulMono(x, run, slope);
      DivAtMost(x * slope, scale, rise);
    }
    if x == run {
      DivFloor(x * slope, scale);
    }
  }

  lemma SlopedRateMonotone(x: nat, x': nat, rise: nat, run: nat)
    requires 0 < run && x <= x'
    ensures SlopedRate(x, rise, run) <= SlopedRate(x', rise, run)
  {
    var slope := rise * BANK_UTILIZATION_PRECISION / run;
    MulMono(x, x', slope);
    MulNonNegative(x, slope);
    DivMono(x * slope, x' * slope, BANK_UTILIZATION_PRECISION);
  }

  lemma RateIsSloped(bank: BankState, utilization: u128)
    requires BorrowRate(bank, utilization).Ok?
    ensures var rate := BorrowRate(bank, utilization).value;
            if utilization <= bank.optimalUtilization then
              && 0 < bank.optimalUtilization
              && rate == SlopedRate(utilization, bank.optimalBorrowRate, bank.optimalUtilization)
            else
              && bank.optimalUtilization < BANK_UTILIZATION_PRECISION && bank.optimalBorrowRate <= bank.maxBorrowRate
              && rate == bank.optimalBorrowRate
                         + SlopedRate(utilization - bank.optimalUtilization,
                                      bank.maxBorrowRate - bank.optimalBorrowRate,
                                      BANK_UTILIZATION_PRECISION - bank.optimalUtilization)
  {
  }

  /** The borrow rate never falls as utilization rises, through the kink included. */
  lemma BorrowRateMonotone(bank: BankState, utilization: u128, utilization': u128)
    requires utilization <= utilization'
    requires BorrowRate(bank, utilization).Ok? && BorrowRate(bank, utilization').Ok?
    ensures BorrowRate(bank, utilization).value <= BorrowRate(bank, utilization').value
  {
    hide BorrowRate, SlopedRate;
    var optimal := bank.optimalUtilization;
    RateIsSloped(bank, utilization);
    RateIsSloped(bank, utilization');
    if utilization' <= optimal {
      SlopedRateMonotone(utilization, utilization', bank.optimalBorrowRate, optimal);
    } else if utilization <= optimal {
      SlopedRateBounds(utilization, bank.optimalBorrowRate, optimal);
    } else {
      SlopedRateMonotone(utilization - optimal, utilization' - optimal, bank.maxBorrowRate - bank.optimalBorrowRate,
                         BANK_UTILIZATION_PRECISION - optimal);
    }
  }

  /** It meets its set points to within one: the optimal rate at the kink, the
      maximum rate at full utilization. Nothing keeps the optimal utilization below
      one; past that the error at the kink grows with it. */
  lemma BorrowRateSetPoints(bank: BankState, utilization: u128)
    requires BorrowRate(bank, utilization).Ok?
    ensures var rate, scale := BorrowRate(bank, utilization).value, BANK_UTILIZATION_PRECISION;
            && (utilization == bank.optimalUtilization ==>
                  && rate <= bank.optimalBorrowRate
                  && scale * (bank.optimalBorrowRate - rate) < bank.optimalUtilization + scale
                  && (bank.optimalUtilization <= scale ==> bank.optimalBorrowRate <= rate + 1))
            && (utilization == BANK_UTILIZATION_PRECISION > bank.optimalUtilization ==>
                  rate <= bank.maxBorrowRate <= rate + 1)
  {
    hide BorrowRate, SlopedRate;
    RateIsSloped(bank, utilization);
    if utilization == bank.optimalUtilization {
      SlopedRateBounds(utilization, bank.optimalBorrowRate, bank.optimalUtilization);
    } else if utilization == BANK_UTILIZATION_PRECISION > bank.optimalUtilization {
      SlopedRateBounds(utilization - bank.optimalUtilization, bank.maxBorrowRate - bank.optimalBorrowRate,
                       BANK_UTILIZATION_PRECISION - bank.optimalUtilization);
    }
  }
}
