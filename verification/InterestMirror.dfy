/** The client library's own computation of accrued interest
    (sdk/src/math/bankBalance.ts), and when it agrees with the program's. */
module InterestMirror {
  import opened Arithmetic
  import opened Bn
  import opened Checked
  import opened BankMath

  function MirrorTokens(balance: u128, bank: BankState, kind: BalanceType): Attempt<int> {
    Div(balance * bank.Index(kind), Pow10(Abs(16 - bank.decimals)))
  }

  function MirrorUtilization(depositTokens: int, borrowTokens: int): Attempt<int> {
    if borrowTokens == 0 && depositTokens == 0 then Done(0)
    else if depositTokens == 0 then Done(BANK_UTILIZATION_PRECISION)
    else Div(borrowTokens * BANK_UTILIZATION_PRECISION, depositTokens)
  }

  /** Both slopes divide by one minus the optimal utilization. */
  function MirrorRate(bank: BankState, utilization: int): Attempt<int> {
    var run := BANK_UTILIZATION_PRECISION - bank.optimalUtilization;
    if utilization > bank.optimalUtilization then
      var slope :- Div((bank.maxBorrowRate - bank.optimalBorrowRate) * BANK_UTILIZATION_PRECISION, run);
      Done(bank.optimalBorrowRate
           + TruncDiv((utilization - bank.optimalUtilization) * slope, BANK_UTILIZATION_PRECISION))
    else
      var slope :- Div(bank.optimalBorrowRate * BANK_UTILIZATION_PRECISION, run);
      Done(TruncDiv(utilization * slope, BANK_UTILIZATION_PRECISION))
  }

  function MirrorGrowth(index: u128, modifiedRate: int): int {
    TruncDiv(TruncDiv(index * modifiedRate, ONE_YEAR), BANK_INTEREST_PRECISION)
  }

  /** Borrow and deposit interest, in that order. */
  function MirrorInterest(bank: BankState, now: int): Attempt<(int, int)> {
    var depositTokens :- MirrorTokens(bank.depositBalance, bank, Deposit);
    var borrowTokens :- MirrorTokens(bank.borrowBalance, bank, Borrow);
    var utilization :- MirrorUtilization(depositTokens, borrowTokens);
    var rate :- MirrorRate(bank, utilization);
    Done(MirrorAtRate(bank, now, utilization, rate))
  }

  function MirrorAtRate(bank: BankState, now: int, utilization: int, rate: int): (int, int) {
    var modifiedBorrowRate := rate * (now - bank.lastUpdated);
    var modifiedDepositRate := TruncDiv(modifiedBorrowRate * utilization, BANK_UTILIZATION_PRECISION);
    (MirrorGrowth(bank.cumulativeBorrowInterest, modifiedBorrowRate) + 1,
     MirrorGrowth(bank.cumulativeDepositInterest, modifiedDepositRate))
  }

  // ------------------------------------------------------- the rate

  lemma SlopedByTruncation(x: nat, rise: nat, run: nat)
    requires 0 < run
    ensures TruncDiv(x * TruncDiv(rise * BANK_UTILIZATION_PRECISION, run), BANK_UTILIZATION_PRECISION)
            == SlopedRate(x, rise, run)
  {
    TruncIsFloor(rise * BANK_UTILIZATION_PRECISION, run);
    MulNonNegative(x, rise * BANK_UTILIZATION_PRECISION / run);
    TruncIsFloor(x * (rise * BANK_UTILIZATION_PRECISION / run), BANK_UTILIZATION_PRECISION);
  }

  /** Above the optimal utilization the two rates are the same. */
  lemma UpperSlopeAgrees(bank: BankState, utilization: u128)
    requires utilization > bank.optimalUtilization && BorrowRate(bank, utilization).Ok?
    ensures MirrorRate(bank, utilization) == Done(BorrowRate(bank, utilization).value)
  {
    hide BorrowRate, SlopedRate, TruncDiv;
    RateIsSloped(bank, utilization);
    SlopedByTruncation(utilization - bank.optimalUtilization, bank.maxBorrowRate - bank.optimalBorrowRate,
                       BANK_UTILIZATION_PRECISION - bank.optimalUtilization);
  }

  lemma SteeperSlope(x: nat, rise: nat, run: nat, run': nat)
    requires 0 < run <= run'
    ensures SlopedRate(x, rise, run') <= SlopedRate(x, rise, run)
  {
    var scaled := rise * BANK_UTILIZATION_PRECISION;
    DivFloor(scaled, run');
    MulMono(run, run', scaled / run');
    DivAtLeast(scaled, run, scaled / run');
    MulMono(scaled / run', scaled / run, x);
    MulNonNegative(x, scaled / run');
    DivMono(x * (scaled / run'), x * (scaled / run), BANK_UTILIZATION_PRECISION);
  }

  /** A slope over a negative run is never positive. */
  lemma SlopeOverNegativeRun(x: nat, rise: nat, run: nat)
    requires 0 < run
    ensures TruncDiv(x * TruncDiv(rise * BANK_UTILIZATION_PRECISION, 0 - run), BANK_UTILIZATION_PRECISION)
            == 0 - SlopedRate(x, rise, run)
  {
    hide TruncDiv;
    var scaled := rise * BANK_UTILIZATION_PRECISION;
    TruncIsFloor(scaled, run);
    TruncOfNegative(scaled, run);
    assert x * (0 - scaled / run) == 0 - x * (scaled / run);
    MulNonNegative(x, scaled / run);
    TruncIsFloor(x * (scaled / run), BANK_UTILIZATION_PRECISION);
    TruncOfNegative(x * (scaled / run), BANK_UTILIZATION_PRECISION);
  }

  /** Up to the optimal utilization, at every utilization: the mirror understates the
      rate when that is at most a half and overstates it from there to one, divides by
      zero when it is one, and gives no rate or a negative one beyond. */
  lemma LowerSlopeSide(bank: BankState, utilization: u128)
    requires utilization <= bank.optimalUtilization
    requires BorrowRate(bank, utilization).Ok?
    ensures MirrorRate(bank, utilization).Throws? <==> bank.optimalUtilization == BANK_UTILIZATION_PRECISION
    ensures bank.optimalUtilization != BANK_UTILIZATION_PRECISION ==>
              var mirror, rate := MirrorRate(bank, utilization).value, BorrowRate(bank, utilization).value;
              && (2 * bank.optimalUtilization <= BANK_UTILIZATION_PRECISION ==> mirror <= rate)
              && (BANK_UTILIZATION_PRECISION <= 2 * bank.optimalUtilization < 2 * BANK_UTILIZATION_PRECISION ==>
                    rate <= mirror)
              && (bank.optimalUtilization > BANK_UTILIZATION_PRECISION ==> mirror <= 0)
  {
    hide BorrowRate, SlopedRate, TruncDiv;
    RateIsSloped(bank, utilization);
    var optimal, rest := bank.optimalUtilization, BANK_UTILIZATION_PRECISION - bank.optimalUtilization;
    if rest > 0 {
      SlopedByTruncation(utilization, bank.optimalBorrowRate, rest);
      if optimal <= rest {
        SteeperSlope(utilization, bank.optimalBorrowRate, optimal, rest);
      }
      if rest <= optimal {
        SteeperSlope(utilization, bank.optimalBorrowRate, rest, optimal);
      }
    } else if rest < 0 {
      SlopeOverNegativeRun(utilization, bank.optimalBorrowRate, -rest);
    }
  }

  /** The rates agree up to an optimal utilization, whatever the optimal rate. */
  ghost predicate AgreesUpTo(optimal: u128) {
    forall bank: BankState, utilization: u128 ::
      bank.optimalUtilization == optimal && utilization <= optimal && BorrowRate(bank, utilization).Ok? ==>
        MirrorRate(bank, utilization) == Done(BorrowRate(bank, utilization).value)
  }

  /** At the optimal rate of one hundred percent the mirror misses the set point
      wherever the optimal utilization is not a half. */
  lemma MissesSetPoint(optimal: nat)
    requires 0 < optimal < BANK_UTILIZATION_PRECISION && 2 * optimal != BANK_UTILIZATION_PRECISION
    ensures SlopedRate(optimal, BANK_UTILIZATION_PRECISION, BANK_UTILIZATION_PRECISION - optimal)
            != SlopedRate(optimal, BANK_UTILIZATION_PRECISION, optimal)
  {
    var s := BANK_UTILIZATION_PRECISION;
    var rest := s - optimal;
    hide SlopedRate;
    SlopedRateBounds(optimal, s, optimal);
    if rest < optimal {
      OverSetPoint(optimal, rest);
    } else {
      UnderSetPoint(optimal, rest);
    }
  }

  lemma OverSetPoint(optimal: nat, rest: nat)
    requires 0 < rest < optimal && optimal + rest == BANK_UTILIZATION_PRECISION
    ensures SlopedRate(optimal, BANK_UTILIZATION_PRECISION, rest) > BANK_UTILIZATION_PRECISION
  {
    var s := BANK_UTILIZATION_PRECISION;
    var slope := s * s / rest;
    DivFloor(s * s, rest);
    assert rest <= 499_999;
    DivAtLeast(s * s, rest, 2_000_004);
    MulMono(500_001, optimal, slope);
    DivAtLeast(optimal * slope, s, s + 1);
  }

  lemma UnderSetPoint(optimal: nat, rest: nat)
    requires 0 < optimal < rest && optimal + rest == BANK_UTILIZATION_PRECISION
    ensures SlopedRate(optimal, BANK_UTILIZATION_PRECISION, rest) < BANK_UTILIZATION_PRECISION - 1
  {
    var s := BANK_UTILIZATION_PRECISION;
    var slope := s * s / rest;
    DivFloor(s * s, rest);
    assert rest >= 500_001;
    MulMono(500_001, rest, 1_999_997);
    DivAtMost(s * s, rest, 1_999_996);
    MulMono(optimal, 499_999, slope);
    DivAtMost(optimal * slope, s, s - 2);
  }

  /** The lower slopes agree exactly where the optimal utilization is a half, or zero:
      there the program has no lower slope to agree with. */
  lemma LowerSlopeAgreesIff(optimal: u128)
    ensures AgreesUpTo(optimal) <==> optimal == 0 || 2 * optimal == BANK_UTILIZATION_PRECISION
  {
    hide BorrowRate, MirrorRate;
    if optimal == 0 || 2 * optimal == BANK_UTILIZATION_PRECISION {
      forall bank: BankState, utilization: u128
        | bank.optimalUtilization == optimal && utilization <= optimal && BorrowRate(bank, utilization).Ok?
        ensures MirrorRate(bank, utilization) == Done(BorrowRate(bank, utilization).value)
      {
        RateIsSloped(bank, utilization);
        LowerSlopeSide(bank, utilization);
      }
    } else if optimal < BANK_UTILIZATION_PRECISION {
      SetPointDiffers(optimal);
    } else if optimal == BANK_UTILIZATION_PRECISION {
      FullRateIsDefined(optimal);
      LowerSlopeSide(FullRateBank(optimal), optimal);
    } else {
      NegativeRateDiffers(optimal);
    }
  }

  /** A bank whose optimal rate is one hundred percent. */
  function FullRateBank(optimal: u128): BankState {
    RateBank(optimal, BANK_UTILIZATION_PRECISION)
  }

  function RateBank(optimal: u128, rate: u128): BankState {
    BankState(6, optimal, rate, rate, 0, 0, BANK_CUMULATIVE_INTEREST_PRECISION, BANK_CUMULATIVE_INTEREST_PRECISION, 0)
  }

  /** Beyond one, at the highest optimal rate the program can compute with, the
      mirror's rate is below zero. */
  lemma NegativeRateDiffers(optimal: u128)
    requires optimal > BANK_UTILIZATION_PRECISION
    ensures var bank := RateBank(optimal, U128_MAX / BANK_UTILIZATION_PRECISION);
            && BorrowRate(bank, optimal).Ok?
            && MirrorRate(bank, optimal) != Done(BorrowRate(bank, optimal).value)
  {
    var s, rate := BANK_UTILIZATION_PRECISION, U128_MAX / BANK_UTILIZATION_PRECISION;
    var bank := RateBank(optimal, rate);
    DivFloor(rate * s, optimal);
    MulMono(1, optimal, rate * s + 1);
    DivAtMost(rate * s, optimal, rate * s);
    assert BorrowRate(bank, optimal).Ok?;
    hide BorrowRate, TruncDiv;
    SlopeOverNegativeRun(optimal, rate, optimal - s);
    RatePositive(optimal, rate, optimal - s);
  }

  lemma RatePositive(optimal: u128, rate: nat, run: nat)
    requires 0 < run <= rate * BANK_UTILIZATION_PRECISION && BANK_UTILIZATION_PRECISION < optimal
    ensures SlopedRate(optimal, rate, run) >= 1
  {
    var slope := rate * BANK_UTILIZATION_PRECISION / run;
    DivAtLeast(rate * BANK_UTILIZATION_PRECISION, run, 1);
    MulMono(1, slope, optimal);
    DivAtLeast(optimal * slope, BANK_UTILIZATION_PRECISION, 1);
  }

  lemma SetPointDiffers(optimal: u128)
    requires 0 < optimal < BANK_UTILIZATION_PRECISION && 2 * optimal != BANK_UTILIZATION_PRECISION
    ensures BorrowRate(FullRateBank(optimal), optimal).Ok?
    ensures MirrorRate(FullRateBank(optimal), optimal) != Done(BorrowRate(FullRateBank(optimal), optimal).value)
  {
    hide SlopedRate, TruncDiv;
    FullRateIsDefined(optimal);
    MissesSetPoint(optimal);
    SlopedByTruncation(optimal, BANK_UTILIZATION_PRECISION, BANK_UTILIZATION_PRECISION - optimal);
    RateIsSloped(FullRateBank(optimal), optimal);
  }

  lemma FullRateIsDefined(optimal: u128)
    requires 0 < optimal <= BANK_UTILIZATION_PRECISION
    ensures BorrowRate(FullRateBank(optimal), optimal).Ok?
  {
    var s := BANK_UTILIZATION_PRECISION;
    DivFloor(s * s, optimal);
    MulMono(1, optimal, s * s + 1);
    DivAtMost(s * s, optimal, s * s);
    MulMono(optimal, s, s * s / optimal);
  }

  // ------------------------------------------------------- the interest

  lemma MirrorTokensAgree(balance: u128, bank: BankState, kind: BalanceType)
    requires GetTokenAmount(balance, bank, kind).Ok?
    ensures MirrorTokens(balance, bank, kind) == Done(GetTokenAmount(balance, bank, kind).value)
  {
    MulNonNegative(balance, bank.Index(kind));
    TruncIsFloor(balance * bank.Index(kind), bank.Precision());
  }

  lemma MirrorUtilizationAgrees(depositTokens: u128, borrowTokens: u128)
    requires Utilization(depositTokens, borrowTokens).Ok?
    ensures MirrorUtilization(depositTokens, borrowTokens) == Done(Utilization(depositTokens, borrowTokens).value)
  {
    if depositTokens != 0 {
      TruncIsFloor(borrowTokens * BANK_UTILIZATION_PRECISION, depositTokens);
    }
  }

  lemma MirrorGrowthAgrees(index: u128, rate: u128)
    requires IndexGrowth(index, rate).Ok?
    ensures MirrorGrowth(index, rate) == IndexGrowth(index, rate).value
  {
    MulNonNegative(index, rate);
    TruncIsFloor(index * rate, ONE_YEAR);
    TruncIsFloor(index * rate / ONE_YEAR, BANK_INTEREST_PRECISION);
  }

  /** Where the program accrues and the rates agree, the interest is the same. */
  lemma SameRateSameInterest(bank: BankState, now: int, utilization: u128)
    requires DepositTokens(bank).Ok? && BorrowTokens(bank).Ok?
    requires Utilization(DepositTokens(bank).value, BorrowTokens(bank).value) == Ok(utilization) && utilization != 0
    requires CalculateAccumulatedInterest(bank, now).Ok?
    requires MirrorRate(bank, utilization) == Done(BorrowRate(bank, utilization).value)
    ensures var i := CalculateAccumulatedInterest(bank, now).value;
            MirrorInterest(bank, now) == Done((i.borrowInterest, i.depositInterest))
  {
    hide BorrowRate, MirrorRate, MirrorGrowth, IndexGrowth, TruncDiv;
    MirrorTokensAgree(bank.depositBalance, bank, Deposit);
    MirrorTokensAgree(bank.borrowBalance, bank, Borrow);
    MirrorUtilizationAgrees(DepositTokens(bank).value, BorrowTokens(bank).value);
    var modified := BorrowRate(bank, utilization).value * (now - bank.lastUpdated);
    assert CheckedMul(BorrowRate(bank, utilization).value, now - bank.lastUpdated) == Ok(modified);
    MulNonNegative(modified, utilization);
    TruncIsFloor(modified * utilization, BANK_UTILIZATION_PRECISION);
    MirrorGrowthAgrees(bank.cumulativeBorrowInterest, modified);
    MirrorGrowthAgrees(bank.cumulativeDepositInterest, modified * utilization / BANK_UTILIZATION_PRECISION);
  }

  /** The mirror gives the program's interest above the optimal utilization, and
      everywhere if that is a half. With an optimal utilization of one it throws up to
      there, and beyond one it charges borrowers at most one index unit and credits
      depositors nothing. At zero utilization, where the program credits and charges
      nothing, it charges borrowers one index unit. */
  lemma MirrorAgrees(bank: BankState, now: int)
    requires CalculateAccumulatedInterest(bank, now).Ok?
    ensures DepositTokens(bank).Ok? && BorrowTokens(bank).Ok?
    ensures Utilization(DepositTokens(bank).value, BorrowTokens(bank).value).Ok?
    ensures var i, mirror := CalculateAccumulatedInterest(bank, now).value, MirrorInterest(bank, now);
            var u := Utilization(DepositTokens(bank).value, BorrowTokens(bank).value).value;
            var optimal, scale := bank.optimalUtilization, BANK_UTILIZATION_PRECISION;
            && (mirror.Throws? <==> optimal == scale && u <= optimal)
            && (u == 0 ==> i == InterestAccumulated(0, 0) && (optimal != scale ==> mirror == Done((1, 0))))
            && (u > optimal || (u != 0 && 2 * optimal == scale) ==>
                  mirror == Done((i.borrowInterest, i.depositInterest)))
            && (scale < optimal && u <= optimal ==> mirror.value.0 <= 1 && mirror.value.1 <= 0)
  {
    hide BorrowRate, MirrorRate, MirrorInterest;
    var u := Utilization(DepositTokens(bank).value, BorrowTokens(bank).value).value;
    MirrorFollowsRate(bank, now, u);
    if u == 0 {
      NothingMirrored(bank, now);
    } else if u > bank.optimalUtilization {
      UpperSlopeAgrees(bank, u);
      SameRateSameInterest(bank, now, u);
    } else {
      LowerSlopeSide(bank, u);
      if 2 * bank.optimalUtilization == BANK_UTILIZATION_PRECISION {
        SameRateSameInterest(bank, now, u);
      } else if bank.optimalUtilization > BANK_UTILIZATION_PRECISION {
        NegativeRateNegativeInterest(bank, now, u);
      }
    }
  }

  lemma MirrorFollowsRate(bank: BankState, now: int, u: u128)
    requires DepositTokens(bank).Ok? && BorrowTokens(bank).Ok?
    requires Utilization(DepositTokens(bank).value, BorrowTokens(bank).value) == Ok(u)
    ensures MirrorInterest(bank, now)
            == match MirrorRate(bank, u)
               case Done(rate) => Done(MirrorAtRate(bank, now, u, rate))
               case Throws => Throws
  {
    hide MirrorRate, MirrorAtRate;
    MirrorTokensAgree(bank.depositBalance, bank, Deposit);
    MirrorTokensAgree(bank.borrowBalance, bank, Borrow);
    MirrorUtilizationAgrees(DepositTokens(bank).value, BorrowTokens(bank).value);
  }

  lemma NothingMirrored(bank: BankState, now: int)
    requires MirrorInterest(bank, now)
             == match MirrorRate(bank, 0)
                case Done(rate) => Done(MirrorAtRate(bank, now, 0, rate))
                case Throws => Throws
    ensures MirrorInterest(bank, now)
            == if bank.optimalUtilization == BANK_UTILIZATION_PRECISION then Throws else Done((1, 0))
  {
    hide MirrorInterest;
    var run := BANK_UTILIZATION_PRECISION - bank.optimalUtilization;
    if run != 0 {
      assert 0 * TruncDiv(bank.optimalBorrowRate * BANK_UTILIZATION_PRECISION, run) == 0;
      assert TruncDiv(0, BANK_UTILIZATION_PRECISION) == 0 && TruncDiv(0, ONE_YEAR) == 0
          && TruncDiv(0, BANK_INTEREST_PRECISION) == 0;
      assert MirrorRate(bank, 0) == Done(0);
      assert MirrorAtRate(bank, now, 0, 0) == (1, 0) by {
        assert 0 * (now - bank.lastUpdated) == 0;
        assert bank.cumulativeBorrowInterest * 0 == 0 && bank.cumulativeDepositInterest * 0 == 0;
      }
    }
  }

  lemma NegativeGrowth(index: u128, rate: int)
    requires rate <= 0
    ensures MirrorGrowth(index, rate) <= 0
  {
    assert index * rate <= 0;
  }

  lemma NegativeRateNegativeInterest(bank: BankState, now: int, u: u128)
    requires MirrorRate(bank, u).Done? && MirrorRate(bank, u).value <= 0 && bank.lastUpdated <= now
    ensures var interest := MirrorAtRate(bank, now, u, MirrorRate(bank, u).value);
            interest.0 <= 1 && interest.1 <= 0
  {
    hide MirrorRate, MirrorGrowth;
    var modified := MirrorRate(bank, u).value * (now - bank.lastUpdated);
    assert modified <= 0;
    assert modified * u <= 0;
    NegativeGrowth(bank.cumulativeBorrowInterest, modified);
    NegativeGrowth(bank.cumulativeDepositInterest, TruncDiv(modified * u, BANK_UTILIZATION_PRECISION));
  }

  function HalfUsedBank(): BankState {
    BankState(6, 800_000, 100_000, 1_000_000, 1_000, 400,
              BANK_CUMULATIVE_INTEREST_PRECISION, BANK_CUMULATIVE_INTEREST_PRECISION, 0)
  }

  /** A quote bank with an optimal utilization of eighty percent, at forty: over a
      year the mirror predicts four times the interest the program charges. */
  lemma MirrorOverstatesInterest()
    ensures var bank := HalfUsedBank();
            && CalculateAccumulatedInterest(bank, ONE_YEAR) == Ok(InterestAccumulated(500_000_001, 200_000_000))
            && MirrorInterest(bank, ONE_YEAR) == Done((2_000_000_001, 800_000_000))
  {
    ProgramInterest();
    MirroredInterest();
    hide *;
  }

  lemma HalfUsedTokens()
    ensures var bank := HalfUsedBank();
            && DepositTokens(bank) == Ok(1_000) && BorrowTokens(bank) == Ok(400)
            && MirrorTokens(1_000, bank, Deposit) == Done(1_000) && MirrorTokens(400, bank, Borrow) == Done(400)
  {
    Pow10Values();
  }

  lemma ProgramInterest()
    ensures CalculateAccumulatedInterest(HalfUsedBank(), ONE_YEAR) == Ok(InterestAccumulated(500_000_001, 200_000_000))
  {
    HalfUsedTokens();
    hide DepositTokens, BorrowTokens;
    var bank := HalfUsedBank();
    assert Utilization(1_000, 400) == Ok(400_000);
    assert BorrowRate(bank, 400_000) == Ok(50_000);
    assert IndexGrowth(BANK_CUMULATIVE_INTEREST_PRECISION, 50_000 * ONE_YEAR) == Ok(500_000_000);
    assert IndexGrowth(BANK_CUMULATIVE_INTEREST_PRECISION, 20_000 * ONE_YEAR) == Ok(200_000_000);
  }

  lemma MirroredInterest()
    ensures MirrorInterest(HalfUsedBank(), ONE_YEAR) == Done((2_000_000_001, 800_000_000))
  {
    HalfUsedTokens();
    hide MirrorTokens;
    var bank := HalfUsedBank();
    assert MirrorUtilization(1_000, 400) == Done(400_000);
    assert MirrorRate(bank, 400_000) == Done(200_000);
    assert MirrorGrowth(BANK_CUMULATIVE_INTEREST_PRECISION, 200_000 * ONE_YEAR) == 2_000_000_000;
    assert MirrorGrowth(BANK_CUMULATIVE_INTEREST_PRECISION, 80_000 * ONE_YEAR) == 800_000_000;
  }
}
