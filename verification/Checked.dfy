/** Rust's checked u128 arithmetic and the errors an instruction can end with.
    The program reports every arithmetic failure as one math error; here the
    cause is kept, so that a lemma can say which of them cannot happen. */
module Checked {
  import opened Arithmetic

  const U128_MAX: nat := 0xFFFF_FFFF_FFFF_FFFF_FFFF_FFFF_FFFF_FFFF
  const U64_MAX: nat := 0xFFFF_FFFF_FFFF_FFFF
  const I128_MAX: int := 0x7FFF_FFFF_FFFF_FFFF_FFFF_FFFF_FFFF_FFFF

  type u128 = x: nat | x <= U128_MAX
  type u64 = x: nat | x <= U64_MAX
  type i128 = x: int | -I128_MAX - 1 <= x <= I128_MAX

  datatype Error =
    | Overflow
    | Underflow
    | DivisionByZero
    | BalanceUnderflow // a balance, or a bank total, reduced below zero
    | CastFailure
    | InsufficientDeposit
    | BankInsufficientDeposits
    | InsufficientCollateral
    | CantUpdatePNLPoolBalanceType
    | UserMustSettleTheirOwnPositiveUnsettledPNL
    | AccountBorrowed // the same account loaded mutably twice
    | LiquidationOfBorrower
    | NoPositionsLiquidatable
    | OracleMarkSpreadLimit
    | AdminWithdrawTooLarge
    | NoSuchAccount
    | External // a step outside the model failed: token transfer, funding, oracle

  datatype Result<+T> = Ok(value: T) | Err(error: Error) {
    predicate IsFailure() {
      Err?
    }

    function PropagateFailure<U>(): Result<U>
      requires Err?
    {
      Err(error)
    }

    function Extract(): T
      requires Ok?
    {
      value
    }
  }

  function CheckedAdd(a: u128, b: u128): Result<u128> {
    if a + b <= U128_MAX then Ok(a + b) else Err(Overflow)
  }

  function CheckedSub(a: u128, b: u128): Result<u128> {
    if b <= a then Ok(a - b) else Err(Underflow)
  }

  function CheckedMul(a: u128, b: u128): Result<u128> {
    var product: nat := a * b;
    if product <= U128_MAX then Ok(product) else Err(Overflow)
  }

  function CheckedDiv(a: u128, b: u128): Result<u128> {
    if b == 0 then Err(DivisionByZero) else Ok(Quotient(a, b))
  }

  function Quotient(a: u128, b: u128): u128
    requires b != 0
  {
    assert a / b <= a by {
      MulMono(1, b, a + 1);
      DivAtMost(a, b, a);
    }
    a / b
  }

  function CastToU64(x: int): Result<u64> {
    if 0 <= x <= U64_MAX then Ok(x) else Err(CastFailure)
  }

  /** The `as u64` conversion, which keeps the low 64 bits. */
  function TruncateToU64(x: u128): (r: u64)
    ensures r <= x
  {
    x % (U64_MAX + 1)
  }

  function Need(condition: bool, error: Error): Result<()> {
    if condition then Ok(()) else Err(error)
  }
}
