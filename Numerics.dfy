/** Fixed-width integers of the Rust program, written out over Dafny's
    unbounded `int`, and the checked arithmetic the program relies on. */
module Numerics {

  const I64_MIN: int := -0x8000_0000_0000_0000
  const I64_MAX: int := 0x7FFF_FFFF_FFFF_FFFF
  const U32_MAX: int := 0xFFFF_FFFF
  const U64_MAX: int := 0xFFFF_FFFF_FFFF_FFFF

  type byte = x: int | 0 <= x < 0x100
  type i64 = x: int | -0x8000_0000_0000_0000 <= x <= 0x7FFF_FFFF_FFFF_FFFF
  type u32 = x: int | 0 <= x <= 0xFFFF_FFFF
  type u64 = x: int | 0 <= x <= 0xFFFF_FFFF_FFFF_FFFF

  datatype Option<+T> = None | Some(value: T) {
    predicate IsFailure() { None? }

    function PropagateFailure<U>(): Option<U>
      requires None?
    {
      None
    }

    function Extract(): T
      requires Some?
    {
      value
    }
  }

  function Abs(x: int): nat {
    if x < 0 then -x else x
  }

  /** `a * b` on `u64` with overflow checks: `None` stands for the panic. */
  function CheckedMul(a: u64, b: u64): Option<u64> {
    if a * b <= U64_MAX then Some(a * b) else None
  }

  /** `a + b` on `u64` with overflow checks. */
  function CheckedAdd(a: u64, b: u64): Option<u64> {
    if a + b <= U64_MAX then Some(a + b) else None
  }

  /** `(a - b).abs() as u64` on `i64` with overflow checks: the subtraction
      panics when the difference leaves `i64`, and `abs` panics on `i64::MIN`,
      so the result exists exactly when `|a - b|` fits in `i64`. */
  function AbsDiff(a: i64, b: i64): (r: Option<u64>)
    ensures r.Some? <==> Abs(a - b) <= I64_MAX
    ensures r.Some? ==> r.value == Abs(a - b)
  {
    var d := a - b;
    if d < I64_MIN || I64_MAX < d then None   // `-` overflows
    else if d == I64_MIN then None             // `abs` overflows
    else Some(Abs(d))
  }
}
