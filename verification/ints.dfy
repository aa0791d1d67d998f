/** Fixed-width integers of the source and the `as` casts between them.

    Dafny integers are unbounded; the Rust types are written as subset types
    and every `as` conversion the source performs is spelled out as the
    bit-pattern reinterpretation (or truncation) Rust defines for it.
 */
module Ints {

  const TWO_31: int := 0x8000_0000
  const TWO_32: int := 0x1_0000_0000
  const TWO_63: int := 0x8000_0000_0000_0000
  const TWO_64: int := 0x1_0000_0000_0000_0000

  type u8 = x: int | 0 <= x < 0x100
  type u32 = x: int | 0 <= x < 0x1_0000_0000
  type i32 = x: int | -0x8000_0000 <= x < 0x8000_0000
  type u64 = x: int | 0 <= x < 0x1_0000_0000_0000_0000
  type i64 = x: int | -0x8000_0000_0000_0000 <= x < 0x8000_0000_0000_0000

  /** `x as i32` for `x: u32`: the same 32 bits read as two's complement. */
  function U32AsI32(x: u32): (r: i32)
    ensures 0 <= r <==> x < TWO_31
    ensures r % TWO_32 == x
  {
    if x < TWO_31 then x else x - TWO_32
  }

  /** `x as u32` for `x: i32`. */
  function I32AsU32(x: i32): (r: u32)
    ensures r < TWO_31 <==> 0 <= x
    ensures U32AsI32(r) == x
  {
    if x >= 0 then x else x + TWO_32
  }

  /** Reading a `u32` back from its `i32` reinterpretation gives it back. */
  lemma U32RoundTrip(x: u32)
    ensures I32AsU32(U32AsI32(x)) == x
  {
  }

  /** `x as i32` for `x: i64`: keeps the low 32 bits. */
  function I64AsI32(x: i64): (r: i32)
    ensures (r - x) % TWO_32 == 0
    ensures -TWO_31 <= x < TWO_31 ==> r == x
  {
    U32AsI32(x % TWO_32)
  }

  /** `x as i64` for `x: u64`. */
  function U64AsI64(x: u64): (r: i64)
    ensures 0 <= r <==> x < TWO_63
    ensures r % TWO_64 == x
  {
    if x < TWO_63 then x else x - TWO_64
  }

  /** `x & 0xFFFFFFFF` for `x: u64`. */
  function Lo32(x: u64): u32 {
    x % TWO_32
  }

  /** `x >> 32` for `x: u64`. */
  function Hi32(x: u64): u32 {
    x / TWO_32
  }

  /** The two 32-bit halves put back together give the 64-bit value. */
  lemma HalvesRecombine(x: u64)
    ensures Hi32(x) * TWO_32 + Lo32(x) == x
  {
  }

  /** `a * b` on `u32` in a release build: the product modulo 2^32. */
  function WrappingMul(a: u32, b: u32): u32 {
    (a * b) % TWO_32
  }
}
