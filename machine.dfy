/**
 * Fixed-width integer arithmetic of the .NET runtime, written out over
 * Dafny's unbounded integers: unchecked 32-bit signed and unsigned
 * wrap-around, C#'s truncating division and remainder, and the byte and
 * unsigned 32-bit value types.
 */
module Machine {

  const TWO_32: int := 0x1_0000_0000
  const TWO_31: int := 0x8000_0000
  const INT_MAX: int := 0x7FFF_FFFF

  /** Array.MaxLength: a List<T> cannot hold more elements; one more Add throws OutOfMemoryException. */
  const MAX_LIST_LENGTH: int := 0x7FFF_FFC7

  /** A .NET byte. */
  type byte = x: int | 0 <= x < 256

  /** A .NET int. */
  type i32 = x: int | -0x8000_0000 <= x < 0x8000_0000

  /** A .NET uint. */
  type u32 = x: int | 0 <= x < 0x1_0000_0000

  datatype Option<T> = None | Some(value: T)

  datatype Result<T, E> = Success(value: T) | Failure(error: E)

  /** 2^k: the weight of bit k, so that v >> k & 1 is v / TwoTo(k) % 2 for every v. */
  function TwoTo(k: nat): (r: nat)
    ensures r >= 1
  {
    if k == 0 then 1 else 2 * TwoTo(k - 1)
  }

  /** The value an unchecked .NET int holds after an arithmetic result x. */
  function Int32(x: int): (r: int)
    ensures -TWO_31 <= r < TWO_31
    ensures -TWO_31 <= x < TWO_31 ==> r == x
  {
    if -TWO_31 <= x < TWO_31 then x else (x + TWO_31) % TWO_32 - TWO_31
  }

  /** The value an unchecked .NET uint holds after an arithmetic result x. */
  function UInt32(x: int): (r: u32)
    ensures 0 <= x < TWO_32 ==> r == x
  {
    if 0 <= x < TWO_32 then x else x % TWO_32
  }

  /** C#'s integer division, which truncates toward zero. */
  function TruncDiv(a: int, b: int): (q: int)
    requires b != 0
    ensures a >= 0 && b > 0 ==> q == a / b
  {
    var q := (if a >= 0 then a else -a) / (if b >= 0 then b else -b);
    if (a >= 0) == (b >= 0) then q else -q
  }

  /** C#'s remainder, which takes the sign of the dividend. */
  function TruncRem(a: int, b: int): (r: int)
    requires b != 0
    ensures a >= 0 && b > 0 ==> r == a % b
  {
    a - TruncDiv(a, b) * b
  }
}
