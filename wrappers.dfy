/**
 * Small value types shared by both versions of the GWAS table: an optional
 * value, an outcome that may carry one of the C++ exceptions the table code
 * can raise, and the 64-bit `unsigned long` of the positions.
 */
module Wrappers {

  datatype Option<T> = None | Some(value: T)

  /** The exceptions that escape the table operations. */
  datatype Failure =
    | UnknownColumn(name: string)   // std::unordered_map::at throws std::out_of_range
    | BadLexicalCast(field: string) // boost::lexical_cast throws bad_lexical_cast
    | OutOfRange(field: string)     // std::stoul / std::stod throw std::out_of_range

  datatype Result<T> = Ok(value: T) | Err(failure: Failure)

  const ULONG_MAX: int := 0xFFFF_FFFF_FFFF_FFFF

  /** The values of a 64-bit `unsigned long`. */
  type ULong = x: int | 0 <= x <= ULONG_MAX

  /** C++ conversion of an integer to `unsigned long`: reduction modulo 2^64. */
  function ToULong(x: int): (r: ULong)
    ensures 0 <= x <= ULONG_MAX ==> r == x
    ensures x == -1 ==> r == ULONG_MAX
  {
    x % (ULONG_MAX + 1)
  }
}
