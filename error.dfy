/** The error kinds the header decoder reports: the variants src/header.rs
    constructs. Message text is not modelled;
    each variant carries the data its message prints. */
module Errors {
  import opened Lib

  /** Why a page-size field was rejected. */
  datatype PageSizeProblem =
    | WrongSliceLength(found: seq<u8>)  // the field was not a 2-byte slice
    | BelowMinimum(raw: u16)            // raw 0 or 2..511
    | NotPowerOfTwo(raw: u16)           // raw 512 or more, not a power of two

  /** The three fixed payload-fraction bytes. */
  datatype FractionField = MaximumPayload | MinimumPayload | Leaf

  datatype Error =
    | HeaderString(found: seq<u8>)
    | InvalidPageSize(problem: PageSizeProblem)
    | InvalidFraction(field: FractionField, expected: u8, actual: u8)
    | UnexpectedZero
    | UnexpectedNonZero(index: nat)
}
