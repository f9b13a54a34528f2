/**
 * The crate's error type, with every variant the codec files construct, and
 * the two kinds of error a serde visitor reports through `E::custom`.
 */
module Errors {
  import opened Wrappers
  import Base16
  import RustNum

  datatype Error =
    | InvalidArrayLength(expected: nat, got: nat)
    | DecodeHex(cause: Base16.FromHexError)
      /** `Some(input)` where the variant carries the input, `None` where it is a unit variant. */
    | InvalidHexPrefix(offending: Option<string>)
    | UnexpectedLength(expected: nat, got: nat)
    | UnexpectedLeadingZeroes(input: string)
    | UnknownTransactionType(input: string)
    | ArrayFromSlice
      /** `E::custom` with a fixed message. */
    | Custom(message: string)
      /** `E::custom` with the text of a `ParseIntError`. */
    | ParseInt(kind: RustNum.IntErrorKind)

  type Outcome<T> = Result<T, Error>
}
