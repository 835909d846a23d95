/** The return codes the modelled functions hand back. */
module Errors {
  datatype Option<+T> = None | Some(value: T)

  datatype ObRet =
    | Success
    | ErrUnexpected
    | InvalidArgument
    | BufNotEnough
    | SizeOverflow
    | DeserializeError
    | DataOutOfRange
    | ErrMBiggerThanD
    | InvalidHexNumber
    | InvalidDateFormat
    | EntryExist
    | HashFull
    | InvalidData
    | ChecksumError
}
