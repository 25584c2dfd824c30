/** The crate's own error type (src/error.rs). Its `Display` text is not modelled. */
module Errors {

  datatype FileCipherError =
    | NotLongEnough(expected: nat)  // a fixed-width header got an input of the wrong length
    | Other(message: string)
}
