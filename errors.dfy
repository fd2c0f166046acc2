/** The error taxonomy shared by the encoder and the decoder (src/errors.rs). */
module Errors {

  /** The categories of nom::error::ErrorKind that the decoder can produce. */
  datatype ErrorKind =
    | Eof    // a fixed-width read or `take` ran past the end, or `eof` found bytes left over
    | OneOf  // the type-id byte is not one of the admitted ids (or there is no byte at all)
    | Fail   // invalid modified UTF-8, or a repeated name inside one compound

  /** How many more bytes a streaming parser would have needed. */
  datatype Needed = Unknown | Size(bytes: nat)

  datatype Error =
    | MissingName
    | ByteArrayTooBig
    | StringTooBig
    | ListTooBig
    | IntArrayTooBig
    | LongArrayTooBig
    | ParseError(kind: ErrorKind)
    | Incomplete(needed: Needed)
}
