/**
 * The errors the header store returns. In the source every one of them is an
 * `io::Error`; the comment on each constructor gives its `io::ErrorKind`.
 */
module Errors {

  datatype Error =
    | TruncatedRecord     // UnexpectedEof: a record's payload is shorter than its length prefix
    | UndecodablePayload  // InvalidData: a payload that does not deserialize as a header
    | DoesNotConnect      // InvalidData: "header does not connect"
    | InvalidProofOfWork  // InvalidData: the header's hash is above its own target
}
