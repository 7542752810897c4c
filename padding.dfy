/** The error type of the padding strategies (src/padding/mod.rs). The
    display strings are dropped; only the variants the PKCS#7 strategy
    produces are kept. */
module Padding {

  datatype PaddingValidationError =
    | PaddingError    // the trailing padding bytes are malformed
    | ParameterError  // empty data, block size outside 1..255, or a length that is not a multiple of it
}
