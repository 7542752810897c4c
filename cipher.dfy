/** The error type shared by the ciphers (src/cipher/mod.rs). */
module Cipher {
  import opened Prelude
  import Padding

  datatype CipherOperationError =
    | InvalidKeySize(size: nat)
    | PaddingValidationError(cause: Padding.PaddingValidationError)
    | InvalidEncryptedMessageLength

  /** `.map_err(CipherOperationError::PaddingValidationError)`: a padding error
      comes back wrapped, a value unchanged. */
  function WrapPaddingError(r: Result<seq<u8>, Padding.PaddingValidationError>): (w: Result<seq<u8>, CipherOperationError>)
    ensures r.Ok? ==> w == Ok(r.value)
    ensures r.Err? ==> w == Err(PaddingValidationError(r.error))
  {
    match r
    case Ok(v) => Ok(v)
    case Err(e) => Err(PaddingValidationError(e))
  }
}
