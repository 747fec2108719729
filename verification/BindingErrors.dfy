/** Errors of the binding layer (crates/gamlastan/src/bindings/error.rs). */
module BindingErrors {
  import opened ByteStrings

  datatype DecodeFault = IncompleteEscape | BadHexDigit | NotUtf8

  datatype BindingError =
    | UrlDecodeError(fault: DecodeFault)
    | Base64DecodeError
    | DeflateError
    | MessageTooLarge
    | MissingSamlParam(name: Bytes)
    | DuplicateSamlParam(name: Bytes)
    | InvalidSamlParams
    | SignatureVerificationFailed
    | CryptoError
}
