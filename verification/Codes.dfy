/** The enumerations shared by all parts of JES. */
module Codes {
  /** enum jes_status, the codes that the modelled functions report */
  datatype Status =
    | NoError | UnexpectedSymbol | InvalidUnicode | InvalidNumber | InvalidEscapedSymbol
    | UnexpectedEof | OutOfMemory | UnexpectedToken | UnexpectedState | UnexpectedElement
    | BufferTooSmall | InvalidParameter | ElementNotFound | BrokenTree | DuplicateKey
    | InvalidOperation | PathTooLong | RenderFailed | MaxDepthExceeded

  /** enum jes_state */
  datatype State =
    | Start | ExpectKey | ExpectColon | ExpectValue | HaveValue
    | ExpectArrayValue | HaveArrayValue | ExpectEof | End

  /** enum jes_search_mode */
  datatype Mode = Linear | Hashed

  /** The end-of-text character. */
  const NUL: char := '\0'
}
