/** Outcomes shared by every part of the model: Go's `(value, error)` pairs and optional pointers. */
module Results {

  /** An optional value: a Go pointer that may be nil, or the `ok` half of a map lookup. */
  datatype Option<+T> = None | Some(value: T)

  /** The reasons for which the modelled operations fail, one per family of error messages. */
  datatype Error =
    | InvalidSchema
    | ValueCountMismatch
    | TypeMismatch
    | ScaleMismatch
    | PayloadTooShort
    | PayloadTruncated
    | InvalidVarint
    | NotCompactable
    | UnsupportedKeyType
    | UnhashableKey // a run-time panic in the source
    | SliceOutOfRange // likewise
    | NoKeyColumns
    | KeyColumnOutOfRange
    | NoFields
    | UnsupportedMagic
    | InvalidCrc
    | UnsupportedAttributes
    | IncorrectSize
    | ExpectedToken
    | ExpectedInteger
    | IntegerOutOfRange
    | WrongArgumentCount
    | UnsupportedType
    | TrailingInput
    | MissingType
    | SchemaNotAvailable
    | LoadFailed // whatever a plan loader reports
    | IterationFailed

  /** Go's `(value, error)`; failure-compatible, so `:-` propagates the error. */
  datatype Result<+T> = Ok(value: T) | Err(error: Error) {
    predicate IsFailure() {
      Err?
    }

    function PropagateFailure<U>(): (r: Result<U>)
      requires Err?
    {
      Err(error)
    }

    function Extract(): T
      requires Ok?
    {
      value
    }

    function GetOr(default: T): T {
      if Ok? then value else default
    }
  }
}
