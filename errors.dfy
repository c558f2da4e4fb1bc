/** The exceptions the pipeline raises or catches. ValidationError is the base
    class of IngestError; the others come from pandas (read_csv raises
    EmptyDataError or some other parser error, a missing label raises KeyError,
    comparing text with a number raises TypeError). */
module Errors {

  datatype Exception =
    | ValidationError(message: string)
    | IngestError(message: string)
    | EmptyDataError
    | KeyError(key: string)
    | ParserError
    | TypeError

  /** isinstance(exc, ValidationError) */
  predicate IsValidationError(e: Exception) {
    e.ValidationError? || e.IngestError?
  }

  /** The outcome of one fail-fast check: fall through, or raise. */
  datatype Check = Pass | Raise(exc: Exception)
}
