/**
 The error values the loader can return, and the failure-compatible wrappers
 used to thread them through the conversion and merge functions.

 Go reports failures as `error` values; each constructor of `Error` is one
 way the library (or a standard-library function it calls) builds one.
 `Message` renders an error the way Go's `Error()` method does, so that the
 messages asserted by the repository's tests can be stated exactly.
 */
module Errors {

  /** Which of strconv's two failure causes a `NumError` carries. */
  datatype NumCause = InvalidSyntax | OutOfRange

  datatype Error =
    /** `Load` was not handed a pointer to a struct. */
    | ShapeError
    /** Opening or scanning the configuration file failed (other than "does not exist"). */
    | FileError(reason: string)
    /** strconv's `*NumError`: the function name, the input and the cause. */
    | NumError(fn: string, num: string, numCause: NumCause)
    /** An error produced by a parser this model leaves uninterpreted (float, duration, time). */
    | ExternalError(reason: string)
    /** No conversion rule exists for the field's type. */
    | UnsupportedType
    /** A map piece without a `:`; carries the untrimmed piece. */
    | InvalidMapValue(piece: string)
    /** A scalar conversion error wrapped by `fmt.Errorf("parse field: %w", err)`. */
    | ParseField(cause: Error)
    /** A field tagged `required:"true"` ended unset; carries the field name. */
    | RequiredNotSet(field: string)
    /** A dependency listed in a `depends` tag ended unset; carries the dependency's name. */
    | DependsNotSet(dependency: string)

  /** Go's `strconv.Quote` for inputs without characters that need escaping. */
  function Quote(s: string): string {
    "\"" + s + "\""
  }

  /** The text `err.Error()` returns in Go. */
  function Message(e: Error): string {
    match e
    case ShapeError => "config must be a pointer to a struct"
    case FileError(reason) => reason
    case NumError(fn, num, numCause) =>
      "strconv." + fn + ": parsing " + Quote(num) + ": "
      + (if numCause == InvalidSyntax then "invalid syntax" else "value out of range")
    case ExternalError(reason) => reason
    case UnsupportedType => "unsupported type"
    case InvalidMapValue(piece) => "invalid map default value: " + piece
    case ParseField(cause) => "parse field: " + Message(cause)
    case RequiredNotSet(field) => "required parameter not set: " + field
    case DependsNotSet(dependency) => "dependent parameter not set: " + dependency
  }

  datatype Option<+T> = None | Some(value: T)

  /** A value or the error that prevented computing it. */
  datatype Result<+T> = Ok(value: T) | Err(error: Error) {
    predicate IsFailure() {
      Err?
    }

    function PropagateFailure<U>(): Result<U>
      requires Err?
    {
      Err(error)
    }

    function Extract(): T
      requires Ok?
    {
      value
    }
  }

  /** Go's bare `error` return: nil (`Pass`) or an error. */
  datatype Outcome = Pass | Fail(error: Error)
}
