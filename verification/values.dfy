/**
 * The values the editor handles: JavaScript scalars held in row objects,
 * the errors it throws (with their messages), and the Option and Result
 * wrappers used for JavaScript's `null` and for thrown errors.
 */
module Values {
  import opened Text

  datatype Option<T> = None | Some(value: T)

  /** The errors `Editor` throws; `Message` gives the text it throws them with. */
  datatype Error =
    | UnknownAction(action: string)
    | UnknownField(name: string)
    | MissingKeyComponent
    | KeyArityMismatch
    | CompoundKeyNotSubmitted
    | ExecutionFailure
    | NoSubmittedData

  function Message(e: Error): (r: string)
  {
    match e
    case UnknownAction(a) => "Unknown Editor action: " + a
    case UnknownField(n) => "Unknown field: " + n
    case MissingKeyComponent => "Primary key element is not available in the data set"
    case KeyArityMismatch => "Primary key data doesn't match submitted data"
    case CompoundKeyNotSubmitted =>
      "When inserting into a compound key table, all fields that are part of the compound key must be submitted with a specific value."
    case ExecutionFailure => "Error executing SQL for data get. Enable SQL debug using `->debug(true)`"
    // Object.keys(undefined) raises a TypeError
    case NoSubmittedData => "Cannot convert undefined or null to object"
  }

  /** The outcome of an operation that may throw. */
  datatype Result<T> = Success(value: T) | Failure(error: Error)

  /** A scalar held in a row object (numbers are integers here). */
  datatype Value = Null | Bool(b: bool) | Num(n: int) | Str(s: string)

  /** A row object, keyed by column name; a missing key reads as `undefined`. */
  type Row = map<string, Value>

  /** JavaScript truthiness: `null`, `false`, `0` and `""` are falsy. */
  predicate Truthy(v: Value)
  {
    match v
    case Null => false
    case Bool(b) => b
    case Num(n) => n != 0
    case Str(s) => s != ""
  }

  /** `String(v)`: the text a value becomes when joined into a string. */
  function ToText(v: Value): (r: string)
  {
    match v
    case Null => "null"
    case Bool(b) => if b then "true" else "false"
    case Num(n) => IntText(n)
    case Str(s) => s
  }
}
