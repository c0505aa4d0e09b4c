/** Small value types shared by the model: an optional value, and what a
    JavaScript `throw` can carry. */
module Wrappers {

  datatype Option<+T> = None | Some(value: T)

  /** A thrown value as a `catch` block sees it: an `Error` instance with its
      `message`, or anything else. */
  datatype Thrown = ErrorValue(message: string) | OtherValue

  /** `error instanceof Error ? error.message : fallback` */
  function MessageOf(t: Thrown, fallback: string): (m: string)
    ensures t.ErrorValue? ==> m == t.message
    ensures t.OtherValue? ==> m == fallback
  {
    match t
    case ErrorValue(message) => message
    case OtherValue => fallback
  }
}
