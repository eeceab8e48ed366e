/** Results of SnapDesk operations; an exception of the program is an Err. */
module SnapResult {

  datatype Error =
    | NullNumber | CutOutOfRange | PastTheEnd | BufferTooSmall | NotANumber | NumberTooBig
    | TooFewArgs | TooManyArgs | BadSyntax | ElementOutsideBuffer | NoBody | EmptyBody | NoData | NotDecoded
    | BadRow | KeyExists | NoSuchLine | NoSuchColumn | NoSuchRow

  datatype Result<+T> = Ok(value: T) | Err(error: Error) {

    predicate IsFailure() {
      Err?
    }

    function PropagateFailure<U>(): (r: Result<U>)
      requires Err?
    {
      Err(error)
    }

    function Extract(): T
      requires Ok?
    {
      value
    }
  }

  /** A list result with elements put in front. */
  function Prepend<T>(front: seq<T>, rest: Result<seq<T>>): Result<seq<T>> {
    if rest.Ok? then Ok(front + rest.value) else rest
  }
}
