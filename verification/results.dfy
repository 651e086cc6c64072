/** Failure-compatible wrappers used across the model.

    The scripts signal failure by raising Python exceptions; the model returns
    a `Result` whose error names the exception class that would have been
    raised, so that each operation's error paths are part of its contract.
 */
module Results {

  /** The Python exception classes the modelled code can raise. */
  datatype Error =
    | ValueError          // int() of a non-numeric string, tuple unpacking
    | IndexError          // list index out of range
    | KeyError            // missing dictionary key
    | TypeError           // subscripting None
    | ZeroDivisionError   // integer division by zero
    | NotImplementedError // explicitly unimplemented site dialect
    | UnboundLocalError   // a local read on a path that never assigned it
    | RequestError        // requests.exceptions.RequestException

  datatype Option<+T> = None | Some(value: T) {
    predicate IsFailure() { None? }

    function PropagateFailure<U>(): Option<U>
      requires None?
    {
      None
    }

    function Extract(): T
      requires Some?
    {
      value
    }

    function GetOr(default: T): T {
      match this
      case Some(v) => v
      case None => default
    }
  }

  datatype Result<+T> = Ok(value: T) | Err(error: Error) {
    predicate IsFailure() { Err? }

    function PropagateFailure<U>(): Result<U>
      requires Err?
    {
      Err(error)
    }

    function Extract(): T
      requires Ok?
    {
      value
    }
  }

  /** The `Result` of a possibly missing value, failing with `e` when absent. */
  function FromOption<T>(o: Option<T>, e: Error): (r: Result<T>)
    ensures r.Ok? <==> o.Some?
    ensures r.Ok? ==> r.value == o.value
    ensures r.Err? ==> r.error == e
  {
    match o
    case Some(v) => Ok(v)
    case None => Err(e)
  }
}
