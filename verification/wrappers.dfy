/** Failure-compatible wrappers used across the model.
    `Result` stands for the program's `anyhow::Result`: the error carries a
    human-readable message, which the model treats as opaque text. */
module Wrappers {

  datatype Option<+T> = None | Some(value: T) {

    predicate IsFailure() {
      None?
    }

    function PropagateFailure<U>(): Option<U>
      requires None?
    {
      None
    }

    function Extract(): T
      requires Some?
    {
      value
    }
  }

  datatype Result<+T> = Ok(value: T) | Err(msg: string) {

    predicate IsFailure() {
      Err?
    }

    function PropagateFailure<U>(): Result<U>
      requires Err?
    {
      Err(msg)
    }

    function Extract(): T
      requires Ok?
    {
      value
    }
  }

  /** `opt.ok_or(msg)` */
  function OkOr<T>(o: Option<T>, msg: string): (r: Result<T>)
    ensures r.Ok? <==> o.Some?
    ensures r.Ok? ==> r.value == o.value
  {
    match o
    case Some(v) => Ok(v)
    case None => Err(msg)
  }

  /** `Result<(), Vec<anyhow::Error>>`: the program's stages return nothing
      or every error they collected. */
  datatype Outcome = Done | Failures(errors: seq<string>)
}
