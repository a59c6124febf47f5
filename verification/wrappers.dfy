/** Failure-compatible wrappers. `Fail` stands for a thrown `Error` (the
    source's `crash`, `assertExists`, or a TypeError on `undefined`); its
    message is the one the source throws. */
module Wrappers {

  datatype Option<+T> = None | Some(value: T)

  datatype Result<+T> = Ok(value: T) | Fail(msg: string) {

    predicate IsFailure() {
      Fail?
    }

    function PropagateFailure<U>(): Result<U>
      requires Fail?
    {
      Fail(msg)
    }

    function Extract(): T
      requires Ok?
    {
      value
    }
  }
}
