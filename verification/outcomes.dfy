/** Every failed C `assert`, Hanson checked runtime error and raised exception in the
    emulator aborts the whole run. The model collapses all of them into one `Fault`. */
module Outcomes {

  /** The value of an operation that either succeeds or aborts the emulator.
      Failure-compatible, so `:-` propagates a fault. */
  datatype Result<+T> = Ok(value: T) | Fault {

    predicate IsFailure() {
      Fault?
    }

    function PropagateFailure<U>(): Result<U>
      requires Fault?
    {
      Fault
    }

    function Extract(): T
      requires Ok?
    {
      value
    }
  }
}
