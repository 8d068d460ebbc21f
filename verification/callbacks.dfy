/** The outcome a `StepCheckerCallback` receives. The callback-style checkers
    of the check-box and seek-bar steps are modelled as functions returning
    this outcome synchronously. */
module Callbacks {
  import opened Platform

  /** `onInputValid()`, or `onInputInvalid()` / `onInputInvalid(error)`. */
  datatype CheckResult = Valid | Invalid(message: Option<string>)

  /** The checker a step installs when it is built without one: every value
      is reported valid. */
  function AlwaysValid<T(!new)>(): (checker: T -> CheckResult)
    ensures forall x :: checker(x) == Valid
  {
    x => Valid
  }
}
