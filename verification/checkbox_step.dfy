/** `CheckBoxStep`: a yes/no question backed by a check box. Its native value
    is the checked state; it persists it under `data_checked`. */
module CheckBoxSteps {
  import opened Platform
  import opened Callbacks

  const DataChecked: string := "data_checked"

  /** `StepCheckerAsync`: reports through the callback. */
  type AsyncChecker = bool -> CheckResult

  /** `StepChecker`: a plain predicate. */
  type Checker = bool -> bool

  /** The adapter the `StepChecker` constructors wrap around a plain checker. */
  function FromSync(checker: Checker): (r: AsyncChecker)
    ensures forall checked :: r(checked) == Valid <==> checker(checked)
    ensures forall checked :: !checker(checked) ==> r(checked) == Invalid(None)
  {
    checked => if checker(checked) then Valid else Invalid(None)
  }

  /** The static accessor `checked(data, dataKey)`: false when anything on
      the way to the stored flag is missing. */
  function Checked(data: Option<Bundle>, dataKey: string): (r: bool)
    ensures !HasNested(data, dataKey) ==> !r
    ensures HasNested(data, dataKey) ==>
              (r <==> DataChecked in Nested(data, dataKey) && Nested(data, dataKey)[DataChecked] == BoolV(true))
  {
    if data.Some? && dataKey in data.value then
      match GetBundle(data.value, dataKey)
      case Some(nested) => GetBoolean(nested, DataChecked, false)
      case None => false
    else
      false
  }

  /** `onSave()`: records `isChecked()`. */
  function OnSave(data: Bundle, checked: bool): (r: Bundle)
    ensures DataChecked in r && r[DataChecked] == BoolV(checked)
    ensures AgreeExcept(data, r, {DataChecked})
    ensures OnRestore(r) == checked
  {
    data[DataChecked := BoolV(checked)]
  }

  /** `onRestore()`: the stored flag, false when there is none. */
  function OnRestore(data: Bundle): (checked: bool)
    ensures checked <==> DataChecked in data && data[DataChecked] == BoolV(true)
  {
    GetBoolean(data, DataChecked, false)
  }

  /** The label `updateView` puts on the box: the resource string when a
      resource id was given (non-zero), otherwise the literal text. */
  function Label(textResId: Int32, text: Option<string>, getString: Int32 -> string): (caption: Option<string>)
    ensures textResId != 0 ==> caption == Some(getString(textResId))
    ensures textResId == 0 ==> caption == text
  {
    if textResId != 0 then Some(getString(textResId)) else text
  }
}
