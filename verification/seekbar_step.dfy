/** `SeekBarStep`: a bounded integer picked on a discrete slider. Its native
    value is the slider's progress; it persists it under `data_progress`. */
module SeekBarSteps {
  import opened Platform
  import opened Callbacks

  const DataProgress: string := "data_progress"

  /** `SeekBarStep.StepChecker`: reports through the callback. */
  type Checker = Int32 -> CheckResult

  /** The static accessor `progress(data, dataKey)`: -1 when anything on the
      way to the stored progress is missing. */
  function Progress(data: Option<Bundle>, dataKey: string): (r: Int32)
    ensures !HasNested(data, dataKey) ==> r == -1
    ensures HasNested(data, dataKey) ==> r == GetInt(Nested(data, dataKey), DataProgress, -1)
  {
    NestedInt(data, dataKey, DataProgress, -1)
  }

  /** `onSave()`: records the current progress. */
  function OnSave(data: Bundle, progress: Int32): (r: Bundle)
    ensures DataProgress in r && r[DataProgress] == IntV(progress)
    ensures AgreeExcept(data, r, {DataProgress})
    ensures OnRestore(r) == progress
  {
    data[DataProgress := IntV(progress)]
  }

  /** `onRestore()`: the stored progress, 0 (not -1) when there is none. */
  function OnRestore(data: Bundle): (progress: Int32)
    ensures DataProgress in data && data[DataProgress].IntV? ==> progress == data[DataProgress].i
    ensures !(DataProgress in data && data[DataProgress].IntV?) ==> progress == 0
  {
    GetInt(data, DataProgress, 0)
  }
}
