/** `TextStep`: a free-text question backed by an `EditText`. Its native
    value is the text shown in the field; it persists that text under
    `data_text` in its own bundle. */
module TextSteps {
  import opened Platform

  const DataText: string := "data_text"

  /** `InputType.TYPE_NULL`: a field the keyboard cannot type into. */
  const TypeNull: Int32 := 0

  /** `TextStep.StepChecker` */
  type Checker = string -> bool

  /** The checker installed by the constructors that take none. */
  function AcceptAll(): (checker: Checker)
    ensures forall input :: checker(input)
  {
    input => true
  }

  /** `check()`: the field's text goes to the checker, a null text as "". */
  function Check(checker: Checker, viewText: Option<string>): (valid: bool)
    ensures viewText.None? ==> valid == checker("")
    ensures viewText.Some? ==> valid == checker(viewText.value)
  {
    match viewText
    case Some(text) => checker(text)
    case None => checker("")
  }

  /** The static accessor `text(data, dataKey)`: the stored text, or null
      when the data, its nested bundle or the text entry is missing. */
  function Text(data: Option<Bundle>, dataKey: string): (r: Option<string>)
    ensures !HasNested(data, dataKey) ==> r == None
    ensures HasNested(data, dataKey) ==>
              (r.Some? <==> DataText in Nested(data, dataKey) && Nested(data, dataKey)[DataText].StringV?)
    ensures r.Some? ==> r.value == Nested(data, dataKey)[DataText].s
  {
    if data.Some? && dataKey in data.value then
      match GetBundle(data.value, dataKey)
      case Some(nested) => GetString(nested, DataText)
      case None => None
    else
      None
  }

  /** `onSave()`: records the current text in the step's bundle. */
  function OnSave(data: Bundle, text: string): (r: Bundle)
    ensures DataText in r && r[DataText] == StringV(text)
    ensures AgreeExcept(data, r, {DataText})
    ensures OnRestore(r) == text
  {
    data[DataText := StringV(text)]
  }

  /** `onRestore()`: the text the field shows afterwards, namely the stored
      text, or "" when it is missing or empty. */
  function OnRestore(data: Bundle): (text: string)
    ensures DataText in data && data[DataText].StringV? ==> text == data[DataText].s
    ensures !(DataText in data && data[DataText].StringV?) ==> text == ""
  {
    match GetString(data, DataText)
    case Some(stored) => if stored != "" then stored else ""
    case None => ""
  }

  datatype ImeAction = ActionNext | ActionDone

  /** The IME options of the field: an action plus `IME_FLAG_NO_EXTRACT_UI`. */
  datatype ImeOptions = ImeOptions(action: ImeAction, noExtractUi: bool)

  /** What `updateView(lastStep)` configures on the field. */
  datatype TextView = TextView(ime: ImeOptions, inputType: Int32, keyboardShown: bool)

  /** `updateView(lastStep)`: DONE on the last step, NEXT otherwise; the soft
      keyboard is hidden for `TYPE_NULL` fields and shown for all others. */
  function UpdateView(inputType: Int32, lastStep: bool): (v: TextView)
    ensures v.ime.action == ActionDone <==> lastStep
    ensures v.ime.noExtractUi
    ensures v.inputType == inputType
    ensures v.keyboardShown <==> inputType != TypeNull
  {
    var action := if lastStep then ActionDone else ActionNext;
    TextView(ImeOptions(action, true), inputType, inputType != TypeNull)
  }
}
