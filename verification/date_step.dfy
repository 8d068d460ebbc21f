/** `DateStep`: a date question. The field is not typable; a date picker
    sets year, month and day, and the field shows the formatted date once
    all three are set. The three ints are persisted separately. */
module DateSteps {
  import opened Platform

  const DataYear: string := "data_year"
  const DataMonth: string := "data_month"
  const DataDay: string := "data_day"

  /** The default `onRestore` reads for a missing field. */
  const Unset: Int32 := -1

  /** The text in the field: empty, or the locale-formatted date of the
      triple (the formatting itself is a platform call and stays opaque). */
  datatype DateLabel = Blank | Formatted(year: Int32, month: Int32, day: Int32)

  datatype Date = Date(year: Int32, month: Int32, day: Int32, text: DateLabel)

  /** A step fresh from its builder: the builder's triple (0 for a field the
      builder never set) and an empty field. */
  function Fresh(year: Int32, month: Int32, day: Int32): Date {
    Date(year, month, day, Blank)
  }

  /** `DateStep.Validator.validate(year, month, day)` */
  type Validator = (Int32, Int32, Int32) -> bool

  /** The validator the builder starts with: every triple is accepted. */
  function DefaultValidator(): (v: Validator)
    ensures forall y, m, d :: v(y, m, d)
  {
    (y, m, d) => true
  }

  /** The final string overload of the validator: always true, so the text
      in the field never decides validity. */
  function ValidateText(input: string): (valid: bool)
    ensures valid
  {
    true
  }

  /** `updateText()`: the formatted date only when year, month and day are
      all non-negative, otherwise "". */
  function LabelFor(year: Int32, month: Int32, day: Int32): (shown: DateLabel)
    ensures shown.Formatted? <==> year >= 0 && month >= 0 && day >= 0
    ensures shown.Formatted? ==> shown == Formatted(year, month, day)
  {
    if year >= 0 && month >= 0 && day >= 0 then Formatted(year, month, day) else Blank
  }

  /** The picker's `onDateSet`: all three fields are overwritten, then the
      text is refreshed. */
  function DateSet(date: Date, year: Int32, month: Int32, day: Int32): (r: Date)
    ensures r.year == year && r.month == month && r.day == day
    ensures r.text == LabelFor(year, month, day)
  {
    Date(year, month, day, LabelFor(year, month, day))
  }

  /** The static accessors `year`, `month` and `day(data, dataKey)`:
      `Integer.MIN_VALUE` when anything on the way to the field is missing. */
  function Year(data: Option<Bundle>, dataKey: string): (r: Int32)
    ensures !HasNested(data, dataKey) ==> r == IntMin
    ensures HasNested(data, dataKey) ==> r == GetInt(Nested(data, dataKey), DataYear, IntMin)
  {
    NestedInt(data, dataKey, DataYear, IntMin)
  }

  function Month(data: Option<Bundle>, dataKey: string): (r: Int32)
    ensures !HasNested(data, dataKey) ==> r == IntMin
    ensures HasNested(data, dataKey) ==> r == GetInt(Nested(data, dataKey), DataMonth, IntMin)
  {
    NestedInt(data, dataKey, DataMonth, IntMin)
  }

  function Day(data: Option<Bundle>, dataKey: string): (r: Int32)
    ensures !HasNested(data, dataKey) ==> r == IntMin
    ensures HasNested(data, dataKey) ==> r == GetInt(Nested(data, dataKey), DataDay, IntMin)
  {
    NestedInt(data, dataKey, DataDay, IntMin)
  }

  /** `onSave()`: writes all three ints. */
  function OnSave(data: Bundle, date: Date): (r: Bundle)
    ensures DataYear in r && DataMonth in r && DataDay in r
    ensures r[DataYear] == IntV(date.year) && r[DataMonth] == IntV(date.month) && r[DataDay] == IntV(date.day)
    ensures AgreeExcept(data, r, {DataYear, DataMonth, DataDay})
  {
    data[DataYear := IntV(date.year)][DataMonth := IntV(date.month)][DataDay := IntV(date.day)]
  }

  /** `onRestore()`: reads each field back, -1 when missing, and refreshes
      the text. */
  function OnRestore(data: Bundle): (r: Date)
    ensures r.year == GetInt(data, DataYear, Unset)
    ensures r.month == GetInt(data, DataMonth, Unset)
    ensures r.day == GetInt(data, DataDay, Unset)
    ensures r.text == LabelFor(r.year, r.month, r.day)
  {
    var year := GetInt(data, DataYear, Unset);
    var month := GetInt(data, DataMonth, Unset);
    var day := GetInt(data, DataDay, Unset);
    Date(year, month, day, LabelFor(year, month, day))
  }

  /** Restoring what `onSave` wrote gives back the same triple, and the field
      shows it exactly when all three parts are set. */
  lemma RestoreAfterSave(data: Bundle, date: Date)
    ensures OnRestore(OnSave(data, date)) == DateSet(date, date.year, date.month, date.day)
  {
  }

  /** Restoring from a bundle the step never wrote leaves every field unset
      and the field empty. */
  lemma RestoreFromEmpty()
    ensures OnRestore(map[]) == Date(Unset, Unset, Unset, Blank)
  {
  }
}
