/** `Step`: the contract every question of the wizard implements, with the
    five variants as cases of one tagged union.

    A step is split into what is fixed when the wizard is built
    (`StepConfig`: its data key, texts and variant configuration, including
    the user's checker) and what changes while the wizard runs
    (`StepState`: the live value of its widget and its own bundle `mData`). */
module Steps {
  import opened Platform
  import opened Callbacks
  import TextSteps
  import OptionSteps
  import CheckBoxSteps
  import DateSteps
  import SeekBarSteps

  /** `Context.getString(resId)`, resolved by the platform. */
  type Resources = Int32 -> string

  /** A step's title, error and details: a literal (possibly null) and a
      string resource id each. */
  datatype Texts = Texts(
    title: Option<string>, titleResId: Int32,
    error: Option<string>, errorResId: Int32,
    details: Option<string>, detailsResId: Int32)

  /** `getTitle`, `getError` and `getDetails`: the literal when it is
      non-null and non-empty, otherwise the resolved resource. */
  function Resolve(literal: Option<string>, resId: Int32, res: Resources): (text: string)
    ensures literal.Some? && literal.value != "" ==> text == literal.value
    ensures literal.None? || literal.value == "" ==> text == res(resId)
  {
    match literal
    case Some(s) => if s != "" then s else res(resId)
    case None => res(resId)
  }

  function Title(t: Texts, res: Resources): (title: string)
    ensures t.title.Some? && t.title.value != "" ==> title == t.title.value
    ensures t.title.None? || t.title.value == "" ==> title == res(t.titleResId)
  {
    Resolve(t.title, t.titleResId, res)
  }

  function Error(t: Texts, res: Resources): (error: string)
    ensures t.error.Some? && t.error.value != "" ==> error == t.error.value
    ensures t.error.None? || t.error.value == "" ==> error == res(t.errorResId)
  {
    Resolve(t.error, t.errorResId, res)
  }

  function Details(t: Texts, res: Resources): (details: string)
    ensures t.details.Some? && t.details.value != "" ==> details == t.details.value
    ensures t.details.None? || t.details.value == "" ==> details == res(t.detailsResId)
  {
    Resolve(t.details, t.detailsResId, res)
  }

  /** The variant of a step and its fixed configuration. */
  datatype Kind =
    | CheckBoxKind(textResId: Int32, text: Option<string>, checker: CheckBoxSteps.AsyncChecker)
    | TextKind(inputType: Int32, textChecker: TextSteps.Checker)
    | OptionKind(options: seq<string>)
    | DateKind(inputType: Int32, validator: DateSteps.Validator)
    | SeekBarKind(min: Int32, max: Int32, progressChecker: SeekBarSteps.Checker)

  datatype StepConfig = StepConfig(dataKey: string, texts: Texts, kind: Kind)

  /** The live value of a step's widget. */
  datatype Native =
    | CheckBoxValue(checked: bool)
    | TextValue(text: string)
    | OptionValue(selection: OptionSteps.Selection)
    | DateValue(date: DateSteps.Date)
    | SeekBarValue(progress: Int32)

  /** The live value belongs to the widget of that variant. */
  predicate Fits(kind: Kind, native: Native) {
    match kind
    case CheckBoxKind(_, _, _) => native.CheckBoxValue?
    case TextKind(_, _) => native.TextValue?
    case OptionKind(_) => native.OptionValue?
    case DateKind(_, _) => native.DateValue?
    case SeekBarKind(_, _, _) => native.SeekBarValue?
  }

  /** The running part of a step: its widget's value and its bundle `data()`. */
  datatype StepState = StepState(native: Native, data: Bundle)

  /** The check of the current value, one entry point for all variants: the
      check box and the slider report through their callback checker, the
      text step hands its text to its checker, the option step asks for a
      non-empty text, and the date step hands the triple to its validator. */
  function Validate(kind: Kind, native: Native): (valid: bool)
    requires Fits(kind, native)
    ensures kind.CheckBoxKind? ==> (valid <==> kind.checker(native.checked) == Valid)
    ensures kind.TextKind? ==> valid == kind.textChecker(native.text)
    ensures kind.OptionKind? ==> (valid <==> native.selection.text != "")
    ensures kind.DateKind? ==>
              valid == kind.validator(native.date.year, native.date.month, native.date.day)
    ensures kind.SeekBarKind? ==> (valid <==> kind.progressChecker(native.progress) == Valid)
  {
    match kind
    case CheckBoxKind(_, _, checker) => checker(native.checked).Valid?
    case TextKind(_, checker) => TextSteps.Check(checker, Some(native.text))
    case OptionKind(_) => TextSteps.Check(OptionSteps.NonEmpty(), Some(native.selection.text))
    case DateKind(_, validator) => validator(native.date.year, native.date.month, native.date.day)
    case SeekBarKind(_, _, checker) => checker(native.progress).Valid?
  }

  /** A kind built without a checker of its own. */
  ghost predicate DefaultChecked(kind: Kind) {
    match kind
    case CheckBoxKind(_, _, checker) => checker == AlwaysValid()
    case TextKind(_, checker) => checker == TextSteps.AcceptAll()
    case OptionKind(_) => false
    case DateKind(_, validator) => validator == DateSteps.DefaultValidator()
    case SeekBarKind(_, _, checker) => checker == AlwaysValid()
  }

  /** A step built without a checker accepts whatever value it holds; the
      option step has no such constructor. */
  lemma DefaultCheckersAcceptAll(kind: Kind, native: Native)
    requires Fits(kind, native)
    requires DefaultChecked(kind)
    ensures Validate(kind, native)
  {
    match kind
    case CheckBoxKind(_, _, checker) =>
      assert checker(native.checked) == Valid;
    case TextKind(_, checker) =>
      assert checker(native.text);
    case DateKind(_, validator) =>
      assert validator(native.date.year, native.date.month, native.date.day);
    case SeekBarKind(_, _, checker) =>
      assert checker(native.progress) == Valid;
  }

  /** `onSave()`, dispatched on the variant. */
  function OnSave(kind: Kind, data: Bundle, native: Native): (r: Bundle)
    requires Fits(kind, native)
    ensures kind.CheckBoxKind? ==> r == CheckBoxSteps.OnSave(data, native.checked)
    ensures kind.TextKind? ==> r == TextSteps.OnSave(data, native.text)
    ensures kind.OptionKind? ==> r == OptionSteps.OnSave(data, native.selection)
    ensures kind.DateKind? ==> r == DateSteps.OnSave(data, native.date)
    ensures kind.SeekBarKind? ==> r == SeekBarSteps.OnSave(data, native.progress)
  {
    match kind
    case CheckBoxKind(_, _, _) => CheckBoxSteps.OnSave(data, native.checked)
    case TextKind(_, _) => TextSteps.OnSave(data, native.text)
    case OptionKind(_) => OptionSteps.OnSave(data, native.selection)
    case DateKind(_, _) => DateSteps.OnSave(data, native.date)
    case SeekBarKind(_, _, _) => SeekBarSteps.OnSave(data, native.progress)
  }

  /** `onRestore()`, dispatched on the variant: the new live value. */
  function OnRestore(kind: Kind, data: Bundle, native: Native): (r: Native)
    requires Fits(kind, native)
    ensures Fits(kind, r)
    ensures kind.CheckBoxKind? ==> r == CheckBoxValue(CheckBoxSteps.OnRestore(data))
    ensures kind.TextKind? ==> r == TextValue(TextSteps.OnRestore(data))
    ensures kind.OptionKind? ==> r == OptionValue(OptionSteps.OnRestore(kind.options, data, native.selection))
    ensures kind.DateKind? ==> r == DateValue(DateSteps.OnRestore(data))
    ensures kind.SeekBarKind? ==> r == SeekBarValue(SeekBarSteps.OnRestore(data))
  {
    match kind
    case CheckBoxKind(_, _, _) => CheckBoxValue(CheckBoxSteps.OnRestore(data))
    case TextKind(_, _) => TextValue(TextSteps.OnRestore(data))
    case OptionKind(options) => OptionValue(OptionSteps.OnRestore(options, data, native.selection))
    case DateKind(_, _) => DateValue(DateSteps.OnRestore(data))
    case SeekBarKind(_, _, _) => SeekBarValue(SeekBarSteps.OnRestore(data))
  }

  datatype Saved = Saved(state: StepState, setupData: Option<Bundle>)

  /** `save(setupData)`: `onSave` runs into the step's own bundle, which is
      then put under the step's key; a null bag stays null. Only the step's
      key of the bag changes. */
  function Save(c: StepConfig, s: StepState, setupData: Option<Bundle>): (r: Saved)
    requires Fits(c.kind, s.native)
    ensures r.state.native == s.native
    ensures r.state.data == OnSave(c.kind, s.data, s.native)
    ensures r.setupData.Some? <==> setupData.Some?
    ensures r.setupData.Some? ==>
              && c.dataKey in r.setupData.value
              && r.setupData.value[c.dataKey] == BundleV(r.state.data)
              && AgreeExcept(setupData.value, r.setupData.value, {c.dataKey})
  {
    var data := OnSave(c.kind, s.data, s.native);
    var bag := match setupData
      case Some(b) => Some(b[c.dataKey := BundleV(data)])
      case None => None;
    Saved(StepState(s.native, data), bag)
  }

  /** `restore(setupData)`: the step's bundle is replaced by the bag's entry
      for its key when there is one and kept otherwise; `onRestore` runs in
      both cases. */
  function Restore(c: StepConfig, s: StepState, setupData: Option<Bundle>): (r: StepState)
    requires Fits(c.kind, s.native)
    ensures Fits(c.kind, r.native)
    ensures HasNested(setupData, c.dataKey) ==> r.data == Nested(setupData, c.dataKey)
    ensures !HasNested(setupData, c.dataKey) ==> r.data == s.data
    ensures r.native == OnRestore(c.kind, r.data, s.native)
  {
    var data := match setupData
      case Some(b) => (match GetBundle(b, c.dataKey) case Some(d) => d case None => s.data)
      case None => s.data;
    StepState(OnRestore(c.kind, data, s.native), data)
  }

  /** The part of a live value that a step persists. */
  datatype Answer =
    | BoolAnswer(b: bool)
    | TextAnswer(s: string)
    | IndexAnswer(index: Int32)
    | DateAnswer(year: Int32, month: Int32, day: Int32)
    | ProgressAnswer(progress: Int32)

  function AnswerOf(native: Native): Answer {
    match native
    case CheckBoxValue(b) => BoolAnswer(b)
    case TextValue(s) => TextAnswer(s)
    case OptionValue(sel) => IndexAnswer(sel.selected)
    case DateValue(d) => DateAnswer(d.year, d.month, d.day)
    case SeekBarValue(p) => ProgressAnswer(p)
  }

  /** Round trip: whatever step `t` of the same configuration restores from
      the bag `s` was saved into ends with the answer `s` had. The one
      exception is an option step saved with nothing selected, whose stored
      -1 is ignored on restore. The option's text and the date's field are
      refreshed from the restored answer. */
  lemma SaveRestoreRoundTrip(c: StepConfig, s: StepState, t: StepState, setupData: Option<Bundle>)
    requires Fits(c.kind, s.native) && Fits(c.kind, t.native)
    requires setupData.Some?
    ensures var saved := Save(c, s, setupData);
            var r := Restore(c, t, saved.setupData);
            && r.data == saved.state.data
            && AnswerOf(r.native) ==
                 (if s.native.OptionValue? && s.native.selection.selected < 0
                  then AnswerOf(t.native) else AnswerOf(s.native))
            && (c.kind.OptionKind? && 0 <= s.native.selection.selected < |c.kind.options| ==>
                  r.native.selection.text == c.kind.options[s.native.selection.selected])
            && (c.kind.DateKind? ==>
                  r.native.date.text == DateSteps.LabelFor(s.native.date.year, s.native.date.month, s.native.date.day))
  {
    var saved := Save(c, s, setupData);
    assert HasNested(saved.setupData, c.dataKey);
    if c.kind.DateKind? {
      DateSteps.RestoreAfterSave(s.data, s.native.date);
    }
  }

  /** Restoring a step on its first visit (its bundle still empty, nothing
      stored under its key) resets the text, check box, slider and date to
      their unset values and leaves an option step's selection alone. */
  lemma RestoreFirstVisit(c: StepConfig, s: StepState, setupData: Option<Bundle>)
    requires Fits(c.kind, s.native)
    requires s.data == map[]
    requires !HasNested(setupData, c.dataKey)
    ensures var r := Restore(c, s, setupData);
            && r.data == map[]
            && (c.kind.CheckBoxKind? ==> r.native == CheckBoxValue(false))
            && (c.kind.TextKind? ==> r.native == TextValue(""))
            && (c.kind.OptionKind? ==> r.native == s.native)
            && (c.kind.DateKind? ==>
                  r.native == DateValue(DateSteps.Date(DateSteps.Unset, DateSteps.Unset, DateSteps.Unset, DateSteps.Blank)))
            && (c.kind.SeekBarKind? ==> r.native == SeekBarValue(0))
  {
    if c.kind.DateKind? {
      DateSteps.RestoreFromEmpty();
    }
  }

  /** The static accessors read back what `save` put into a non-null bag:
      the variant's answer, never its sentinel. */
  lemma AccessorsReadSaved(c: StepConfig, s: StepState, bag: Bundle)
    requires Fits(c.kind, s.native)
    ensures var out := Save(c, s, Some(bag)).setupData;
            && (c.kind.CheckBoxKind? ==> CheckBoxSteps.Checked(out, c.dataKey) == s.native.checked)
            && (c.kind.TextKind? ==> TextSteps.Text(out, c.dataKey) == Some(s.native.text))
            && (c.kind.OptionKind? ==> OptionSteps.SelectedOption(out, c.dataKey) == s.native.selection.selected)
            && (c.kind.DateKind? ==>
                  && DateSteps.Year(out, c.dataKey) == s.native.date.year
                  && DateSteps.Month(out, c.dataKey) == s.native.date.month
                  && DateSteps.Day(out, c.dataKey) == s.native.date.day)
            && (c.kind.SeekBarKind? ==> SeekBarSteps.Progress(out, c.dataKey) == s.native.progress)
  {
    var out := Save(c, s, Some(bag)).setupData;
    assert HasNested(out, c.dataKey);
  }

  /** `restore` reads nothing from the bag but the entry under the step's
      own key. */
  lemma RestoreReadsOwnKey(c: StepConfig, s: StepState, a: Bundle, b: Bundle)
    requires Fits(c.kind, s.native)
    requires c.dataKey in a <==> c.dataKey in b
    requires c.dataKey in a ==> a[c.dataKey] == b[c.dataKey]
    ensures Restore(c, s, Some(a)) == Restore(c, s, Some(b))
  {
  }

  /** What `updateView(lastStep)` configures on the step's widget. */
  datatype Presentation =
    | CheckBoxLabel(caption: Option<string>)
    | TextInput(view: TextSteps.TextView)
    | SliderRange(low: Int32, high: Int32)

  /** `updateView(lastStep)`, dispatched on the variant: the check box gets
      its label, the text-based steps their IME action and keyboard, the
      slider its configured range. */
  function UpdateView(kind: Kind, lastStep: bool, res: Resources): (p: Presentation)
    ensures kind.CheckBoxKind? ==> p == CheckBoxLabel(CheckBoxSteps.Label(kind.textResId, kind.text, res))
    ensures kind.TextKind? || kind.DateKind? ==> p == TextInput(TextSteps.UpdateView(kind.inputType, lastStep))
    ensures kind.OptionKind? ==> p == TextInput(TextSteps.UpdateView(TextSteps.TypeNull, lastStep))
    ensures kind.SeekBarKind? ==> p == SliderRange(kind.min, kind.max)
  {
    match kind
    case CheckBoxKind(textResId, text, _) => CheckBoxLabel(CheckBoxSteps.Label(textResId, text, res))
    case TextKind(inputType, _) => TextInput(TextSteps.UpdateView(inputType, lastStep))
    case OptionKind(_) => TextInput(TextSteps.UpdateView(TextSteps.TypeNull, lastStep))
    case DateKind(inputType, _) => TextInput(TextSteps.UpdateView(inputType, lastStep))
    case SeekBarKind(min, max, _) => SliderRange(min, max)
  }

  /** `getView()`: the view is created on the first call only and cached;
      returns the view and the new cache. */
  function GetView<V>(cached: Option<V>, created: V): (r: (V, Option<V>))
    ensures r.1 == Some(r.0)
    ensures cached.Some? ==> r.0 == cached.value
    ensures cached.None? ==> r.0 == created
  {
    match cached
    case Some(v) => (v, cached)
    case None => (created, Some(created))
  }

  /** Once a view exists, later calls return that same view whatever the
      factory would have produced. */
  lemma GetViewMemoised<V>(cached: Option<V>, first: V, second: V)
    ensures GetView(GetView(cached, first).1, second).0 == GetView(cached, first).0
  {
  }
}
