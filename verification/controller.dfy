/** The wizard controller shared by `SingleInputFormActivity` and
    `SingleInputFragment`: a fixed list of steps, a cursor `index`, the
    `errored` debounce flag and the answer bag `setupData`.

    Every handler returns the new state together with the effects it has on
    the screen and on the embedding code (`Effect`), or the exception
    `getCurrentStep()` throws when there is no current step (`Fault`). */
module Controller {
  import opened Platform
  import Steps
  import TextSteps

  const KeyData: string := "key_data"
  const KeyStepIndex: string := "key_step_index"

  /** The Activity finishes itself once the form is done; the Fragment does
      not. */
  datatype Revision = ActivityRevision | FragmentRevision

  /** The controller's running state; `states[i]` is the live part of step `i`. */
  datatype Form = Form(states: seq<Steps.StepState>, index: Int32, errored: bool, setupData: Option<Bundle>)

  /** The steps' live values fit their configurations, and the step list
      fits a Java `List`. */
  predicate WellFormed(configs: seq<Steps.StepConfig>, f: Form) {
    && |configs| <= IntMax
    && |f.states| == |configs|
    && forall i :: 0 <= i < |configs| ==> Steps.Fits(configs[i].kind, f.states[i].native)
  }

  /** The cursor invariant: `0 <= index <= size`, `size` meaning done. */
  predicate InRange(configs: seq<Steps.StepConfig>, f: Form) {
    0 <= f.index <= |configs|
  }

  predicate HasCurrent(configs: seq<Steps.StepConfig>, f: Form) {
    0 <= f.index < |configs|
  }

  /** What `updateViews` puts on screen. */
  datatype Screen = Screen(
    finishIcon: bool,
    presentation: Steps.Presentation,
    title: string,
    details: string,
    error: string,
    page: int,
    pageCount: int,
    progressMax: Int32,
    progress: Int32)

  datatype Effect =
    | ShowError(message: string)          // the error switcher gets the step's error
    | Render(screen: Screen)              // updateViews
    | FormFinished(data: Option<Bundle>)  // onFormFinished(setupData)
    | CloseHost                           // finish()

  /** `getCurrentStep()` with the cursor outside the list throws
      `IndexOutOfBoundsException`. */
  datatype Fault = NoCurrentStep(index: Int32)

  datatype Outcome = Outcome(form: Form, effects: seq<Effect>)

  /** The progress bar's maximum, `size * 100` in Java `int` arithmetic. */
  function ProgressMax(size: nat): (r: Int32)
    ensures size <= IntMax / 100 ==> r == size * 100
  {
    Wrap32(size * 100)
  }

  /** The progress bar's target, `index * 100` in Java `int` arithmetic. */
  function ProgressOf(index: Int32): (r: Int32)
    ensures 0 <= index <= IntMax / 100 ==> r == index * 100
  {
    Wrap32(index * 100)
  }

  /** For any list short enough not to overflow, the bar runs from 0 to full
      as the cursor moves from the first step to done. */
  lemma ProgressWithinBar(size: nat, index: Int32)
    requires size <= IntMax / 100
    requires 0 <= index <= size
    ensures 0 <= ProgressOf(index) <= ProgressMax(size)
    ensures ProgressOf(index) == ProgressMax(size) <==> index == size
  {
  }

  /** `updateViews()`: the current step is restored from the bag, told
      whether it is the last one, and shown; the error line is cleared. */
  function UpdateViews(configs: seq<Steps.StepConfig>, f: Form, res: Steps.Resources): (r: Result<Outcome, Fault>)
    requires WellFormed(configs, f)
    ensures r.Err? <==> !HasCurrent(configs, f)
    ensures r.Ok? ==>
              && |r.value.form.states| == |f.states|
              && r.value.form.index == f.index
              && r.value.form.errored == f.errored
              && r.value.form.setupData == f.setupData
              && r.value.form.states[f.index] == Steps.Restore(configs[f.index], f.states[f.index], f.setupData)
              && (forall i :: 0 <= i < |f.states| && i != f.index ==> r.value.form.states[i] == f.states[i])
    ensures r.Ok? ==>
              && |r.value.effects| == 1 && r.value.effects[0].Render?
              && var screen := r.value.effects[0].screen;
                 && (screen.finishIcon <==> f.index + 1 >= |configs|)
                 && screen.presentation == Steps.UpdateView(configs[f.index].kind, screen.finishIcon, res)
                 && screen.title == Steps.Title(configs[f.index].texts, res)
                 && screen.details == Steps.Details(configs[f.index].texts, res)
                 && screen.error == ""
                 && screen.page == f.index + 1 && screen.pageCount == |configs|
                 && screen.progressMax == ProgressMax(|configs|)
                 && screen.progress == ProgressOf(f.index)
    ensures r.Ok? ==> WellFormed(configs, r.value.form)
  {
    if !HasCurrent(configs, f) then
      Err(NoCurrentStep(f.index))
    else
      var c := configs[f.index];
      var step := Steps.Restore(c, f.states[f.index], f.setupData);
      var last := f.index + 1 >= |configs|;
      var screen := Screen(
        last, Steps.UpdateView(c.kind, last, res),
        Steps.Title(c.texts, res), Steps.Details(c.texts, res), "",
        f.index + 1, |configs|, ProgressMax(|configs|), ProgressOf(f.index));
      Ok(Outcome(f.(states := f.states[f.index := step]), [Render(screen)]))
  }

  /** `updateStep()`: a cursor at or past the end hands the bag to
      `onFormFinished` (and the Activity closes); otherwise the current step
      is shown. */
  function UpdateStep(rev: Revision, configs: seq<Steps.StepConfig>, f: Form, res: Steps.Resources): (r: Result<Outcome, Fault>)
    requires WellFormed(configs, f)
    ensures f.index >= |configs| ==>
              r == Ok(Outcome(f, [FormFinished(f.setupData)] + (if rev == ActivityRevision then [CloseHost] else [])))
    ensures f.index < |configs| ==> r == UpdateViews(configs, f, res)
    ensures r.Ok? ==> WellFormed(configs, r.value.form)
  {
    if f.index >= |configs| then
      Ok(Outcome(f, [FormFinished(f.setupData)] + (if rev == ActivityRevision then [CloseHost] else [])))
    else
      UpdateViews(configs, f, res)
  }

  /** `nextStep()`: the current step is checked. A failure sets `errored`
      and shows the error only if it was not set already; nothing else
      changes. A pass clears `errored`, saves the step into the bag under its
      key (and nowhere else) and moves the cursor one step on. */
  function NextStep(rev: Revision, configs: seq<Steps.StepConfig>, f: Form, res: Steps.Resources): (r: Result<Outcome, Fault>)
    requires WellFormed(configs, f)
    ensures r.Err? <==> !HasCurrent(configs, f)
    ensures r.Ok? ==> WellFormed(configs, r.value.form)
    ensures r.Ok? && !Steps.Validate(configs[f.index].kind, f.states[f.index].native) ==>
              && r.value.form == f.(errored := true)
              && r.value.effects == (if f.errored then [] else [ShowError(Steps.Error(configs[f.index].texts, res))])
    ensures r.Ok? && Steps.Validate(configs[f.index].kind, f.states[f.index].native) ==>
              var saved := Steps.Save(configs[f.index], f.states[f.index], f.setupData);
              && !r.value.form.errored
              && r.value.form.index == f.index + 1
              && r.value.form.setupData == saved.setupData
              && |r.value.form.states| == |f.states|
              && r.value.form.states[f.index] == saved.state
              && (f.index + 1 < |configs| ==>
                    r.value.form.states[f.index + 1] ==
                      Steps.Restore(configs[f.index + 1], f.states[f.index + 1], saved.setupData))
              && (forall i :: 0 <= i < |f.states| && i != f.index && i != f.index + 1 ==>
                    r.value.form.states[i] == f.states[i])
              && (f.setupData.Some? ==>
                    AgreeExcept(f.setupData.value, r.value.form.setupData.value, {configs[f.index].dataKey}))
              && (forall e :: e in r.value.effects ==> !e.ShowError?)
              && (f.index + 1 == |configs| <==> FormFinished(saved.setupData) in r.value.effects)
  {
    if !HasCurrent(configs, f) then
      Err(NoCurrentStep(f.index))
    else
      var c := configs[f.index];
      var step := f.states[f.index];
      var valid := Steps.Validate(c.kind, step.native);
      if !valid then
        var effects := if f.errored then [] else [ShowError(Steps.Error(c.texts, res))];
        Ok(Outcome(f.(errored := true), effects))
      else
        var saved := Steps.Save(c, step, f.setupData);
        UpdateStep(rev, configs, Form(f.states[f.index := saved.state], f.index + 1, false, saved.setupData), res)
  }

  /** `previousStep()`: the current step is saved into the bag and the
      cursor moves back one; `errored` is left alone. There is no guard: on
      the first step the cursor becomes -1 and showing it throws. */
  function PreviousStep(rev: Revision, configs: seq<Steps.StepConfig>, f: Form, res: Steps.Resources): (r: Result<Outcome, Fault>)
    requires WellFormed(configs, f)
    ensures r.Err? <==> !(0 < f.index < |configs|)
    ensures r.Ok? ==>
              var saved := Steps.Save(configs[f.index], f.states[f.index], f.setupData);
              && WellFormed(configs, r.value.form)
              && r.value.form.index == f.index - 1
              && r.value.form.errored == f.errored
              && r.value.form.setupData == saved.setupData
              && r.value.form.states[f.index] == saved.state
              && r.value.form.states[f.index - 1] ==
                   Steps.Restore(configs[f.index - 1], f.states[f.index - 1], saved.setupData)
              && (forall i :: 0 <= i < |f.states| && i != f.index && i != f.index - 1 ==>
                    r.value.form.states[i] == f.states[i])
              && |r.value.effects| == 1 && r.value.effects[0].Render?
              && r.value.effects[0].screen.error == ""
  {
    if !HasCurrent(configs, f) then
      Err(NoCurrentStep(f.index))
    else
      var c := configs[f.index];
      var saved := Steps.Save(c, f.states[f.index], f.setupData);
      UpdateStep(rev, configs, Form(f.states[f.index := saved.state], f.index - 1, f.errored, saved.setupData), res)
  }

  /** The Activity's `onBackPressed()`: on the first step it closes the
      host, elsewhere it steps back. */
  function BackPressed(configs: seq<Steps.StepConfig>, f: Form, res: Steps.Resources): (r: Result<Outcome, Fault>)
    requires WellFormed(configs, f)
    ensures f.index == 0 ==> r == Ok(Outcome(f, [CloseHost]))
    ensures f.index != 0 ==> r == PreviousStep(ActivityRevision, configs, f, res)
  {
    if f.index == 0 then Ok(Outcome(f, [CloseHost])) else PreviousStep(ActivityRevision, configs, f, res)
  }

  /** In the Activity the cursor never leaves `[0, size]`: from any shown
      step, Next and Back both succeed and keep it in range; Back on the
      first step does not move it. */
  lemma ActivityCursorStaysInRange(configs: seq<Steps.StepConfig>, f: Form, res: Steps.Resources)
    requires WellFormed(configs, f)
    requires HasCurrent(configs, f)
    ensures NextStep(ActivityRevision, configs, f, res).Ok?
    ensures InRange(configs, NextStep(ActivityRevision, configs, f, res).value.form)
    ensures BackPressed(configs, f, res).Ok?
    ensures InRange(configs, BackPressed(configs, f, res).value.form)
    ensures BackPressed(configs, f, res).value.form.index == if f.index == 0 then 0 else f.index - 1
  {
  }

  /** The keyboard's action button reads "done" exactly on the last step,
      and "next" on every earlier one, for each step edited through a text
      field. */
  lemma ImeDoneExactlyOnLast(configs: seq<Steps.StepConfig>, f: Form, res: Steps.Resources)
    requires WellFormed(configs, f)
    requires HasCurrent(configs, f)
    requires var k := configs[f.index].kind; k.TextKind? || k.OptionKind? || k.DateKind?
    ensures var p := UpdateViews(configs, f, res).value.effects[0].screen.presentation;
            && p.TextInput?
            && (p.view.ime.action == TextSteps.ActionDone <==> f.index == |configs| - 1)
  {
  }

  /** The Fragment's `updateStep` does what the Activity's does, except that
      after `onFormFinished` it leaves its host open. */
  lemma FragmentUpdateStep(configs: seq<Steps.StepConfig>, f: Form, res: Steps.Resources)
    requires WellFormed(configs, f)
    ensures var a := UpdateStep(ActivityRevision, configs, f, res);
            var g := UpdateStep(FragmentRevision, configs, f, res);
            && (a.Ok? <==> g.Ok?)
            && (g.Ok? ==>
                  && a.value.form == g.value.form
                  && a.value.effects == g.value.effects + (if f.index >= |configs| then [CloseHost] else [])
                  && CloseHost !in g.value.effects)
  {
  }

  /** The Fragment's `nextStep` makes the Activity's transitions; only the
      pass on the last step differs, by the missing `finish()`. */
  lemma FragmentNextStep(configs: seq<Steps.StepConfig>, f: Form, res: Steps.Resources)
    requires WellFormed(configs, f)
    ensures var a := NextStep(ActivityRevision, configs, f, res);
            var g := NextStep(FragmentRevision, configs, f, res);
            && (a.Ok? <==> g.Ok?)
            && (g.Ok? ==>
                  var finishing := f.index + 1 == |configs| && Steps.Validate(configs[f.index].kind, f.states[f.index].native);
                  && a.value.form == g.value.form
                  && a.value.effects == g.value.effects + (if finishing then [CloseHost] else [])
                  && CloseHost !in g.value.effects)
  {
    if HasCurrent(configs, f) && Steps.Validate(configs[f.index].kind, f.states[f.index].native) {
      var saved := Steps.Save(configs[f.index], f.states[f.index], f.setupData);
      FragmentUpdateStep(configs, Form(f.states[f.index := saved.state], f.index + 1, false, saved.setupData), res);
    }
  }

  /** The Fragment's `previousStep` is the Activity's, but nothing guards
      it: on the first step it saves, moves the cursor to -1 and fails. */
  lemma FragmentPreviousStep(configs: seq<Steps.StepConfig>, f: Form, res: Steps.Resources)
    requires WellFormed(configs, f)
    ensures PreviousStep(FragmentRevision, configs, f, res) == PreviousStep(ActivityRevision, configs, f, res)
    ensures f.index == 0 < |configs| ==> PreviousStep(FragmentRevision, configs, f, res) == Err(NoCurrentStep(-1))
  {
  }

  /** `onSaveInstanceState(outState)`: the current step is first folded into
      the bag, then bag and cursor are written to `outState`. */
  function SaveInstanceState(configs: seq<Steps.StepConfig>, f: Form, outState: Bundle): (r: Result<(Form, Bundle), Fault>)
    requires WellFormed(configs, f)
    ensures r.Err? <==> !HasCurrent(configs, f)
    ensures r.Ok? ==>
              var saved := Steps.Save(configs[f.index], f.states[f.index], f.setupData);
              var (g, out) := r.value;
              && g == f.(states := f.states[f.index := saved.state], setupData := saved.setupData)
              && KeyData in out && KeyStepIndex in out
              && out[KeyData] == (match saved.setupData case Some(b) => BundleV(b) case None => NullV)
              && out[KeyStepIndex] == IntV(f.index)
              && AgreeExcept(outState, out, {KeyData, KeyStepIndex})
  {
    if !HasCurrent(configs, f) then
      Err(NoCurrentStep(f.index))
    else
      var saved := Steps.Save(configs[f.index], f.states[f.index], f.setupData);
      var g := f.(states := f.states[f.index := saved.state], setupData := saved.setupData);
      var data := match saved.setupData case Some(b) => BundleV(b) case None => NullV;
      Ok((g, outState[KeyData := data][KeyStepIndex := IntV(f.index)]))
  }

  /** Reading saved instance state (`onCreate`, `onRestoreInstanceState`,
      `onCreateView`, `onActivityCreated`): the bag is `getBundle(KEY_DATA)`,
      null when absent, and the cursor `getInt(KEY_STEP_INDEX, 0)`. */
  function ReadInstanceState(f: Form, saved: Option<Bundle>): (g: Form)
    ensures saved.None? ==> g == f
    ensures saved.Some? ==>
              && g.states == f.states && g.errored == f.errored
              && g.setupData == GetBundle(saved.value, KeyData)
              && g.index == GetInt(saved.value, KeyStepIndex, 0)
  {
    match saved
    case None => f
    case Some(b) => f.(setupData := GetBundle(b, KeyData), index := GetInt(b, KeyStepIndex, 0))
  }

  /** Round trip of the instance state: whatever form reads the bundle that
      `SaveInstanceState` wrote gets back exactly the folded bag and the
      cursor. */
  lemma InstanceStateRoundTrip(configs: seq<Steps.StepConfig>, f: Form, outState: Bundle, h: Form)
    requires WellFormed(configs, f)
    requires HasCurrent(configs, f)
    ensures var (g, out) := SaveInstanceState(configs, f, outState).value;
            var restored := ReadInstanceState(h, Some(out));
            && restored.index == f.index
            && restored.setupData == g.setupData
            && restored.states == h.states
  {
  }

  /** The controller's fields as their initialisers set them: cursor 0, no
      error, an empty bag. */
  function Fresh(built: seq<Steps.StepState>): Form {
    Form(built, 0, false, Some(map[]))
  }

  /** The form `onCreate` / `onCreateView` sets up before `updateStep()`:
      the freshly built steps, the other fields as they stand, then whatever
      instance state was saved. An Activity is always a new instance, so its
      fields are `Fresh`; a Fragment whose view is re-created keeps the
      cursor, bag and `error` of its `prior` self. */
  function Initial(rev: Revision, prior: Form, built: seq<Steps.StepState>, saved: Option<Bundle>): Form {
    var base := if rev == ActivityRevision then Fresh(built) else prior.(states := built);
    ReadInstanceState(base, saved)
  }

  /** `onCreate` / `onCreateView`: set up, then `updateStep()`. */
  function Create(rev: Revision, configs: seq<Steps.StepConfig>, prior: Form, built: seq<Steps.StepState>,
                  saved: Option<Bundle>, res: Steps.Resources): Result<Outcome, Fault>
    requires WellFormed(configs, Fresh(built))
  {
    UpdateStep(rev, configs, Initial(rev, prior, built, saved), res)
  }

  /** `onRestoreInstanceState` (Activity) and `onActivityCreated` (Fragment)
      read the same saved state a second time, after `onCreate` /
      `onCreateView` already did and showed a step; the second read changes
      nothing. */
  lemma ReadInstanceStateTwice(rev: Revision, configs: seq<Steps.StepConfig>, prior: Form,
                               built: seq<Steps.StepState>, saved: Option<Bundle>, res: Steps.Resources)
    requires WellFormed(configs, Fresh(built))
    requires Create(rev, configs, prior, built, saved, res).Ok?
    ensures var g := Create(rev, configs, prior, built, saved, res).value.form;
            ReadInstanceState(g, saved) == g
  {
  }

  /** Resuming after a restart: the saved cursor and bag are adopted
      verbatim; if the cursor names a step, that step alone is restored from
      the bag and shown, nothing is validated and no error is shown; a cursor
      at or past the end finishes the form at once. Without saved state a new
      Activity starts on the first step with an empty bag, while a Fragment
      resumes where its previous view was. A new Activity starts with
      `errored` clear; a Fragment keeps its own. */
  lemma ResumeAfterRestart(rev: Revision, configs: seq<Steps.StepConfig>, prior: Form,
                           built: seq<Steps.StepState>, saved: Option<Bundle>, res: Steps.Resources)
    requires WellFormed(configs, Fresh(built))
    ensures var f := Initial(rev, prior, built, saved);
            var r := Create(rev, configs, prior, built, saved, res);
            && f.states == built
            && (saved.None? && rev == ActivityRevision ==> f.index == 0 && f.setupData == Some(map[]))
            && (saved.None? && rev == FragmentRevision ==> f.index == prior.index && f.setupData == prior.setupData)
            && (saved.Some? ==> f.index == GetInt(saved.value, KeyStepIndex, 0)
                                && f.setupData == GetBundle(saved.value, KeyData))
            && f.errored == (rev == FragmentRevision && prior.errored)
            && (HasCurrent(configs, f) ==>
                  && r.Ok?
                  && r.value.form.index == f.index
                  && r.value.form.setupData == f.setupData
                  && r.value.form.errored == f.errored
                  && r.value.form.states[f.index] == Steps.Restore(configs[f.index], built[f.index], f.setupData)
                  && (forall i :: 0 <= i < |built| && i != f.index ==> r.value.form.states[i] == built[i])
                  && |r.value.effects| == 1 && r.value.effects[0].Render?)
            && (f.index >= |configs| ==> r == Ok(Outcome(f, [FormFinished(f.setupData)]
                                                      + (if rev == ActivityRevision then [CloseHost] else []))))
            && (f.index < 0 ==> r.Err?)
  {
  }
}
