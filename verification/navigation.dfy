/** Properties of whole runs of the controller: a form driven to the end,
    stepping back and forward again, and the error debounce across a Back. */
module Navigation {
  import opened Platform
  import Steps
  import opened Controller

  /** Every step accepts whatever value its widget holds, as a form built
      only with default checkers does. */
  ghost predicate AcceptsEverything(configs: seq<Steps.StepConfig>) {
    forall i, n :: 0 <= i < |configs| && Steps.Fits(configs[i].kind, n) ==> Steps.Validate(configs[i].kind, n)
  }

  /** A run of taps on next from `f` meets no refusal: the shown step
      accepts the value it holds, and every later step accepts the value it
      holds once the run has reached and restored it. */
  ghost predicate PassesFrom(rev: Revision, configs: seq<Steps.StepConfig>, f: Form, res: Steps.Resources)
    requires WellFormed(configs, f)
    decreases |configs| - f.index
  {
    && HasCurrent(configs, f)
    && Steps.Validate(configs[f.index].kind, f.states[f.index].native)
    && (f.index + 1 < |configs| ==> PassesFrom(rev, configs, NextStep(rev, configs, f, res).value.form, res))
  }

  /** `n` taps on the next button in a row, their effects in order. */
  function Advance(rev: Revision, configs: seq<Steps.StepConfig>, f: Form, res: Steps.Resources, n: nat): (r: Result<Outcome, Fault>)
    requires WellFormed(configs, f)
    ensures r.Ok? ==> WellFormed(configs, r.value.form)
    decreases n
  {
    if n == 0 then
      Ok(Outcome(f, []))
    else
      match NextStep(rev, configs, f, res)
      case Err(e) => Err(e)
      case Ok(o) =>
        match Advance(rev, configs, o.form, res, n - 1)
        case Err(e) => Err(e)
        case Ok(rest) => Ok(Outcome(rest.form, o.effects + rest.effects))
  }

  /** How often `onFormFinished` is called in a sequence of effects. */
  function FinishCount(effects: seq<Effect>): nat {
    if effects == [] then 0
    else (if effects[0].FormFinished? then 1 else 0) + FinishCount(effects[1..])
  }

  lemma {:induction false} FinishCountAppend(a: seq<Effect>, b: seq<Effect>)
    ensures FinishCount(a + b) == FinishCount(a) + FinishCount(b)
  {
    if a == [] {
      assert a + b == b;
    } else {
      assert (a + b)[1..] == a[1..] + b;
      FinishCountAppend(a[1..], b);
    }
  }

  /** The data keys of the steps from position `from` on. */
  function KeysFrom(configs: seq<Steps.StepConfig>, from: nat): set<string> {
    set j | from <= j < |configs| :: configs[j].dataKey
  }

  /** What follows `onFormFinished`: the Activity closes itself. */
  function Closing(rev: Revision): seq<Effect> {
    if rev == ActivityRevision then [CloseHost] else []
  }

  /** The effects of a passing check: the form finishes after the last step
      and the next step is shown otherwise. */
  lemma PassingStepEffects(rev: Revision, configs: seq<Steps.StepConfig>, f: Form, res: Steps.Resources)
    requires WellFormed(configs, f)
    requires HasCurrent(configs, f)
    requires Steps.Validate(configs[f.index].kind, f.states[f.index].native)
    ensures var o := NextStep(rev, configs, f, res).value;
            && (f.index + 1 == |configs| ==> o.effects == [FormFinished(o.form.setupData)] + Closing(rev))
            && (f.index + 1 < |configs| ==> |o.effects| == 1 && o.effects[0].Render?)
  {
  }

  /** The bag after a run that passes steps `k`, `k + 1`, ... when it
      agreed with the original bag outside `{key_k}` after the first. */
  lemma GrownBag(configs: seq<Steps.StepConfig>, k: nat, a: Bundle, b: Bundle, c: Bundle)
    requires k < |configs|
    requires AgreeExcept(a, b, {configs[k].dataKey}) && configs[k].dataKey in b && b[configs[k].dataKey].BundleV?
    requires AgreeExcept(b, c, KeysFrom(configs, k + 1))
    requires c.Keys == b.Keys + KeysFrom(configs, k + 1)
    requires forall j :: k + 1 <= j < |configs| ==> c[configs[j].dataKey].BundleV?
    ensures c.Keys == a.Keys + KeysFrom(configs, k)
    ensures AgreeExcept(a, c, KeysFrom(configs, k))
    ensures forall j :: k <= j < |configs| ==> c[configs[j].dataKey].BundleV?
  {
    var key := configs[k].dataKey;
    assert KeysFrom(configs, k) == {key} + KeysFrom(configs, k + 1);
    KeysAfterPut(a, b, key);
    if key !in KeysFrom(configs, k + 1) {
      assert c[key] == b[key];
    }
  }

  /** A run from `f` that ended with the form done: every step from the
      cursor on passed, each left one nested bundle in the bag and nothing
      else in it changed, and `onFormFinished` was called exactly once, as
      the last effect before the Activity closes. */
  ghost predicate Completed(rev: Revision, configs: seq<Steps.StepConfig>, f: Form, r: Result<Outcome, Fault>)
    requires 0 <= f.index && f.setupData.Some?
  {
    && r.Ok?
    && r.value.form.index == |configs|
    && r.value.form.setupData.Some?
    && var bag := r.value.form.setupData.value;
       && bag.Keys == f.setupData.value.Keys + KeysFrom(configs, f.index)
       && AgreeExcept(f.setupData.value, bag, KeysFrom(configs, f.index))
       && (forall j :: f.index <= j < |configs| ==> bag[configs[j].dataKey].BundleV?)
       && FinishCount(r.value.effects) == 1
       && |r.value.effects| > |Closing(rev)|
       && r.value.effects[|r.value.effects| - |Closing(rev)| - 1..] == [FormFinished(r.value.form.setupData)] + Closing(rev)
  }

  /** Passing the last step completes the form. */
  lemma LastStepCompletes(rev: Revision, configs: seq<Steps.StepConfig>, f: Form, res: Steps.Resources)
    requires WellFormed(configs, f)
    requires 0 <= f.index && f.index + 1 == |configs|
    requires f.setupData.Some?
    requires Steps.Validate(configs[f.index].kind, f.states[f.index].native)
    ensures Completed(rev, configs, f, Advance(rev, configs, f, res, 1))
  {
    var c := configs[f.index];
    var o := NextStep(rev, configs, f, res).value;
    PassingStepEffects(rev, configs, f, res);
    assert KeysFrom(configs, f.index) == {c.dataKey};
    KeysAfterPut(f.setupData.value, o.form.setupData.value, c.dataKey);
    assert FinishCount(Closing(rev)) == 0;
    FinishCountAppend([FormFinished(o.form.setupData)], Closing(rev));
    assert Advance(rev, configs, f, res, 1) == NextStep(rev, configs, f, res) by {
      AdvanceFirst(rev, configs, f, res, 1);
      assert o.effects + [] == o.effects;
    }
  }

  /** A completed run from the step after `f`, preceded by a pass that
      put one nested bundle into the bag and showed that step, completes
      the form from `f`. */
  lemma ExtendCompleted(rev: Revision, configs: seq<Steps.StepConfig>, f: Form, o: Outcome, rest: Outcome)
    requires 0 <= f.index && f.index + 1 < |configs|
    requires f.setupData.Some? && o.form.setupData.Some?
    requires o.form.index == f.index + 1
    requires var key := configs[f.index].dataKey;
             && AgreeExcept(f.setupData.value, o.form.setupData.value, {key})
             && key in o.form.setupData.value && o.form.setupData.value[key].BundleV?
    requires |o.effects| == 1 && o.effects[0].Render?
    requires Completed(rev, configs, o.form, Ok(rest))
    ensures Completed(rev, configs, f, Ok(Outcome(rest.form, o.effects + rest.effects)))
  {
    GrownBag(configs, f.index, f.setupData.value, o.form.setupData.value, rest.form.setupData.value);
    assert FinishCount(o.effects) == 0;
    FinishCountAppend(o.effects, rest.effects);
    var all := o.effects + rest.effects;
    assert all[|all| - |Closing(rev)| - 1..] == rest.effects[|rest.effects| - |Closing(rev)| - 1..];
  }

  /** Passing a step that is not the last, then completing from the next
      one, completes the form from that step. */
  lemma PassThenComplete(rev: Revision, configs: seq<Steps.StepConfig>, f: Form, res: Steps.Resources, next: Form)
    requires WellFormed(configs, f)
    requires 0 <= f.index && f.index + 1 < |configs|
    requires f.setupData.Some?
    requires Steps.Validate(configs[f.index].kind, f.states[f.index].native)
    requires NextStep(rev, configs, f, res).Ok? && next == NextStep(rev, configs, f, res).value.form
    requires next.index == f.index + 1 && next.setupData.Some?
    requires Completed(rev, configs, next, Advance(rev, configs, next, res, |configs| - next.index))
    ensures Completed(rev, configs, f, Advance(rev, configs, f, res, |configs| - f.index))
  {
    var o := NextStep(rev, configs, f, res).value;
    var rest := Advance(rev, configs, next, res, |configs| - next.index).value;
    PassingStepEffects(rev, configs, f, res);
    ExtendCompleted(rev, configs, f, o, rest);
    assert Advance(rev, configs, f, res, |configs| - f.index) == Ok(Outcome(rest.form, o.effects + rest.effects)) by {
      AdvanceFirst(rev, configs, f, res, |configs| - f.index);
    }
  }

  /** One tap of `Advance`: the first `nextStep`, then the rest. */
  lemma AdvanceFirst(rev: Revision, configs: seq<Steps.StepConfig>, f: Form, res: Steps.Resources, n: nat)
    requires WellFormed(configs, f)
    requires n > 0
    requires NextStep(rev, configs, f, res).Ok?
    ensures var o := NextStep(rev, configs, f, res).value;
            Advance(rev, configs, f, res, n) ==
              match Advance(rev, configs, o.form, res, n - 1)
              case Err(e) => Err(e)
              case Ok(rest) => Ok(Outcome(rest.form, o.effects + rest.effects))
  {
  }

  /** The form after a passing check on a step that is not the last: the
      next step is shown and the bag is still non-null. */
  function PassingStepForm(rev: Revision, configs: seq<Steps.StepConfig>, f: Form, res: Steps.Resources): (next: Form)
    requires WellFormed(configs, f)
    requires 0 <= f.index && f.index + 1 < |configs|
    requires f.setupData.Some?
    requires Steps.Validate(configs[f.index].kind, f.states[f.index].native)
    ensures NextStep(rev, configs, f, res).Ok? && next == NextStep(rev, configs, f, res).value.form
    ensures WellFormed(configs, next) && HasCurrent(configs, next) && next.index == f.index + 1
    ensures next.setupData.Some?
  {
    NextStep(rev, configs, f, res).value.form
  }

  /** Completion: when every step passes its check on the value it holds
      when it is reached, tapping next once per remaining step, from any
      shown step and a non-null bag, completes the form. */
  lemma {:induction false} CompletionRun(rev: Revision, configs: seq<Steps.StepConfig>, f: Form, res: Steps.Resources)
    requires WellFormed(configs, f)
    requires f.setupData.Some?
    requires PassesFrom(rev, configs, f, res)
    ensures Completed(rev, configs, f, Advance(rev, configs, f, res, |configs| - f.index))
    decreases |configs| - f.index
  {
    if f.index + 1 == |configs| {
      LastStepCompletes(rev, configs, f, res);
    } else {
      var next := PassingStepForm(rev, configs, f, res);
      CompletionRun(rev, configs, next, res);
      PassThenComplete(rev, configs, f, res, next);
    }
  }

  /** A form whose every step accepts whatever it holds, as one built only
      with default checkers, passes every run from a shown step. */
  lemma {:induction false} AcceptingFormPasses(rev: Revision, configs: seq<Steps.StepConfig>, f: Form, res: Steps.Resources)
    requires WellFormed(configs, f)
    requires HasCurrent(configs, f)
    requires AcceptsEverything(configs)
    ensures PassesFrom(rev, configs, f, res)
    decreases |configs| - f.index
  {
    assert Steps.Validate(configs[f.index].kind, f.states[f.index].native);
    if f.index + 1 < |configs| {
      var next := NextStep(rev, configs, f, res).value.form;
      AcceptingFormPasses(rev, configs, next, res);
    }
  }

  /** Back (Activity) from a shown step other than the first: the step
      that is left is saved, and its bundle sits in the bag under its key. */
  lemma BackSavesLeftStep(configs: seq<Steps.StepConfig>, f: Form, res: Steps.Resources)
    requires WellFormed(configs, f)
    requires 0 < f.index < |configs|
    requires f.setupData.Some?
    ensures var back := BackPressed(configs, f, res);
            var left := Steps.Save(configs[f.index], f.states[f.index], f.setupData).state;
            && back.Ok?
            && back.value.form.index == f.index - 1
            && back.value.form.errored == f.errored
            && back.value.form.states[f.index] == left
            && back.value.form.setupData.Some?
            && configs[f.index].dataKey in back.value.form.setupData.value
            && back.value.form.setupData.value[configs[f.index].dataKey] == BundleV(left.data)
  {
  }

  /** Forward onto a step whose bundle is in the bag: a pass on the step
      before it shows it restored from that bundle, provided the two steps
      use different keys. */
  lemma ForwardRestores(configs: seq<Steps.StepConfig>, b: Form, res: Steps.Resources)
    requires WellFormed(configs, b)
    requires 0 <= b.index && b.index + 1 < |configs|
    requires b.setupData.Some?
    requires configs[b.index].dataKey != configs[b.index + 1].dataKey
    requires Steps.Validate(configs[b.index].kind, b.states[b.index].native)
    ensures var fwd := NextStep(ActivityRevision, configs, b, res);
            && fwd.Ok?
            && fwd.value.form.index == b.index + 1
            && fwd.value.form.states[b.index + 1] ==
                 Steps.Restore(configs[b.index + 1], b.states[b.index + 1], b.setupData)
  {
    var c := configs[b.index + 1];
    var saved := Steps.Save(configs[b.index], b.states[b.index], b.setupData);
    Steps.RestoreReadsOwnKey(c, b.states[b.index + 1], saved.setupData.value, b.setupData.value);
  }

  /** Back, then forward again (Activity): the step that was left keeps its
      in-progress value in the bag under its key, and once the previous step
      passes, it comes back with that same answer rather than a default.
      The two steps must use different data keys. */
  lemma BackThenForward(configs: seq<Steps.StepConfig>, f: Form, res: Steps.Resources)
    requires WellFormed(configs, f)
    requires 0 < f.index < |configs|
    requires f.setupData.Some?
    requires configs[f.index - 1].dataKey != configs[f.index].dataKey
    ensures var back := BackPressed(configs, f, res);
            && back.Ok?
            && back.value.form.index == f.index - 1
            && var b := back.value.form;
               (Steps.Validate(configs[b.index].kind, b.states[b.index].native) ==>
                  var fwd := NextStep(ActivityRevision, configs, b, res);
                  && fwd.Ok?
                  && fwd.value.form.index == f.index
                  && Steps.AnswerOf(fwd.value.form.states[f.index].native) == Steps.AnswerOf(f.states[f.index].native))
  {
    var k := f.index;
    var c := configs[k];
    var saved := Steps.Save(c, f.states[k], f.setupData);
    BackSavesLeftStep(configs, f, res);
    var b := BackPressed(configs, f, res).value.form;
    if Steps.Validate(configs[k - 1].kind, b.states[k - 1].native) {
      ForwardRestores(configs, b, res);
      Steps.RestoreReadsOwnKey(c, saved.state, b.setupData.value, saved.setupData.value);
      Steps.SaveRestoreRoundTrip(c, f.states[k], saved.state, f.setupData);
    }
  }

  /** The debounce flag outlives the error line it guards (Activity): after a
      failed check the error is shown once; Back clears the error line but
      not `errored`, so a failed check on the previous step then shows
      nothing at all and leaves the form as it was. */
  lemma ErrorSuppressedAfterBack(configs: seq<Steps.StepConfig>, f: Form, res: Steps.Resources)
    requires WellFormed(configs, f)
    requires 0 < f.index < |configs|
    requires !f.errored
    requires !Steps.Validate(configs[f.index].kind, f.states[f.index].native)
    ensures var failed := NextStep(ActivityRevision, configs, f, res);
            && failed.Ok?
            && failed.value.effects == [ShowError(Steps.Error(configs[f.index].texts, res))]
            && var back := BackPressed(configs, failed.value.form, res);
               && back.Ok?
               && back.value.form.errored
               && |back.value.effects| == 1 && back.value.effects[0].Render?
               && back.value.effects[0].screen.error == ""
               && (!Steps.Validate(configs[f.index - 1].kind, back.value.form.states[f.index - 1].native) ==>
                     NextStep(ActivityRevision, configs, back.value.form, res) == Ok(Outcome(back.value.form, [])))
  {
  }
}
