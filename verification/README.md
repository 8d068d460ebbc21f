# material-singleinputform, modelled in Dafny

material-singleinputform is an Android library for one-question-per-screen
forms. This project models the part underneath the UI: a fixed list of steps,
a cursor over them, a one-shot error flag, and an answer bag (an Android
`Bundle`). Each step writes its answer into the bag under its own data key.
When the cursor passes the last step, the bag is handed to `onFormFinished`.

The controller exists in two revisions: `SingleInputFormActivity` and
`SingleInputFragment`. Both are modelled by one set of pure transition
functions, parameterised by a `Revision`. They differ in five ways:

- the Activity closes itself after finishing, and the Fragment does not;
- only the Activity has a Back handler;
- they read saved instance state at different lifecycle callbacks;
- a Fragment instance can outlive its view: `onCreateView` without saved
  state keeps the cursor, bag and `error` the instance already had, while an
  Activity's `onCreate` always runs on a new instance whose fields are at
  their initial values (`Controller.Initial`);
- the Fragment's `updateViews` calls `updateView` before `restore`, and the
  Activity's restores first. In the model `updateView` is a pure
  presentation of the configuration, so the order only matters through the
  slider clamping listed under "Left out".

Every handler returns the new `Form` together with its `Effect`s:

- an error shown;
- a screen rendered;
- `onFormFinished` called;
- the host closed.

When there is no current step, a handler returns the `IndexOutOfBoundsException`
that `getCurrentStep()` would throw, as a `Fault`.

The five step variants are cases of one tagged union `Steps.Kind`. The
variants are check box, text, option (single choice), date and seek bar. They
correspond to `CheckBoxStep`, `TextStep`, `OptionStep`, `DateStep` and
`SeekBarStep`. Each variant's module holds:

- its persisted field names;
- its `onSave` and `onRestore`;
- its static read-back accessors and their sentinels: `null`, `false`, -1
  and `Integer.MIN_VALUE`;
- its default checker.

The Java code checks values through several entry points: `check()`,
`validate()`, synchronous checkers and callback checkers. The model folds all
of them into one `Steps.Validate`.

Modules and files:

- `platform.dfy` (`Platform`): Java `int` (`Int32`, `Wrap32`), nullable
  references, `Result`, and `Bundle` as `map<string, Value>`.
- `Bundle` getters follow Android's behaviour: a missing key, a `null` entry
  or a value of another type gives the default.
- `callbacks.dfy` (`Callbacks`): the outcome a `StepCheckerCallback` receives.
- `text_step.dfy`, `option_step.dfy`, `checkbox_step.dfy`, `date_step.dfy` and
  `seekbar_step.dfy`: the variants.
- `step.dfy` (`Steps`): the `Step` contract. It covers save and restore
  into the bag, title/error/details fallback, the memoised view, and dispatch
  over the variants.
- `controller.dfy` (`Controller`): the wizard state machine and
  instance-state persistence.
- `navigation.dfy` (`Navigation`): properties of whole runs, namely completion,
  back-then-forward, and the error flag across a Back.
- `sample.dfy` (`SampleForm`): the example app's checkers as concrete steps.

Behaviour of the code a reader might not expect, which the model keeps:

- **Restore on a first visit.** `restore` with no entry for the step's key keeps
  the step's bundle but still runs `onRestore`. With an empty bundle, that
  resets the text to "", the check box to false, the slider to 0 and the date
  to (-1, -1, -1). The value is not kept at its built-in default. Only the
  option step keeps its selection (`Steps.RestoreFirstVisit`).
- **The Fragment has no Back guard.** Its Back handler is commented out, so
  `previousStep` on the first step moves the cursor to -1. The cursor
  invariant `0 <= index <= size` is therefore proved for the Activity only
  (`Controller.ActivityCursorStaysInRange`). In the Fragment, that call is a
  `Fault`.
- **Field names.** The persisted fields are `data_checked`, `data_text`,
  `data_selected_option`, `data_year`/`data_month`/`data_day` and
  `data_progress`.
- **The error flag across Back.** `previousStep` does not clear `errored`, and
  `updateViews` blanks the error line. So after a Back, the first failed check
  on the earlier step shows no error at all (`Navigation.ErrorSuppressedAfterBack`).

## Model

| member | source | states |
|---|---|---|
| Platform.Wrap32 | library/src/main/java/com/heinrichreimersoftware/singleinputform/SingleInputFormActivity.java:366-369 | Java `int` arithmetic: a value in range is unchanged, any other is reduced modulo 2^32 into range |
| Platform.Utf16Length | example/src/main/java/com/heinrichreimersoftware/singleinputform/example/MainActivity.java:76 | `String.length()` is the exact number of UTF-16 code units: the number of characters plus the number of characters outside the Basic Multilingual Plane; hence between the character count and twice it, and equal to it exactly when every character is in that plane |
| Platform.Utf16LengthAppend | example/src/main/java/com/heinrichreimersoftware/singleinputform/example/MainActivity.java:76 | the length of a concatenation is the sum of the lengths |
| Platform.NestedInt | library/src/main/java/com/heinrichreimersoftware/singleinputform/steps/DateStep.java:61-70 | the shared accessor pattern: the sentinel when the bag is null, the key is absent or not a bundle, or the field is missing or holds no int; the stored int otherwise |
| Platform.KeysAfterPut | library/src/main/java/com/heinrichreimersoftware/singleinputform/steps/Step.java:83-89 | putting one key and changing nothing else adds exactly that key to the bag's key set |
| Callbacks.AlwaysValid | library/src/main/java/com/heinrichreimersoftware/singleinputform/steps/SeekBarStep.java:50-57 | the checker installed when none is given reports every value valid |
| TextSteps.AcceptAll | library/src/main/java/com/heinrichreimersoftware/singleinputform/steps/TextStep.java:52-72 | the text constructors without a checker accept every input |
| TextSteps.Check | library/src/main/java/com/heinrichreimersoftware/singleinputform/steps/TextStep.java:125-133 | the checker sees the field's text, or "" when the text is null |
| TextSteps.Text | library/src/main/java/com/heinrichreimersoftware/singleinputform/steps/TextStep.java:74-83 | null when the bag, the nested bundle or the text entry is missing; otherwise the stored `data_text` |
| TextSteps.OnSave | library/src/main/java/com/heinrichreimersoftware/singleinputform/steps/TextStep.java:135-138 | stores the text under `data_text`, touches no other field, and `onRestore` reads the same text back |
| TextSteps.OnRestore | library/src/main/java/com/heinrichreimersoftware/singleinputform/steps/TextStep.java:140-149 | the field shows the stored text, or "" when it is missing or empty |
| TextSteps.UpdateView | library/src/main/java/com/heinrichreimersoftware/singleinputform/steps/TextStep.java:97-115 | IME action DONE exactly on the last step, NEXT otherwise, always with no-extract-UI; the keyboard is shown exactly when the input type is not `TYPE_NULL` |
| OptionSteps.NonEmpty | library/src/main/java/com/heinrichreimersoftware/singleinputform/steps/OptionStep.java:36-41 | the option checker accepts exactly the non-empty texts |
| OptionSteps.UpdateText | library/src/main/java/com/heinrichreimersoftware/singleinputform/steps/OptionStep.java:188-192 | the text becomes `options[pos]` when `0 <= pos < length` and is left alone otherwise |
| OptionSteps.Pick | library/src/main/java/com/heinrichreimersoftware/singleinputform/steps/OptionStep.java:51-54 | picking position `which` selects it and shows its option |
| OptionSteps.SelectedOption | library/src/main/java/com/heinrichreimersoftware/singleinputform/steps/OptionStep.java:177-186 | -1 when the bag, the key or the nested bundle is missing, otherwise the stored position with -1 for a missing field |
| OptionSteps.OnSave | library/src/main/java/com/heinrichreimersoftware/singleinputform/steps/OptionStep.java:195-198 | stores the position, -1 included, and touches no other field |
| OptionSteps.OnRestore | library/src/main/java/com/heinrichreimersoftware/singleinputform/steps/OptionStep.java:200-207 | a stored position >= 0 is adopted and the text refreshed; otherwise the selection is unchanged |
| OptionSteps.PickAndRestoreKeepConsistent | library/src/main/java/com/heinrichreimersoftware/singleinputform/steps/OptionStep.java:188-207 | picking an offered option and restoring an in-range position both keep "nothing selected, empty text" or "position in range, its option shown" |
| OptionSteps.ValidIffSelected | library/src/main/java/com/heinrichreimersoftware/singleinputform/steps/OptionStep.java:33-41 | with non-empty options, a consistent selection passes the check exactly when a position was picked |
| OptionSteps.OptionsFromResources | library/src/main/java/com/heinrichreimersoftware/singleinputform/steps/OptionStep.java:73-82 | one option per resource id, in order, with a null string replaced by "" |
| CheckBoxSteps.FromSync | library/src/main/java/com/heinrichreimersoftware/singleinputform/steps/CheckBoxStep.java:50-72 | the adapter reports valid exactly when the plain checker returns true, and invalid with no message otherwise |
| CheckBoxSteps.Checked | library/src/main/java/com/heinrichreimersoftware/singleinputform/steps/CheckBoxStep.java:92-101 | false when the bag, the key or the nested bundle is missing; otherwise true exactly when `data_checked` holds true |
| CheckBoxSteps.OnSave | library/src/main/java/com/heinrichreimersoftware/singleinputform/steps/CheckBoxStep.java:141-144 | stores the checked state, touches no other field, and `onRestore` reads it back |
| CheckBoxSteps.OnRestore | library/src/main/java/com/heinrichreimersoftware/singleinputform/steps/CheckBoxStep.java:146-149 | checked exactly when the stored flag is true; false by default |
| CheckBoxSteps.Label | library/src/main/java/com/heinrichreimersoftware/singleinputform/steps/CheckBoxStep.java:114-122 | the resource string when the resource id is non-zero, the literal text otherwise |
| DateSteps.DefaultValidator | library/src/main/java/com/heinrichreimersoftware/singleinputform/steps/DateStep.java:123-126 | the default validator accepts every triple |
| DateSteps.ValidateText | library/src/main/java/com/heinrichreimersoftware/singleinputform/steps/DateStep.java:128-131 | the string overload accepts everything |
| DateSteps.LabelFor | library/src/main/java/com/heinrichreimersoftware/singleinputform/steps/DateStep.java:94-101 | the field shows a formatted date exactly when year, month and day are all >= 0, and then of that triple |
| DateSteps.DateSet | library/src/main/java/com/heinrichreimersoftware/singleinputform/steps/DateStep.java:50-55 | the picker overwrites all three fields and refreshes the text from them |
| DateSteps.Year | library/src/main/java/com/heinrichreimersoftware/singleinputform/steps/DateStep.java:61-70 | `Integer.MIN_VALUE` when the bag, the key or the nested bundle is missing, otherwise the stored year with the same sentinel for a missing field |
| DateSteps.Month | library/src/main/java/com/heinrichreimersoftware/singleinputform/steps/DateStep.java:72-81 | as `Year`, for the month |
| DateSteps.Day | library/src/main/java/com/heinrichreimersoftware/singleinputform/steps/DateStep.java:83-92 | as `Year`, for the day |
| DateSteps.OnSave | library/src/main/java/com/heinrichreimersoftware/singleinputform/steps/DateStep.java:108-113 | writes all three ints and touches no other field |
| DateSteps.OnRestore | library/src/main/java/com/heinrichreimersoftware/singleinputform/steps/DateStep.java:115-121 | reads each field back with default -1 and refreshes the text |
| DateSteps.RestoreAfterSave | library/src/main/java/com/heinrichreimersoftware/singleinputform/steps/DateStep.java:108-121 | restoring what `onSave` wrote gives back the same triple and the text the picker would show for it |
| DateSteps.RestoreFromEmpty | library/src/main/java/com/heinrichreimersoftware/singleinputform/steps/DateStep.java:115-121 | restoring from an empty bundle leaves every field -1 and the text empty |
| SeekBarSteps.Progress | library/src/main/java/com/heinrichreimersoftware/singleinputform/steps/SeekBarStep.java:75-84 | -1 when the bag, the key or the nested bundle is missing, otherwise the stored progress with -1 for a missing field |
| SeekBarSteps.OnSave | library/src/main/java/com/heinrichreimersoftware/singleinputform/steps/SeekBarStep.java:115-118 | stores the progress, touches no other field, and `onRestore` reads it back |
| SeekBarSteps.OnRestore | library/src/main/java/com/heinrichreimersoftware/singleinputform/steps/SeekBarStep.java:121-125 | the stored progress, or 0 (not -1) when there is none |
| Steps.Resolve | library/src/main/java/com/heinrichreimersoftware/singleinputform/steps/Step.java:41-70 | title, error and details: the literal when non-null and non-empty, otherwise the resolved resource |
| Steps.Title | library/src/main/java/com/heinrichreimersoftware/singleinputform/steps/Step.java:41-46 | `getTitle`: the literal title when non-null and non-empty, otherwise the string of the title resource |
| Steps.Error | library/src/main/java/com/heinrichreimersoftware/singleinputform/steps/Step.java:53-58 | `getError`: the literal error when non-null and non-empty, otherwise the string of the error resource |
| Steps.Details | library/src/main/java/com/heinrichreimersoftware/singleinputform/steps/Step.java:65-70 | `getDetails`: the literal details when non-null and non-empty, otherwise the string of the details resource |
| Steps.Validate | library/src/main/java/com/heinrichreimersoftware/singleinputform/steps/Step.java:103 | each variant's check hands its native value to its checker; the option step asks for a non-empty text |
| Steps.DefaultCheckersAcceptAll | library/src/main/java/com/heinrichreimersoftware/singleinputform/steps/CheckBoxStep.java:74-90 | a check box, text, date or seek-bar step built without a checker accepts whatever value it holds |
| Steps.OnSave | library/src/main/java/com/heinrichreimersoftware/singleinputform/steps/Step.java:107 | the abstract `onSave()` runs the variant's own save on the step's bundle with the widget's current value |
| Steps.OnRestore | library/src/main/java/com/heinrichreimersoftware/singleinputform/steps/Step.java:109 | the abstract `onRestore()` runs the variant's own restore from the step's bundle; only the option step also consults its current selection |
| Steps.Save | library/src/main/java/com/heinrichreimersoftware/singleinputform/steps/Step.java:83-89 | `onSave` runs into the step's bundle, which is put under the step's key; a null bag stays null; no other key of the bag changes; the live value is unchanged |
| Steps.Restore | library/src/main/java/com/heinrichreimersoftware/singleinputform/steps/Step.java:91-99 | the step's bundle becomes the bag's entry for its key when there is one and is kept otherwise; `onRestore` always runs |
| Steps.SaveRestoreRoundTrip | library/src/main/java/com/heinrichreimersoftware/singleinputform/steps/Step.java:83-99 | any step of the same configuration restoring from the saved bag gets the saved answer back, except an option saved with nothing selected, whose -1 is ignored |
| Steps.RestoreFirstVisit | library/src/main/java/com/heinrichreimersoftware/singleinputform/steps/Step.java:91-99 | with no entry under its key and an empty bundle, restore resets text, check box, slider and date, and keeps the option's selection |
| Steps.AccessorsReadSaved | library/src/main/java/com/heinrichreimersoftware/singleinputform/steps/Step.java:83-89 | after `save` into a non-null bag, each variant's static accessor returns the saved answer rather than its sentinel |
| Steps.RestoreReadsOwnKey | library/src/main/java/com/heinrichreimersoftware/singleinputform/steps/Step.java:91-99 | two bags that agree on the step's key restore the step identically |
| Steps.UpdateView | library/src/main/java/com/heinrichreimersoftware/singleinputform/steps/SeekBarStep.java:93-100 | the check box gets its label, the text, option and date steps their IME set-up (option: `TYPE_NULL`), the slider its configured range |
| Steps.GetView | library/src/main/java/com/heinrichreimersoftware/singleinputform/steps/Step.java:72-77 | the view is created on the first call and the cached one returned afterwards |
| Steps.GetViewMemoised | library/src/main/java/com/heinrichreimersoftware/singleinputform/steps/Step.java:72-77 | once created, later calls return the same view whatever the factory would produce |
| Controller.ProgressMax | library/src/main/java/com/heinrichreimersoftware/singleinputform/SingleInputFormActivity.java:366-369 | the bar's maximum is `size * 100` for every list short enough not to overflow |
| Controller.ProgressOf | library/src/main/java/com/heinrichreimersoftware/singleinputform/SingleInputFormActivity.java:366-369 | the bar's target is `index * 100` in the same range |
| Controller.ProgressWithinBar | library/src/main/java/com/heinrichreimersoftware/singleinputform/SingleInputFormActivity.java:366-369 | the target stays within the bar and reaches its maximum exactly when the form is done |
| Controller.UpdateViews | library/src/main/java/com/heinrichreimersoftware/singleinputform/SingleInputFormActivity.java:326-350 | fails exactly when there is no current step; otherwise only the current step changes (it is restored from the bag); one screen, with the finish icon and `lastStep` exactly when `index + 1 >= size`, a blank error, page `index + 1` of `size` and the progress values; the Fragment's `updateViews` is the same |
| Controller.ImeDoneExactlyOnLast | library/src/main/java/com/heinrichreimersoftware/singleinputform/SingleInputFormActivity.java:330-337 | for a shown text, option or date step, the keyboard action is DONE exactly when the step is the last one and NEXT otherwise |
| Controller.UpdateStep | library/src/main/java/com/heinrichreimersoftware/singleinputform/SingleInputFormActivity.java:300-309 | at or past the end, `onFormFinished(setupData)` is called and the Activity closes; otherwise the current step is shown |
| Controller.FragmentUpdateStep | library/src/main/java/com/heinrichreimersoftware/singleinputform/SingleInputFragment.kt:251-270 | the Fragment reaches the same state with the same effects as the Activity, except that it never closes its host after `onFormFinished` |
| Controller.NextStep | library/src/main/java/com/heinrichreimersoftware/singleinputform/SingleInputFormActivity.java:377-396 | a failed check changes nothing but the flag and shows the error only when the flag was clear; a pass clears the flag, saves the step under its key only, moves the cursor by one and restores the next step; `onFormFinished` is called exactly when the last step passed |
| Controller.FragmentNextStep | library/src/main/java/com/heinrichreimersoftware/singleinputform/SingleInputFragment.kt:336-354 | the Fragment's `nextStep` makes exactly the Activity's transitions; only a pass on the last step differs, by the missing close |
| Controller.PreviousStep | library/src/main/java/com/heinrichreimersoftware/singleinputform/SingleInputFormActivity.java:371-375 | fails exactly unless `0 < index < size`; saves the current step into the bag and moves back one, leaving `errored` alone; the earlier step is restored from the updated bag and shown with a blank error line as the single effect; no other step changes |
| Controller.FragmentPreviousStep | library/src/main/java/com/heinrichreimersoftware/singleinputform/SingleInputFragment.kt:330-334 | the Fragment's `previousStep` equals the Activity's; on the first step it moves the cursor to -1 and fails, because no Back guard calls it |
| Controller.BackPressed | library/src/main/java/com/heinrichreimersoftware/singleinputform/SingleInputFormActivity.java:99-107 | Back on the first step closes the host and changes nothing; elsewhere it is `previousStep` |
| Controller.ActivityCursorStaysInRange | library/src/main/java/com/heinrichreimersoftware/singleinputform/SingleInputFormActivity.java:99-107 | in the Activity, Next and Back from any shown step succeed and keep the cursor in `[0, size]`; Back never moves it below 0 |
| Controller.SaveInstanceState | library/src/main/java/com/heinrichreimersoftware/singleinputform/SingleInputFormActivity.java:145-151 | the current step is folded into the bag first; then the bag (or null) and the cursor are written, and no other key of `outState` changes after the platform's own entries (see Left out); fails without a current step; the Fragment's `onSaveInstanceState` is the same code |
| Controller.ReadInstanceState | library/src/main/java/com/heinrichreimersoftware/singleinputform/SingleInputFormActivity.java:137-143 | the bag is the saved bundle under `key_data` (null if absent) and the cursor the saved int with default 0; nothing else changes; the Fragment's `onCreateView` and `onActivityCreated` read the same way |
| Controller.ReadInstanceStateTwice | library/src/main/java/com/heinrichreimersoftware/singleinputform/SingleInputFormActivity.java:137-143 | `onRestoreInstanceState`, reading the same saved state again after `onCreate` has shown a step, changes nothing; so does the Fragment's `onActivityCreated` after `onCreateView` |
| Controller.InstanceStateRoundTrip | library/src/main/java/com/heinrichreimersoftware/singleinputform/SingleInputFormActivity.java:145-151 | reading back what `onSaveInstanceState` wrote restores exactly the folded bag and the cursor |
| Controller.ResumeAfterRestart | library/src/main/java/com/heinrichreimersoftware/singleinputform/SingleInputFormActivity.java:110-134 | after a restart, the saved cursor and bag are adopted verbatim, nothing is validated, only the current step is restored and shown; a cursor at or past the end finishes at once; without saved state a new Activity starts on step 0 with an empty bag and `errored` clear, while a Fragment whose view is re-created keeps its cursor, bag and `error` (`SingleInputFragment.kt` lines 26-51 and 67-70) |
| Navigation.Advance | library/src/main/java/com/heinrichreimersoftware/singleinputform/SingleInputFormActivity.java:377-396 | repeated taps on next keep the step list and the live values well formed |
| Navigation.CompletionRun | library/src/main/java/com/heinrichreimersoftware/singleinputform/SingleInputFormActivity.java:377-396 | when each step passes its check on the value it holds when the run reaches it (no input between taps), one tap per remaining step reaches the end; `onFormFinished` is called exactly once, last before the Activity closes; the bag has gained exactly the passed steps' keys, each holding a nested bundle, and nothing else in it changed |
| Navigation.AcceptingFormPasses | library/src/main/java/com/heinrichreimersoftware/singleinputform/steps/TextStep.java:52-72 | a form whose every step accepts whatever it holds, as one built only with checker-less constructors, meets no refusal on any run from a shown step |
| Navigation.BackSavesLeftStep | library/src/main/java/com/heinrichreimersoftware/singleinputform/SingleInputFormActivity.java:371-375 | Back from a later step leaves that step's saved bundle in the bag under its key and does not touch `errored` |
| Navigation.ForwardRestores | library/src/main/java/com/heinrichreimersoftware/singleinputform/SingleInputFormActivity.java:377-396 | a pass on the step before a saved one shows that step restored from the bag, when the two keys differ |
| Navigation.BackThenForward | library/src/main/java/com/heinrichreimersoftware/singleinputform/SingleInputFormActivity.java:371-396 | when the two steps use different data keys, Back then Next (the earlier step passing) returns to the same step with the same answer, not a default; with equal keys the earlier step's save overwrites the later one's entry and no such promise holds |
| Navigation.ErrorSuppressedAfterBack | library/src/main/java/com/heinrichreimersoftware/singleinputform/SingleInputFormActivity.java:371-396 | a failed check shows the error once; Back blanks the error line but keeps `errored`, so a failed check on the earlier step shows nothing and changes nothing |
| SampleForm.EulaMustBeTicked | example/src/main/java/com/heinrichreimersoftware/singleinputform/example/MainActivity.java:54 | the licence step passes exactly when the box is ticked |
| SampleForm.PasswordNeedsFiveCharacters | example/src/main/java/com/heinrichreimersoftware/singleinputform/example/MainActivity.java:76 | the password step passes exactly when `length()`, counted in UTF-16 code units, is at least five: three emoji (six units) pass, four letters fail |
| SampleForm.HeightThreshold | example/src/main/java/com/heinrichreimersoftware/singleinputform/example/MainActivity.java:102 | the height slider passes exactly from 160 on: 150 and 159 fail, 160 and 180 pass |
| SampleForm.CityAcceptsAnything | example/src/main/java/com/heinrichreimersoftware/singleinputform/example/MainActivity.java:110 | the city step, built without a checker, accepts every text |
| SampleForm.FinishedBagReadBack | example/src/main/java/com/heinrichreimersoftware/singleinputform/example/MainActivity.java:117-125 | the accessors in `onFormFinished` read back the saved answers and return sentinels for steps never saved or a null bag |
| SampleForm.EulaKind | example/src/main/java/com/heinrichreimersoftware/singleinputform/example/MainActivity.java:51-59 | the licence step is a check box labelled by its resource, whose checker reports valid exactly when the box is ticked |
| SampleForm.PasswordKind | example/src/main/java/com/heinrichreimersoftware/singleinputform/example/MainActivity.java:72-82 | the password step is a text step of the given input type whose checker accepts exactly the inputs of `length()` at least five |
| SampleForm.HeightKind | example/src/main/java/com/heinrichreimersoftware/singleinputform/example/MainActivity.java:98-108 | the height step is a slider from 150 to 180 whose checker reports valid exactly from 160 on |
| SampleForm.CityKind | example/src/main/java/com/heinrichreimersoftware/singleinputform/example/MainActivity.java:109-111 | the city step is a text step of the given input type built without a checker |

## Left out

- Theme loading, colours, drawables, animations, text switchers, scrolling and the finished view: UI toolkit calls with no logic. `onCreateFinishedView` returns null anyway.
- Showing and hiding the soft keyboard: platform I/O. It appears only as the `keyboardShown` flag of `TextSteps.UpdateView`.
- `AlertDialog`, `DatePickerDialog`, `GregorianCalendar` and `SimpleDateFormat`: locale and calendar libraries. A dialog result is an event that sets the live value (`OptionSteps.Pick`, `DateSteps.DateSet`). The formatted date is the opaque `DateLabel.Formatted`.
- `DiscreteSeekBar` internals: any clamping of progress to `[min, max]` and the slider's initial progress live in a library that is not part of this model.
- `widgets/CheckBoxCompat.java`: floating-point padding arithmetic over the platform.
- The callback timing of `StepCheckerCallback`: it is treated as synchronous, and the message of `onInputInvalid(error)` is carried but never shown, as in `nextStep`.
- The process-wide static step list: the model takes an explicit, fixed list `configs` with the steps' live states alongside.
- `super.onSaveInstanceState` inside `onRestoreInstanceState`: lifecycle plumbing.
- Controller.SaveInstanceState: `outState` stands for the bundle after `super.onSaveInstanceState(outState)` has written the platform's own entries (view hierarchy, fragments). Those entries are not modelled, and the frame "no other key changes" covers only the two puts the library makes after that call.
- Object identity of bundles: `save` and `restore` mutate `mData` and the bag in place and return the same bag, and two steps with the same data key share one `mData` object after a restore. The model uses value semantics. With a null bag nothing is shared through it, since `save` then runs `onSave` and skips the `putBundle`. Every restore from a bag that holds the key replaces `mData` by that entry, which is what `Steps.Restore` does.
- State left behind by an exception: when `getCurrentStep()` throws after part of a handler ran, the model returns a `Fault` and drops that partial state. An example is the Fragment's `previousStep` on the first step, which has already saved into the bag.
- A null data key, and the text an `EditText` holds before its first restore: the model takes the steps' starting values as given (`built`), and a text field becomes "" only when `Steps.Restore` runs on a first visit (`Steps.RestoreFirstVisit`).
- The example app's e-mail pattern and "at least 14 years old" check: they depend on `android.util.Patterns` and the clock.
- Controller.Create: has no contract of its own. Its behaviour is stated by `Controller.ResumeAfterRestart` and `Controller.ReadInstanceStateTwice`.
