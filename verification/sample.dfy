/** The sample form of the example app, as concrete steps: the checkers it
    installs and what they accept. The e-mail pattern and the "at least 14
    years old" check depend on `Patterns` and the clock and are not part of
    this model. */
module SampleForm {
  import opened Platform
  import opened Callbacks
  import Steps
  import TextSteps
  import CheckBoxSteps
  import SeekBarSteps

  const KeyEula: string := "eula"
  const KeyPassword: string := "password"
  const KeyHeight: string := "height"
  const KeyCity: string := "city"

  /** The licence box: valid only when ticked. */
  function EulaKind(textResId: Int32): (kind: Steps.Kind)
    ensures kind.CheckBoxKind? && kind.textResId == textResId && kind.text.None?
    ensures forall checked :: kind.checker(checked).Valid? <==> checked
  {
    Steps.CheckBoxKind(textResId, None, checked => if checked then Valid else Invalid(None))
  }

  /** The password field: `length()` at least five, counted in UTF-16
      code units. */
  function PasswordKind(inputType: Int32): (kind: Steps.Kind)
    ensures kind.TextKind? && kind.inputType == inputType
    ensures forall input :: kind.textChecker(input) <==> Utf16Length(input) >= 5
  {
    Steps.TextKind(inputType, input => Utf16Length(input) >= 5)
  }

  /** The height slider from 150 to 180: valid from 160 on. */
  function HeightKind(): (kind: Steps.Kind)
    ensures kind.SeekBarKind? && kind.min == 150 && kind.max == 180
    ensures forall progress :: kind.progressChecker(progress).Valid? <==> progress >= 160
  {
    Steps.SeekBarKind(150, 180, progress => if progress >= 160 then Valid else Invalid(None))
  }

  /** The city field, built without a checker. */
  function CityKind(inputType: Int32): (kind: Steps.Kind)
    ensures kind.TextKind? && kind.inputType == inputType
    ensures Steps.DefaultChecked(kind)
  {
    Steps.TextKind(inputType, TextSteps.AcceptAll())
  }

  lemma EulaMustBeTicked(textResId: Int32, checked: bool)
    ensures Steps.Validate(EulaKind(textResId), Steps.CheckBoxValue(checked)) <==> checked
  {
  }

  /** The password check counts UTF-16 code units: three emoji are six
      units and pass, four letters do not. */
  lemma PasswordNeedsFiveCharacters(inputType: Int32, text: string)
    ensures Steps.Validate(PasswordKind(inputType), Steps.TextValue(text)) <==> Utf16Length(text) >= 5
    ensures Steps.Validate(PasswordKind(inputType), Steps.TextValue("\U{1F600}\U{1F600}\U{1F600}"))
    ensures !Steps.Validate(PasswordKind(inputType), Steps.TextValue("abcd"))
    ensures Steps.Validate(PasswordKind(inputType), Steps.TextValue("abcde"))
  {
  }

  /** The slider's threshold: 159 and the minimum 150 are refused, 160 and
      the maximum 180 are accepted. */
  lemma HeightThreshold(progress: Int32)
    ensures Steps.Validate(HeightKind(), Steps.SeekBarValue(progress)) <==> progress >= 160
    ensures !Steps.Validate(HeightKind(), Steps.SeekBarValue(159))
    ensures !Steps.Validate(HeightKind(), Steps.SeekBarValue(150))
    ensures Steps.Validate(HeightKind(), Steps.SeekBarValue(160))
    ensures Steps.Validate(HeightKind(), Steps.SeekBarValue(180))
  {
  }

  lemma CityAcceptsAnything(inputType: Int32, text: string)
    ensures Steps.Validate(CityKind(inputType), Steps.TextValue(text))
  {
  }

  /** The bag `onFormFinished` reads after the licence was accepted and a
      height entered: the answers come back through the static accessors,
      and a step never saved yields the sentinels. */
  lemma FinishedBagReadBack(height: Int32)
    ensures var bag := map[
              KeyEula := BundleV(CheckBoxSteps.OnSave(map[], true)),
              KeyHeight := BundleV(SeekBarSteps.OnSave(map[], height))];
            && CheckBoxSteps.Checked(Some(bag), KeyEula)
            && SeekBarSteps.Progress(Some(bag), KeyHeight) == height
            && TextSteps.Text(Some(bag), KeyCity) == None
            && SeekBarSteps.Progress(Some(bag), KeyPassword) == -1
            && !CheckBoxSteps.Checked(None, KeyEula)
  {
  }
}
