/** `OptionStep`: a single choice from a list, shown in a non-typable text
    field that opens a picker dialog. It is a `TextStep` whose checker asks
    for a non-empty text; it persists the selected position, not the text. */
module OptionSteps {
  import opened Platform
  import TextSteps

  const DataSelectedOption: string := "data_selected_option"

  /** The position of a step on which nothing was picked yet. */
  const Unselected: Int32 := -1

  /** The live state: the text in the field and the selected position. */
  datatype Selection = Selection(text: string, selected: Int32)

  /** A freshly built step: empty field, nothing selected. */
  const Fresh: Selection := Selection("", Unselected)

  /** The checker every constructor installs: `!TextUtils.isEmpty(input)`. */
  function NonEmpty(): (checker: TextSteps.Checker)
    ensures forall input :: checker(input) <==> input != ""
  {
    input => |input| > 0
  }

  /** `updateText()`: shows `options[selected]` when the position is inside
      the list and leaves the text alone otherwise. */
  function UpdateText(options: seq<string>, sel: Selection): (r: Selection)
    ensures r.selected == sel.selected
    ensures 0 <= sel.selected < |options| ==> r.text == options[sel.selected]
    ensures !(0 <= sel.selected < |options|) ==> r == sel
  {
    if 0 <= sel.selected < |options| then sel.(text := options[sel.selected]) else sel
  }

  /** The dialog's item listener: position `which` was picked. */
  function Pick(options: seq<string>, sel: Selection, which: Int32): (r: Selection)
    ensures r.selected == which
    ensures 0 <= which < |options| ==> r.text == options[which]
  {
    UpdateText(options, sel.(selected := which))
  }

  /** The static accessor `selectedOption(data, dataKey)`: -1 when anything
      on the way to the stored position is missing. */
  function SelectedOption(data: Option<Bundle>, dataKey: string): (r: Int32)
    ensures !HasNested(data, dataKey) ==> r == Unselected
    ensures HasNested(data, dataKey) ==>
              r == GetInt(Nested(data, dataKey), DataSelectedOption, Unselected)
  {
    NestedInt(data, dataKey, DataSelectedOption, Unselected)
  }

  /** `onSave()`: records the selected position, -1 included. */
  function OnSave(data: Bundle, sel: Selection): (r: Bundle)
    ensures DataSelectedOption in r && r[DataSelectedOption] == IntV(sel.selected)
    ensures AgreeExcept(data, r, {DataSelectedOption})
  {
    data[DataSelectedOption := IntV(sel.selected)]
  }

  /** `onRestore()`: adopts a stored position only when it is >= 0, and
      then refreshes the text; otherwise the selection is left as it was. */
  function OnRestore(options: seq<string>, data: Bundle, sel: Selection): (r: Selection)
    ensures GetInt(data, DataSelectedOption, Unselected) >= 0 ==>
              r == UpdateText(options, sel.(selected := data[DataSelectedOption].i))
    ensures GetInt(data, DataSelectedOption, Unselected) < 0 ==> r == sel
  {
    var stored := GetInt(data, DataSelectedOption, Unselected);
    if stored >= 0 then UpdateText(options, sel.(selected := stored)) else sel
  }

  /** The shape every selection reachable through the picker has: nothing
      selected and an empty field, or a position inside the list with its
      option in the field. */
  predicate Consistent(options: seq<string>, sel: Selection) {
    || sel == Fresh
    || (0 <= sel.selected < |options| && sel.text == options[sel.selected])
  }

  /** Picking an offered position, or restoring a position inside the list,
      keeps a selection consistent. */
  lemma PickAndRestoreKeepConsistent(options: seq<string>, sel: Selection, which: Int32, data: Bundle)
    requires Consistent(options, sel)
    requires 0 <= which < |options|
    requires GetInt(data, DataSelectedOption, Unselected) < |options|
    ensures Consistent(options, Pick(options, sel, which))
    ensures Consistent(options, OnRestore(options, data, sel))
  {
  }

  /** When no option is the empty string, a consistent selection passes the
      step's checker exactly when a position was picked. */
  lemma ValidIffSelected(options: seq<string>, sel: Selection)
    requires Consistent(options, sel)
    requires forall i :: 0 <= i < |options| ==> options[i] != ""
    ensures NonEmpty()(sel.text) <==> sel.selected >= 0
  {
  }

  /** The resource-id constructors: one option per id, the string resolved
      through `getString`, a null string replaced by "". */
  method OptionsFromResources(ids: seq<Int32>, getString: Int32 -> Option<string>) returns (options: seq<string>)
    ensures |options| == |ids|
    ensures forall i :: 0 <= i < |ids| ==>
              options[i] == (match getString(ids[i]) case Some(s) => s case None => "")
  {
    options := [];
    var i := 0;
    while i < |ids|
      invariant 0 <= i <= |ids|
      invariant |options| == i
      invariant forall j :: 0 <= j < i ==>
                  options[j] == (match getString(ids[j]) case Some(s) => s case None => "")
    {
      var option := getString(ids[i]);
      match option {
        case Some(s) => options := options + [s];
        case None => options := options + [""];
      }
      i := i + 1;
    }
  }
}
