/** One rendered field: the label above it, the control chosen by its `type`,
    and the multi-select control with its open/closed state and its selection. */
module FormField {
  import opened Schema
  import opened FormState
  import Text

  /** The types the control switch knows. */
  const LeafKinds: set<string> := {"text", "email", "tel", "number", "textarea", "select", "multiselect", "checkbox", "date"}

  /** The types whose control is registered with the field's `required` flag. */
  const RequiredKinds: set<string> := {"text", "email", "tel", "number", "textarea", "select", "date"}

  /** The empty first entry of every select box. */
  const SelectPlaceholder: Choice := Choice("", "Select an option")

  /** How a control is bound to the form store at its path. */
  datatype Binding =
    | Registered(path: string, required: bool)  // `register(path, { required })`
    | RegisteredPlain(path: string)             // `register(path)`, no constraints
    | WrittenByControl(path: string)            // not registered; the control calls `setValue(path, …)`

  datatype Control =
    | Input(inputType: string, placeholder: Option<string>)
    | TextArea(placeholder: Option<string>, rows: nat)
    | SelectBox(choices: seq<Choice>)
    | MultiSelectBox
    | CheckboxInput(caption: string)

  datatype Widget = Widget(control: Control, binding: Binding)

  /** The label above a field: its text, and whether the red asterisk follows it. */
  datatype LabelView = LabelView(text: string, asterisk: bool)

  /** What one field renders: an optional label and an optional control. */
  datatype FieldView = FieldView(heading: Option<LabelView>, widget: Option<Widget>)

  /** The control switch on the field's type, for a field rendered at `path`. */
  function RenderWidget(path: string, n: FieldNode): (r: Option<Widget>)
    ensures r.Some? <==> n.kind in LeafKinds
    ensures r.Some? ==> (r.value.binding == Registered(path, n.required) <==> n.kind in RequiredKinds)
    ensures r.Some? ==> (r.value.binding == RegisteredPlain(path) <==> n.kind == "checkbox")
    ensures r.Some? ==> (r.value.binding == WrittenByControl(path) <==> n.kind == "multiselect")
    ensures n.kind in {"text", "email", "tel", "number"} ==> r.value.control == Input(n.kind, n.placeholder)
    ensures n.kind == "date" ==> r.value.control == Input("datetime-local", None)
    ensures n.kind == "select" ==> r.value.control.SelectBox? && r.value.control.choices == [SelectPlaceholder] + n.options
    ensures n.kind == "checkbox" ==> r.value.control == CheckboxInput(n.caption)
  {
    match n.kind
    case "text" => Some(Widget(Input(n.kind, n.placeholder), Registered(path, n.required)))
    case "email" => Some(Widget(Input(n.kind, n.placeholder), Registered(path, n.required)))
    case "tel" => Some(Widget(Input(n.kind, n.placeholder), Registered(path, n.required)))
    case "number" => Some(Widget(Input(n.kind, n.placeholder), Registered(path, n.required)))
    case "textarea" => Some(Widget(TextArea(n.placeholder, 4), Registered(path, n.required)))
    case "select" => Some(Widget(SelectBox([SelectPlaceholder] + n.options), Registered(path, n.required)))
    case "multiselect" => Some(Widget(MultiSelectBox, WrittenByControl(path)))
    case "checkbox" => Some(Widget(CheckboxInput(n.caption), RegisteredPlain(path)))
    case "date" => Some(Widget(Input("datetime-local", None), Registered(path, n.required)))
    case _ => None
  }

  /** The label: shown for every type except checkbox (which labels its own box),
      with an asterisk exactly when the field is required. */
  function RenderLabel(n: FieldNode): (r: Option<LabelView>)
    ensures r.Some? <==> n.kind != "checkbox"
    ensures r.Some? ==> r.value.text == n.caption && (r.value.asterisk <==> n.required)
  {
    if n.kind != "checkbox" then Some(LabelView(n.caption, n.required)) else None
  }

  /** The whole field: label, then control.  A type the switch does not know still
      gets its label but no control. */
  function RenderFormField(path: string, n: FieldNode): (r: FieldView)
    ensures n.kind !in LeafKinds ==> r.heading == Some(LabelView(n.caption, n.required)) && r.widget == None
    ensures n.kind == "checkbox" ==> r.heading == None && r.widget == Some(Widget(CheckboxInput(n.caption), RegisteredPlain(path)))
    ensures n.kind in RequiredKinds ==> r.heading.Some? && r.widget.Some? && r.widget.value.binding.path == path
  {
    FieldView(RenderLabel(n), RenderWidget(path, n))
  }

  // ---------------------------------------------------------------------------
  // Multi-select selection

  /** `watch(id) || []`: the current selection; an unset (or otherwise falsy) value
      reads as the empty list. */
  function SelectedValues(v: Option<Value>): (r: seq<string>)
    ensures !Truthy(v) ==> r == []
    ensures v.Some? && v.value.List? ==> r == v.value.items
  {
    match v
    case Some(List(xs)) => xs
    case _ => []
  }

  /** r is obtained from s by deleting some elements, keeping the rest in order. */
  ghost predicate IsSubsequence(r: seq<string>, s: seq<string>)
    decreases |s|
  {
    || r == []
    || (&& s != []
        && ((r[0] == s[0] && IsSubsequence(r[1..], s[1..])) || IsSubsequence(r, s[1..])))
  }

  /** `selected.filter(x => x !== v)`. */
  function RemoveAll(s: seq<string>, v: string): (r: seq<string>)
    ensures v !in r
    ensures v !in s ==> r == s
  {
    if s == [] then []
    else
      var rest := RemoveAll(s[1..], v);
      if s[0] == v then rest else [s[0]] + rest
  }

  /** Filtering drops every occurrence of the value and keeps the number of
      occurrences of every other value. */
  lemma {:induction false} RemoveAllCounts(s: seq<string>, v: string)
    ensures multiset(RemoveAll(s, v)) == multiset(s)[v := 0]
  {
    if s != [] {
      RemoveAllCounts(s[1..], v);
      assert s == [s[0]] + s[1..];
    }
  }

  /** Filtering keeps the surviving values in their original order. */
  lemma {:induction false} RemoveAllKeepsOrder(s: seq<string>, v: string)
    ensures IsSubsequence(RemoveAll(s, v), s)
  {
    if s != [] {
      RemoveAllKeepsOrder(s[1..], v);
      var rest := RemoveAll(s[1..], v);
      if s[0] != v {
        assert ([s[0]] + rest)[1..] == rest;
      }
    }
  }

  /** Filtering distributes over concatenation. */
  lemma {:induction false} RemoveAllAppend(a: seq<string>, b: seq<string>, v: string)
    ensures RemoveAll(a + b, v) == RemoveAll(a, v) + RemoveAll(b, v)
  {
    if a == [] {
      assert a + b == b;
    } else {
      var t := a[1..];
      var ab := a + b;
      assert ab[0] == a[0] && ab[1..] == t + b;
      RemoveAllAppend(t, b, v);
      var rt, rb := RemoveAll(t, v), RemoveAll(b, v);
      if a[0] == v {
        assert RemoveAll(ab, v) == RemoveAll(t + b, v);
        assert RemoveAll(a, v) == rt;
      } else {
        assert RemoveAll(ab, v) == [a[0]] + (rt + rb);
        assert RemoveAll(a, v) == [a[0]] + rt;
        Text.ConcatAssoc([a[0]], rt, rb);
      }
    }
  }

  /** The selection after an option's box changes to `checked`: checking appends
      the option's value at the end; unchecking removes every occurrence of it and
      keeps the other values in their order. */
  function NewSelection(selected: seq<string>, value: string, checked: bool): (r: seq<string>)
    ensures checked ==> |r| == |selected| + 1 && r[..|selected|] == selected && r[|selected|] == value
    ensures !checked ==> value !in r && multiset(r) == multiset(selected)[value := 0]
  {
    if checked then selected + [value]
    else
      RemoveAllCounts(selected, value);
      RemoveAll(selected, value)
  }

  /** A click on an option flips its box, whose checked state is membership. */
  function ToggleValue(selected: seq<string>, value: string): (r: seq<string>)
    ensures value in selected ==> value !in r
    ensures value in selected ==> multiset(r) == multiset(selected)[value := 0] && IsSubsequence(r, selected)
    ensures value !in selected ==> r == selected + [value]
  {
    if value in selected then
      RemoveAllCounts(selected, value);
      RemoveAllKeepsOrder(selected, value);
      NewSelection(selected, value, false)
    else
      NewSelection(selected, value, true)
  }

  /** After a change the option's box shows the new state: its value is selected
      exactly when the box was checked. */
  lemma ChangeShowsNewState(selected: seq<string>, value: string, checked: bool)
    ensures value in NewSelection(selected, value, checked) <==> checked
  {
    if checked {
      assert NewSelection(selected, value, checked)[|selected|] == value;
    }
  }

  /** Checking a value not yet selected and then unchecking it restores the selection. */
  lemma CheckThenUncheckRestores(selected: seq<string>, value: string)
    requires value !in selected
    ensures NewSelection(NewSelection(selected, value, true), value, false) == selected
  {
    RemoveAllAppend(selected, [value], value);
    assert RemoveAll([value], value) == [];
  }

  /** Clicking the same option twice, starting without it, restores the selection. */
  lemma ToggleTwiceRestores(selected: seq<string>, value: string)
    requires value !in selected
    ensures ToggleValue(ToggleValue(selected, value), value) == selected
  {
    CheckThenUncheckRestores(selected, value);
  }

  /** Toggling B, then A, then B, starting from nothing, leaves only A selected. */
  lemma ToggleSequenceExample()
    ensures ToggleValue(ToggleValue(ToggleValue([], "B"), "A"), "B") == ["A"]
  {
    assert ToggleValue([], "B") == ["B"];
    assert ToggleValue(["B"], "A") == ["B", "A"];
    assert RemoveAll(["B", "A"], "B") == RemoveAll(["A"], "B");
  }

  /** The header text of a closed or open multi-select: it asks for a choice
      exactly when nothing is selected, and otherwise names the number of
      selected values in decimal, followed by " selected". */
  function Summary(selected: seq<string>): (r: string)
    ensures r == "Select options" <==> |selected| == 0
    ensures |selected| > 0 ==> exists digits: string ::
      && r == digits + " selected"
      && Text.IsCanonicalNumeral(digits)
      && Text.DecimalValue(digits) == |selected|
  {
    if |selected| > 0 then
      var digits := Text.NatToString(|selected|);
      Text.NatToStringRoundTrip(|selected|);
      var shown := digits + " selected";
      assert shown[|shown| - 1] == 'd';
      shown
    else
      "Select options"
  }

  /** One row of the open option list: the option and whether its box is checked. */
  datatype OptionRow = OptionRow(choice: Choice, checked: bool)

  /** A multi-select control.  Its open flag is local state of the field; its
      selection lives in the form store at `id`. */
  class MultiSelect {
    const id: string
    const options: seq<Choice>
    var isOpen: bool

    /** A control starts closed. */
    constructor (id: string, options: seq<Choice>)
      ensures this.id == id && this.options == options && !isOpen
    {
      this.id := id;
      this.options := options;
      isOpen := false;
    }

    /** A click on the header flips the open flag of this control only. */
    method ToggleOpen()
      modifies this
      ensures isOpen == !old(isOpen)
    {
      isOpen := !isOpen;
    }

    /** The header text for the selection currently stored at this control's path. */
    function Header(st: Store): (r: string)
      reads this
      ensures r == "Select options" <==> SelectedValues(Lookup(st, id)) == []
    {
      Summary(SelectedValues(Lookup(st, id)))
    }

    /** The option list: absent while closed; while open, every option in order,
        each checked exactly when its value is in the stored selection. */
    function OptionRows(st: Store): (r: seq<OptionRow>)
      reads this
      ensures !isOpen ==> r == []
      ensures isOpen ==> |r| == |options|
      ensures isOpen ==> forall i :: 0 <= i < |r| ==>
        r[i].choice == options[i] && (r[i].checked <==> options[i].value in SelectedValues(Lookup(st, id)))
    {
      if !isOpen then []
      else
        var selected := SelectedValues(Lookup(st, id));
        seq(|options|, i requires 0 <= i < |options| => OptionRow(options[i], options[i].value in selected))
    }

    /** An option's box changed to `checked` (only possible while the list is open):
        the new selection is written back to the store at this control's path. */
    method ChangeOption(store: FormStore, option: Choice, checked: bool)
      requires isOpen && option in options
      modifies store
      ensures store.values == old(store.values)[id := List(NewSelection(SelectedValues(Lookup(old(store.values), id)), option.value, checked))]
      ensures forall i :: 0 <= i < |options| && options[i].value == option.value ==> OptionRows(store.values)[i].checked == checked
    {
      var selected := SelectedValues(store.Watch(id));
      store.SetValue(id, List(NewSelection(selected, option.value, checked)));
      ChangeShowsNewState(selected, option.value, checked);
    }
  }
}
