/** The EntryForm component of src/components/EntryForm.tsx: five pieces
    of form state, the handlers that add and remove labels, and the submit
    handler that hands the fields on and clears the form. */
module EntryForm {
  import opened Types
  import opened JsText
  import opened JsArray

  // ---------------------------------------------------------------- the label list

  /** The lists `handleAddLabel` builds: every label non-empty and trimmed,
      no label twice. */
  predicate LabelList(labels: seq<string>) {
    && (forall i :: 0 <= i < |labels| ==> labels[i] != "" && IsTrimmed(labels[i]))
    && Distinct(labels)
  }

  /** `handleAddLabel` takes the typed text when, trimmed, it is non-empty
      and not listed yet. */
  predicate TakesLabel(labels: seq<string>, current: string) {
    Trim(current) != "" && Trim(current) !in labels
  }

  /** The label list after `handleAddLabel`. */
  function AddLabelTo(labels: seq<string>, current: string): seq<string> {
    if TakesLabel(labels, current) then labels + [Trim(current)] else labels
  }

  /** Adding a label keeps the list's shape. */
  lemma AddLabelKeepsLabelList(labels: seq<string>, current: string)
    requires LabelList(labels)
    ensures LabelList(AddLabelTo(labels, current))
  {
    if TakesLabel(labels, current) {
      var r := labels + [Trim(current)];
      forall i, j | 0 <= i < j < |r| ensures r[i] != r[j] {
        assert r[i] == labels[i];
        if j == |labels| {
          assert labels[i] in labels;
        } else {
          assert r[j] == labels[j];
        }
      }
    }
  }

  /** Afterwards the list holds the old labels, in place, and the trimmed
      text unless it is blank; a listed label is never added twice. */
  lemma AddLabelMembers(labels: seq<string>, current: string)
    ensures forall l :: l in AddLabelTo(labels, current) <==> l in labels || (l == Trim(current) && l != "")
    ensures AddLabelTo(labels, current)[..|labels|] == labels
    ensures |AddLabelTo(labels, current)| <= |labels| + 1
    ensures Trim(current) in labels ==> AddLabelTo(labels, current) == labels
  {
  }

  /** Surrounding whitespace does not matter: typing " x " adds what typing
      "x" adds. */
  lemma AddLabelIgnoresPadding(labels: seq<string>, current: string)
    ensures AddLabelTo(labels, Trim(current)) == AddLabelTo(labels, current)
  {
    TrimIdempotent(current);
  }

  /** Adding the same text a second time changes nothing. */
  lemma AddLabelIdempotent(labels: seq<string>, current: string)
    ensures AddLabelTo(AddLabelTo(labels, current), current) == AddLabelTo(labels, current)
  {
    if TakesLabel(labels, current) {
      assert Trim(current) in labels + [Trim(current)];
    }
  }

  /** The test `handleRemoveLabel` filters with: another label. */
  function Differs(name: string): string -> bool {
    (l: string) => l != name
  }

  /** `labels.filter((l) => l !== label)`, with `name` for `label`. */
  function Without(labels: seq<string>, name: string): (r: seq<string>)
    ensures forall k :: 0 <= k < |r| ==> r[k] != name
  {
    Filter(labels, Differs(name))
  }

  /** Exactly the other labels stay. */
  lemma WithoutMembers(labels: seq<string>, name: string)
    ensures forall l :: l in Without(labels, name) <==> l in labels && l != name
  {
    FilterMembers(labels, Differs(name));
  }

  /** Removing a label keeps the list's shape. */
  lemma WithoutKeepsLabelList(labels: seq<string>, name: string)
    requires LabelList(labels)
    ensures LabelList(Without(labels, name))
  {
    var r := Without(labels, name);
    FilterMembers(labels, Differs(name));
    FilterDistinct(labels, Differs(name));
    forall i | 0 <= i < |r| ensures r[i] != "" && IsTrimmed(r[i]) {
      assert r[i] in labels;
    }
  }

  /** Removing a listed label takes out exactly that one and keeps the
      others in order. */
  lemma WithoutListed(labels: seq<string>, i: nat)
    requires LabelList(labels) && i < |labels|
    ensures Without(labels, labels[i]) == labels[..i] + labels[i + 1..]
  {
    forall j | 0 <= j < |labels| && j != i ensures Differs(labels[i])(labels[j]) {
      if j < i { assert labels[j] != labels[i]; } else { assert labels[i] != labels[j]; }
    }
    FilterDropsOne(labels, i, Differs(labels[i]));
  }

  /** Removing a label that is not listed changes nothing. */
  lemma WithoutUnlisted(labels: seq<string>, name: string)
    requires name !in labels
    ensures Without(labels, name) == labels
  {
    forall i | 0 <= i < |labels| ensures Differs(name)(labels[i]) {
      assert labels[i] in labels;
    }
    FilterAllKept(labels, Differs(name));
  }

  // ---------------------------------------------------------------- the form

  /** `title && category`: both non-empty as typed, whitespace included. */
  predicate CanSubmit(title: string, category: string) {
    title != "" && category != ""
  }

  class Form {
    var title: string
    var description: string
    var category: string
    var currentLabel: string
    var labels: seq<string>

    ghost predicate Valid()
      reads this`labels
    {
      LabelList(labels)
    }

    constructor ()
      ensures Valid()
      ensures title == "" && description == "" && category == "" && currentLabel == "" && labels == []
    {
      title := "";
      description := "";
      category := "";
      currentLabel := "";
      labels := [];
    }

    /** `handleAddLabel`: a taken label goes to the end of the list and the
        label field is cleared; otherwise both stay as they are. */
    method AddLabel()
      requires Valid()
      modifies this`labels, this`currentLabel
      ensures Valid()
      ensures labels == AddLabelTo(old(labels), old(currentLabel))
      ensures currentLabel == if TakesLabel(old(labels), old(currentLabel)) then "" else old(currentLabel)
    {
      AddLabelKeepsLabelList(labels, currentLabel);
      var trimmed := Trim(currentLabel);
      if trimmed != "" && trimmed !in labels {
        labels := labels + [trimmed];
        currentLabel := "";
      }
    }

    /** `handleRemoveLabel`. */
    method RemoveLabel(name: string)
      requires Valid()
      modifies this`labels
      ensures Valid()
      ensures labels == Without(old(labels), name)
    {
      WithoutKeepsLabelList(labels, name);
      labels := Without(labels, name);
    }

    /** `handleSubmit`: with a title and a category, hand the four fields
        on and clear them; the label field keeps what was typed. Otherwise
        nothing is handed on and nothing changes. */
    method Submit() returns (submitted: Option<EntryData>)
      requires Valid()
      modifies this`title, this`description, this`category, this`labels
      ensures Valid()
      ensures CanSubmit(old(title), old(category)) ==>
        && submitted == Some(EntryData(old(title), old(description), old(category), old(labels)))
        && title == "" && description == "" && category == "" && labels == []
      ensures !CanSubmit(old(title), old(category)) ==>
        && submitted == None
        && title == old(title) && description == old(description)
        && category == old(category) && labels == old(labels)
      ensures currentLabel == old(currentLabel)
    {
      if title != "" && category != "" {
        submitted := Some(EntryData(title, description, category, labels));
        title := "";
        description := "";
        category := "";
        labels := [];
      } else {
        submitted := None;
      }
    }
  }

  // ---------------------------------------------------------------- a session

  lemma TrimPadded()
    ensures Trim(" focus ") == "focus"
  {
    var s := " focus ";
    assert LeadingSpaces(s) == 1 by {
      assert !IsTrimSpace(s[1..][0]);
    }
    var rest := s[1..];
    assert rest == "focus ";
    assert TrailingSpaces(rest) == 1 by {
      assert rest[..5] == "focus";
      assert !IsTrimSpace(rest[..5][4]);
    }
    assert rest[..5] == "focus";
  }

  /** The label lists the session below goes through. */
  lemma SessionLabels()
    ensures AddLabelTo([], " focus ") == ["focus"]
    ensures AddLabelTo(["focus"], " focus ") == ["focus"]
    ensures AddLabelTo(["focus"], "review") == ["focus", "review"]
    ensures Without(["focus", "review"], "focus") == ["review"]
  {
    TrimPadded();
    TrimmedIsFixed("review");
    assert "focus" in ["focus"];
    assert LabelList(["focus", "review"]);
    WithoutListed(["focus", "review"], 0);
    assert ["focus", "review"][1..] == ["review"];
  }

  /** Typing " focus " twice and "review" once, then removing "focus",
      leaves the single label "review"; the other fields are untouched. */
  method EnterLabels(form: Form)
    requires form.Valid() && form.labels == []
    modifies form`labels, form`currentLabel
    ensures form.Valid() && form.labels == ["review"]
  {
    SessionLabels();
    form.currentLabel := " focus ";
    form.AddLabel();
    form.currentLabel := " focus ";
    form.AddLabel();
    form.currentLabel := "review";
    form.AddLabel();
    form.RemoveLabel("focus");
  }

  /** After entering the labels above, filling in a title and a category
      and submitting hands on the single label "review". */
  method LabelSession() returns (submitted: Option<EntryData>)
    ensures submitted == Some(EntryData("Report", "", "Work", ["review"]))
  {
    var form := new Form();
    EnterLabels(form);
    form.title, form.category := "Report", "Work";
    submitted := form.Submit();
  }
}
