/**
  The project dialog's form: its default state, loading a project for
  editing, field changes, and the comma-separated text the actions are
  shown and typed as.
*/
module ProjectForm {
  import opened Common
  import opened JsString
  import opened ProjectModel

  /** The form the dialog starts with and is reset to. */
  const DefaultForm := ProjectData("", "", 0, Coral, Desktop, ["OPEN", "DETAILS"])

  /** The test of the edit-load filter: neither EDIT nor DELETE. */
  predicate Unmanaged(action: string) {
    action != Edit && action != Delete
  }

  /**
    `actions.filter(action => action !== 'EDIT' && action !== 'DELETE')`:
    no EDIT or DELETE is left and every other action keeps its count.
  */
  function StripManaged(actions: seq<string>): (r: seq<string>)
    ensures Edit !in r && Delete !in r
    ensures multiset(r) == multiset(actions)[Edit := 0][Delete := 0]
  {
    var r := Filter(actions, Unmanaged);
    forall x
      ensures multiset(r)[x] == multiset(actions)[Edit := 0][Delete := 0][x]
    {
      FilterCount(actions, Unmanaged, x);
    }
    r
  }

  /** Stripping distributes over concatenation, so the kept actions keep their order. */
  lemma StripManagedAppend(a: seq<string>, b: seq<string>)
    ensures StripManaged(a + b) == StripManaged(a) + StripManaged(b)
  {
    FilterAppend(a, b, Unmanaged);
  }

  /** Actions without EDIT or DELETE come through stripping unchanged. */
  lemma StripManagedNoop(actions: seq<string>)
    requires Edit !in actions && Delete !in actions
    ensures StripManaged(actions) == actions
  {
    assert forall i :: 0 <= i < |actions| ==> Unmanaged(actions[i]);
  }

  /** Stripping the EDIT, DELETE a creation appended gives back the chosen actions, stripped. */
  lemma StripManagedSuffix(base: seq<string>)
    ensures StripManaged(base + ManagedActions) == StripManaged(base)
  {
    StripManagedAppend(base, ManagedActions);
    var r := StripManaged(ManagedActions);
    assert multiset(r) == multiset{};
    assert |r| == |multiset(r)|;
  }

  /** Stripping a canonical action list leaves exactly the chosen actions in front of EDIT, DELETE. */
  lemma CanonicalStrip(actions: seq<string>)
    requires Canonical(actions)
    ensures StripManaged(actions) + ManagedActions == actions
  {
    var base := actions[..|actions| - 2];
    assert actions == base + ManagedActions;
    StripManagedSuffix(base);
    StripManagedNoop(base);
  }

  /**
    The edit-load effect for a project: every field copied, the actions
    without any EDIT or DELETE.
  */
  function LoadForEdit(p: Project): (d: ProjectData)
    ensures d.title == p.title && d.description == p.description && d.progress == p.progress
    ensures d.progressColor == p.progressColor && d.iconType == p.iconType
    ensures Edit !in d.actions && Delete !in d.actions
    ensures multiset(d.actions) == multiset(p.actions)[Edit := 0][Delete := 0]
  {
    DataOf(p).(actions := StripManaged(p.actions))
  }

  /**
    The effect that runs when the dialog opens or the project changes: the
    edited project's fields, or the defaults (empty title and description,
    progress 0, coral, desktop, OPEN and DETAILS) when there is none.
  */
  function SyncForm(editProject: Option<Project>): (d: ProjectData)
    ensures editProject.Some? ==> d == LoadForEdit(editProject.value)
    ensures editProject.None? ==>
      && d.title == "" && d.description == "" && d.progress == 0
      && d.progressColor == Coral && d.iconType == Desktop && d.actions == ["OPEN", "DETAILS"]
  {
    match editProject
    case Some(p) => LoadForEdit(p)
    case None => DefaultForm
  }

  /**
    One change event of the form. The progress input carries what `parseInt`
    made of the text, `None` standing for `NaN`.
  */
  datatype FieldChange =
    | TitleInput(text: string)
    | DescriptionInput(text: string)
    | ProgressInput(parsed: Option<int>)
    | ColorInput(color: Color)
    | IconInput(icon: Icon)
    | ActionsInput(text: string)

  /** `value.split(',').map(item => item.trim())`: no empty entry is dropped. */
  function ParseActions(text: string): (actions: seq<string>)
    ensures |actions| >= 1
    ensures forall i :: 0 <= i < |actions| ==> ',' !in actions[i] && Trimmed(actions[i])
    ensures text == "" ==> actions == [""]
  {
    var pieces := Split(text, ',');
    var actions := Map(pieces, Trim);
    assert forall i :: 0 <= i < |actions| ==> ',' !in actions[i] by {
      forall i | 0 <= i < |actions|
        ensures ',' !in actions[i]
      {
        TrimKeepsOut(pieces[i], ',');
      }
    }
    actions
  }

  /** `actions.join(', ')`: how the actions field shows the list. */
  function DisplayActions(actions: seq<string>): string {
    Join(actions, ", ")
  }

  /**
    `handleChange`: the named field takes the new value; progress becomes the
    parsed number, or 0 for `NaN` (`parseInt(value, 10) || 0`); the actions
    text is parsed into a list.
  */
  function HandleChange(d: ProjectData, change: FieldChange): (r: ProjectData)
    ensures change.TitleInput? ==> r == d.(title := change.text)
    ensures change.DescriptionInput? ==> r == d.(description := change.text)
    ensures change.ProgressInput? ==> r == d.(progress := change.parsed.GetOr(0))
    ensures change.ColorInput? ==> r == d.(progressColor := change.color)
    ensures change.IconInput? ==> r == d.(iconType := change.icon)
    ensures change.ActionsInput? ==> r == d.(actions := ParseActions(change.text))
  {
    match change
    case ProgressInput(parsed) =>
      d.(progress := if parsed.Some? && parsed.value != 0 then parsed.value else 0)
    case ActionsInput(text) => d.(actions := ParseActions(text))
    case TitleInput(text) => d.(title := text)
    case DescriptionInput(text) => d.(description := text)
    case ColorInput(color) => d.(progressColor := color)
    case IconInput(icon) => d.(iconType := icon)
  }

  /** A trimmed entry, with or without one space in front, trims back to itself. */
  lemma TrimPadded(pad: string, x: string)
    requires pad == "" || pad == " "
    requires Trimmed(x)
    ensures Trim(pad + x) == x
  {
    TrimStartOf(pad, x);
    TrimEndOf(x, "");
    assert x + "" == x;
  }

  /**
    Typing back what the actions field shows gives the same list, for any
    non-empty list of comma-free entries without surrounding whitespace.
  */
  lemma ParseDisplayRoundTrip(actions: seq<string>)
    requires |actions| >= 1
    requires forall i :: 0 <= i < |actions| ==> ',' !in actions[i] && Trimmed(actions[i])
    ensures ParseActions(DisplayActions(actions)) == actions
  {
    ParsePaddedDisplay("", actions);
    assert "" + DisplayActions(actions) == DisplayActions(actions);
  }

  /** The round trip also holds after the space that `", "` leaves in front of every later entry. */
  lemma {:induction false} ParsePaddedDisplay(pad: string, actions: seq<string>)
    requires pad == "" || pad == " "
    requires |actions| >= 1
    requires forall i :: 0 <= i < |actions| ==> ',' !in actions[i] && Trimmed(actions[i])
    ensures ParseActions(pad + DisplayActions(actions)) == actions
    decreases |actions|
  {
    if |actions| == 1 {
      HeadTail(actions);
      ParsePaddedOne(pad, actions[0]);
    } else {
      ParsePaddedDisplay(" ", actions[1..]);
      ParsePaddedCons(pad, actions);
    }
  }

  /** The base case of `ParsePaddedDisplay`: a single clean entry. */
  lemma ParsePaddedOne(pad: string, x: string)
    requires pad == "" || pad == " "
    requires ',' !in x && Trimmed(x)
    ensures ParseActions(pad + x) == [x]
  {
    TrimPadded(pad, x);
    assert ',' !in pad + x;
    ParseActionsOne(pad + x);
  }

  /** The inductive step of `ParsePaddedDisplay`: a clean entry in front of a list that already reads back. */
  lemma ParsePaddedCons(pad: string, actions: seq<string>)
    requires pad == "" || pad == " "
    requires |actions| >= 2 && ',' !in actions[0] && Trimmed(actions[0])
    requires ParseActions(" " + DisplayActions(actions[1..])) == actions[1..]
    ensures ParseActions(pad + DisplayActions(actions)) == actions
  {
    var first, rest := actions[0], actions[1..];
    HeadTail(actions);
    TrimPadded(pad, first);
    DisplayCons(pad, actions);
    ParseCons(pad + first, " " + DisplayActions(rest), first, rest);
  }

  /** Shown with a pad in front, a list of two or more is its padded first entry, a comma, and the rest shown after a space. */
  lemma DisplayCons(pad: string, actions: seq<string>)
    requires |actions| >= 2
    ensures pad + DisplayActions(actions) == (pad + actions[0]) + [','] + (" " + DisplayActions(actions[1..]))
  {
  }

  /** A comma-free head in front of a comma reads as its trim followed by what the tail reads as. */
  lemma ParseCons(head: string, tail: string, x: string, xs: seq<string>)
    requires ',' !in head && Trim(head) == x
    requires ParseActions(tail) == xs
    ensures ParseActions(head + [','] + tail) == [x] + xs
  {
    ParseActionsOne(head);
    ParseActionsAround(head, tail);
  }

  /** Retyping the actions field exactly as shown leaves a form with clean, non-empty actions as it was. */
  lemma RetypeShownActions(d: ProjectData)
    requires |d.actions| >= 1
    requires forall i :: 0 <= i < |d.actions| ==> ',' !in d.actions[i] && Trimmed(d.actions[i])
    ensures HandleChange(d, ActionsInput(DisplayActions(d.actions))) == d
  {
    ParseDisplayRoundTrip(d.actions);
  }

  /** The empty list is shown as empty text, which reads back as one empty action. */
  lemma EmptyDisplayReadsBackOneEntry()
    ensures ParseActions(DisplayActions([])) == [""]
  {
  }

  /** Text without a comma is read as one action, trimmed. */
  lemma ParseActionsOne(text: string)
    requires ',' !in text
    ensures ParseActions(text) == [Trim(text)]
  {
    SplitNoSeparator(text, ',');
  }

  /** Text with a comma is read as the actions before it followed by the actions after it. */
  lemma ParseActionsAround(a: string, b: string)
    ensures ParseActions(a + [','] + b) == ParseActions(a) + ParseActions(b)
  {
    SplitAround(a, b, ',');
    MapAppend(Split(a, ','), Split(b, ','), Trim);
  }

  /** Empty entries are kept: `"A,,B"` reads as `A`, an empty action, `B`. */
  lemma ParseKeepsEmptyEntries()
    ensures ParseActions("A,,B") == ["A", "", "B"]
  {
    SplitKeepsEmptyPiece();
    TrimEntries();
  }

  /** `"A,,B".split(',')` has an empty piece between the two commas. */
  lemma SplitKeepsEmptyPiece()
    ensures Split("A,,B", ',') == ["A", "", "B"]
  {
    SplitNoSeparator("A", ',');
    SplitNoSeparator("", ',');
    SplitNoSeparator("B", ',');
    assert "A,,B" == "A" + [','] + ("" + [','] + "B");
    SplitAround("A", "" + [','] + "B", ',');
    SplitAround("", "B", ',');
  }

  /** Trimming leaves `A`, the empty string and `B` as they are. */
  lemma TrimEntries()
    ensures Map(["A", "", "B"], Trim) == ["A", "", "B"]
  {
    var xs := ["A", "", "B"];
    assert forall i :: 0 <= i < |xs| ==> Trimmed(xs[i]) by {
      assert Trimmed(xs[0]) && Trimmed(xs[1]) && Trimmed(xs[2]);
    }
    TrimAllTrimmed(xs);
  }

  /** Trimming entries that have no whitespace at either end changes none of them. */
  lemma {:induction false} TrimAllTrimmed(xs: seq<string>)
    requires forall i :: 0 <= i < |xs| ==> Trimmed(xs[i])
    ensures Map(xs, Trim) == xs
  {
    if |xs| > 0 {
      HeadTail(xs);
      TrimAllTrimmed(xs[1..]);
      TrimNoop(xs[0]);
    }
  }
}
