/**
  The state logic of the rich-note editor around the formatter: the tag list
  of the note form, the toolbar's format toggles, loading a note for editing,
  and the choice between adding and updating a note on save.
*/
module NoteEditor {
  import opened Common

  /** A stored note. Its display blocks are derived from `content` on demand and are not stored. */
  datatype NoteItem = NoteItem(id: int, title: string, content: string, date: string, tags: seq<string>)

  /** The note form: the fields being edited and the tag typed but not yet added. */
  datatype NoteForm = NoteForm(title: string, content: string, tags: seq<string>, currentTag: string)

  const EmptyForm := NoteForm("", "", [], "")

  /** A tag is added only when it is non-empty and not already in the list. */
  predicate AcceptsTag(f: NoteForm) {
    f.currentTag != "" && f.currentTag !in f.tags
  }

  /**
    `handleAddTag`: an acceptable tag is appended and the tag field cleared;
    anything else leaves the form as it is. The list stays duplicate-free.
  */
  function AddTag(f: NoteForm): (r: NoteForm)
    ensures r.title == f.title && r.content == f.content
    ensures r != f <==> AcceptsTag(f)
    ensures AcceptsTag(f) ==> r.tags == f.tags + [f.currentTag] && r.currentTag == ""
    ensures NoDuplicates(f.tags) ==> NoDuplicates(r.tags)
  {
    if AcceptsTag(f) then
      f.(tags := f.tags + [f.currentTag], currentTag := "")
    else f
  }

  /**
    `handleRemoveTag`: every occurrence of the tag goes, every other tag keeps
    its count; nothing else in the form changes.
  */
  function RemoveTag(f: NoteForm, tag: string): (r: NoteForm)
    ensures r.title == f.title && r.content == f.content && r.currentTag == f.currentTag
    ensures tag !in r.tags
    ensures multiset(r.tags) == multiset(f.tags)[tag := 0]
    ensures NoDuplicates(f.tags) ==> NoDuplicates(r.tags)
  {
    var tags := Filter(f.tags, Other(tag));
    forall x
      ensures multiset(tags)[x] == multiset(f.tags)[tag := 0][x]
    {
      FilterCount(f.tags, Other(tag), x);
    }
    assert NoDuplicates(f.tags) ==> NoDuplicates(tags) by {
      if NoDuplicates(f.tags) {
        FilterNoDuplicates(f.tags, Other(tag));
      }
    }
    f.(tags := tags)
  }

  /** Removing the tag just added restores the tag list. */
  lemma RemoveUndoesAdd(f: NoteForm)
    requires AcceptsTag(f)
    ensures RemoveTag(AddTag(f), f.currentTag).tags == f.tags
  {
    var keep := Other(f.currentTag);
    FilterAppend(f.tags, [f.currentTag], keep);
    assert Filter([f.currentTag], keep) == [] by {
      assert [f.currentTag][1..] == [];
    }
  }

  /** Removing a tag keeps the other tags in their order (removal distributes over concatenation). */
  lemma RemoveTagKeepsOrder(f: NoteForm, front: seq<string>, back: seq<string>, tag: string)
    requires f.tags == front + back
    ensures RemoveTag(f, tag).tags == RemoveTag(f.(tags := front), tag).tags + RemoveTag(f.(tags := back), tag).tags
  {
    FilterAppend(front, back, Other(tag));
  }

  /** A second press of "add" right after any first one does nothing: the tag field is then empty or already listed. */
  lemma AddTagSettles(f: NoteForm)
    ensures AddTag(AddTag(f)) == AddTag(f)
  {
  }

  /** The toolbar toggles. */
  datatype FormatOptions = FormatOptions(bold: bool, italic: bool, list: bool, checkItem: bool, code: bool)

  /** The keys of the toolbar toggles. */
  datatype FormatKey = Bold | Italic | List | CheckItem | Code

  const AllOff := FormatOptions(false, false, false, false, false)

  function Flag(o: FormatOptions, k: FormatKey): bool {
    match k
    case Bold => o.bold
    case Italic => o.italic
    case List => o.list
    case CheckItem => o.checkItem
    case Code => o.code
  }

  /** `applyFormat`: flips the chosen toggle and no other. */
  function ApplyFormat(o: FormatOptions, k: FormatKey): (r: FormatOptions)
    ensures Flag(r, k) == !Flag(o, k)
    ensures forall k' :: k' != k ==> Flag(r, k') == Flag(o, k')
  {
    match k
    case Bold => o.(bold := !o.bold)
    case Italic => o.(italic := !o.italic)
    case List => o.(list := !o.list)
    case CheckItem => o.(checkItem := !o.checkItem)
    case Code => o.(code := !o.code)
  }

  /** Toggling the same option twice restores the toolbar. */
  lemma ApplyFormatTwice(o: FormatOptions, k: FormatKey)
    ensures ApplyFormat(ApplyFormat(o, k), k) == o
  {
  }

  /** The editor: whether the note dialog is shown, the form, the note being edited, the toggles. */
  datatype Editor = Editor(showNoteModal: bool, form: NoteForm, editingNoteId: Option<int>, options: FormatOptions)

  /** The state the editor starts in and `resetForm` returns to. */
  const InitialEditor := Editor(false, EmptyForm, None, AllOff)

  /** `startEditingNote`: remembers the note and shows the dialog. */
  function StartEditingNote(e: Editor, noteId: int): (r: Editor)
    ensures r.editingNoteId == Some(noteId) && r.showNoteModal
    ensures r.form == e.form && r.options == e.options
  {
    e.(editingNoteId := Some(noteId), showNoteModal := true)
  }

  /** `notes.find(note => note.id === id)`, as a position: the first note with the id, or none. */
  function FindNote(notes: seq<NoteItem>, id: int): (k: Option<nat>)
    ensures k.None? <==> forall j :: 0 <= j < |notes| ==> notes[j].id != id
    ensures k.Some? ==> k.value < |notes| && notes[k.value].id == id
    ensures k.Some? ==> forall j :: 0 <= j < k.value ==> notes[j].id != id
  {
    if |notes| == 0 then None
    else if notes[0].id == id then Some(0)
    else
      var k := FindNote(notes[1..], id);
      assert forall j :: 1 <= j < |notes| ==> notes[j] == notes[1..][j - 1];
      if k.Some? then Some(k.value + 1) else None
  }

  /**
    The load-for-edit effect: when a note is being edited and the list holds
    it, the form takes the first such note's title, content and tags with an
    empty tag field; otherwise the editor is left as it is.
  */
  function LoadNoteForEdit(e: Editor, notes: seq<NoteItem>): (r: Editor)
    ensures r.showNoteModal == e.showNoteModal && r.editingNoteId == e.editingNoteId && r.options == e.options
    ensures (e.editingNoteId.None? || FindNote(notes, e.editingNoteId.value).None?) ==> r == e
    ensures e.editingNoteId.Some? && FindNote(notes, e.editingNoteId.value).Some? ==>
      var n := notes[FindNote(notes, e.editingNoteId.value).value];
      r.form == NoteForm(n.title, n.content, n.tags, "")
  {
    match e.editingNoteId
    case None => e
    case Some(id) =>
      match FindNote(notes, id)
      case None => e
      case Some(k) =>
        var n := notes[k];
        e.(form := NoteForm(n.title, n.content, n.tags, ""))
  }

  /** What the title, content and tags of a note look like when handed to the parent. */
  datatype NoteDraft = NoteDraft(title: string, content: string, tags: seq<string>)

  /** What saving asks of the parent: update the note with the id, or add a new one. */
  datatype NoteRequest = AddNote(draft: NoteDraft) | UpdateNote(id: int, draft: NoteDraft)

  /**
    `handleSaveNote`: an update of the edited note when one is being edited
    and the parent can update, otherwise an addition, even while editing;
    in both cases the form's fields go out and the editor is reset.
  */
  function SaveNote(e: Editor, canUpdate: bool): (r: (NoteRequest, Editor))
    ensures r.0.UpdateNote? <==> e.editingNoteId.Some? && canUpdate
    ensures r.0.UpdateNote? ==> r.0.id == e.editingNoteId.value
    ensures r.0.draft == NoteDraft(e.form.title, e.form.content, e.form.tags)
    ensures r.1 == InitialEditor
  {
    var draft := NoteDraft(e.form.title, e.form.content, e.form.tags);
    var request := if e.editingNoteId.Some? && canUpdate then UpdateNote(e.editingNoteId.value, draft) else AddNote(draft);
    (request, InitialEditor)
  }

  /** Opening a stored note for editing and saving it untouched sends its stored fields back under its id. */
  lemma EditUnchangedResubmits(e: Editor, notes: seq<NoteItem>, k: nat)
    requires k < |notes| && forall j :: 0 <= j < k ==> notes[j].id != notes[k].id
    ensures var loaded := LoadNoteForEdit(StartEditingNote(e, notes[k].id), notes);
      SaveNote(loaded, true).0 == UpdateNote(notes[k].id, NoteDraft(notes[k].title, notes[k].content, notes[k].tags))
  {
    assert FindNote(notes, notes[k].id) == Some(k);
  }
}
