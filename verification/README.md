# Project dashboard: a Dafny model of its state logic

The dashboard is a single-page React app. This project models the pure logic behind its screens as immutable Dafny datatypes and pure functions:

- **Rich-note formatter** (`NoteFormatter`). The note text is split into lines, and lines that are blank after trimming are dropped. Each remaining line is classified in a fixed order:
  - heading `# `;
  - list item `- `;
  - unchecked item `[ ] `;
  - checked item `[x] `;
  - a code block fenced by three backticks at each end;
  - otherwise a paragraph.

  A paragraph also gets inline flags (bold, italic, code), derived from the substrings `**`, `*` and a backtick.
- **Rich-note editor** (`NoteEditor`):
  - adding and removing tags on the note form;
  - the toolbar's format toggles;
  - loading a note into the form for editing;
  - the save step, which either asks the parent to update the edited note or asks it to add a new one, and then resets the editor.
- **Project records** (`ProjectModel`):
  - the project card and the form data it is edited through;
  - the two actions the store manages itself, `EDIT` and `DELETE`.
- **Project dialog** (`ProjectForm`):
  - the default form;
  - loading a project for editing, which drops `EDIT` and `DELETE` from its actions;
  - field changes, including the comma-separated actions text and how that text is shown.
- **Dashboard page** (`HomePage`):
  - the six seeded projects;
  - the create, update and delete reducers;
  - opening and closing the dialog;
  - the dialog's submit (save, reset, close).
- **To-do list** (`TodoList`): the seed and the completion toggle.
- **JavaScript strings** (`JsString`): the string built-ins these use, stated explicitly:
  - `trim`, using the ECMAScript WhiteSpace and LineTerminator characters;
  - `split` on one character, which always yields at least one piece;
  - `join`;
  - `startsWith`;
  - `includes`;
  - `slice`, with negative indices counted from the end and results clamped.

Among the properties proved:
- a line rendered back from its block classifies to the same block, and parsing a note distributes over its lines;
- the actions list shown as `, `-joined text reads back as the same list, for a non-empty list of comma-free entries without surrounding whitespace (the empty list reads back as one empty entry);
- removing a just-added tag restores the tags, and adding it again changes nothing;
- deleting a just-created project restores the list, and loading it into the dialog gives back its form when that form's actions hold no EDIT or DELETE;
- saving the same edit twice is saving it once;
- toggling a to-do twice is the identity, and toggles of two ids commute.

## Model

| member | source | states |
|---|---|---|
| NoteFormatter.ParseFormattedContent | src/components/RichNote.tsx:143-180 | The block list is empty exactly when the whole note is whitespace, and every paragraph block is a marker-free line carrying exactly that line's inline flags |
| NoteFormatter.NonBlankLines | src/components/RichNote.tsx:145 | The lines kept are newline-free and not blank, and there are none exactly when the content is all whitespace |
| NoteFormatter.KeepNonBlank | src/components/RichNote.tsx:145 | The filter keeps exactly the non-blank lines: every kept line is from the input and non-blank, and every non-blank input line is kept |
| NoteFormatter.KeepNonBlankAppend | src/components/RichNote.tsx:145 | The blank-line filter distributes over concatenation, so line order is preserved |
| NoteFormatter.JoinBlank | src/components/RichNote.tsx:145 | Joining lines with a whitespace separator gives whitespace exactly when every line is whitespace |
| NoteFormatter.ParseAround | src/components/RichNote.tsx:143-147 | Parsing two texts joined by a newline is parsing each and concatenating the block lists |
| NoteFormatter.ParseOneLine | src/components/RichNote.tsx:143-147 | A single line parses to nothing when blank, else to the one block its classification gives |
| NoteFormatter.ClassifyAllAppend | src/components/RichNote.tsx:147 | Classifying lines maps over concatenation |
| NoteFormatter.ClassifyLine | src/components/RichNote.tsx:147-178 | A line gives a paragraph exactly when it starts with no marker; every line except a fence shorter than six characters renders back to itself from its block; such short fences give an empty code block |
| NoteFormatter.ClassifyLineOf | src/components/RichNote.tsx:148-158 | Every well-formed block, rendered as a line, classifies back to itself |
| NoteFormatter.ClassifyLineWellFormed | src/components/RichNote.tsx:147-178 | Every line classifies to a well-formed block: a paragraph only for a marker-free line, with that line's inline flags |
| NoteFormatter.HeadingRule | src/components/RichNote.tsx:148-149 | `# ` followed by any text is a heading with that text |
| NoteFormatter.ListItemRule | src/components/RichNote.tsx:150-151 | `- ` followed by any text is a list item with that text |
| NoteFormatter.CheckItemRule | src/components/RichNote.tsx:152-155 | `[ ] ` and `[x] ` give unchecked and checked items with the rest as text; the capital `[X] ` is not a check item |
| NoteFormatter.CodeFenceRule | src/components/RichNote.tsx:156-157 | A fenced line is a code block; its text is empty when the line has at most six characters, else it is exactly what lies between the fences |
| NoteFormatter.CodeBlockRule | src/components/RichNote.tsx:156-157 | Any text between two fences is a code block with that text |
| NoteFormatter.CarriageReturnBlocksFence | src/components/RichNote.tsx:156-157 | A fenced line followed by a carriage return (a CRLF note) is not a code block but a paragraph flagged as code |
| NoteFormatter.ParagraphRule | src/components/RichNote.tsx:158-177 | A line without a marker is a paragraph of the whole line with its inline flags |
| NoteFormatter.InlineFormat | src/components/RichNote.tsx:162-175 | No flags exactly when the line has no `*` and no backtick; bold exactly when it includes `**`; italic exactly when it has `*` but no `**`; code exactly when it has a backtick; never bold and italic together |
| NoteFormatter.StarOfDoubleStar | src/components/RichNote.tsx:163-168 | A line including `**` includes `*`, so bold lines always carry flags |
| NoteEditor.AddTag | src/components/RichNote.tsx:71-79 | The form changes exactly when the typed tag is non-empty and not yet listed; then the tag is appended and the field cleared; title and content never change; a duplicate-free list stays duplicate-free |
| NoteEditor.RemoveTag | src/components/RichNote.tsx:81-86 | Every occurrence of the tag goes and every other tag keeps its count; the other fields are kept; duplicate-freedom is kept |
| NoteEditor.RemoveUndoesAdd | src/components/RichNote.tsx:71-86 | Removing the tag just added gives back the previous tag list |
| NoteEditor.RemoveTagKeepsOrder | src/components/RichNote.tsx:84 | Removal distributes over any split of the tag list, so remaining tags keep their order |
| NoteEditor.AddTagSettles | src/components/RichNote.tsx:71-79 | Adding twice in a row is adding once: after any add, a second one changes nothing |
| NoteEditor.ApplyFormat | src/components/RichNote.tsx:133-137 | The chosen toggle flips and every other toggle keeps its value |
| NoteEditor.ApplyFormatTwice | src/components/RichNote.tsx:133-137 | Toggling the same option twice restores the toolbar |
| NoteEditor.StartEditingNote | src/components/RichNote.tsx:128-131 | The editor remembers the note id and shows the dialog; form and toggles are kept |
| NoteEditor.FindNote | src/components/RichNote.tsx:54 | None exactly when no note has the id; otherwise the position of the first note with the id |
| NoteEditor.LoadNoteForEdit | src/components/RichNote.tsx:51-64 | With an edited id that the list holds, the form takes the first such note's title, content and tags with an empty tag field; otherwise the editor is unchanged; dialog, id and toggles never change |
| NoteEditor.SaveNote | src/components/RichNote.tsx:95-126 | An update request exactly when a note is edited and the parent can update, carrying the edited id; otherwise an add request, even while editing; the draft is the form's title, content and tags; the editor returns to its initial state |
| NoteEditor.EditUnchangedResubmits | src/components/RichNote.tsx:51-113 | Opening a stored note and saving it untouched sends its stored title, content and tags back as an update under its id |
| JsString.Trim | src/components/RichNote.tsx:145 | The result is empty exactly when the string is all whitespace, has no whitespace at either end, and occurs inside the string |
| JsString.TrimUnique | src/components/NewProjectModal.tsx:64 | Whitespace around a core without edge whitespace trims to exactly that core |
| JsString.Split | src/components/RichNote.tsx:145 | At least one piece, and no piece contains the separator |
| JsString.JoinSplit | src/components/RichNote.tsx:145 | Joining the pieces back with the separator gives the string that was split |
| JsString.SplitAround | src/components/NewProjectModal.tsx:64 | Splitting at a separator occurrence concatenates the splits of both sides |
| JsString.SplitJoin | src/components/NewProjectModal.tsx:64 | Splitting a join of separator-free pieces gives the pieces back |
| JsString.TrimKeepsOut | src/components/NewProjectModal.tsx:64 | Trimming never brings in a character the string lacks, so trimmed comma-free pieces stay comma-free |
| JsString.Slice | src/components/RichNote.tsx:157 | The result is a contiguous part of the string; for bounds `0 <= start <= end <= length` it is exactly `s[start..end]`, and for a non-negative start with a negative end and `start <= length + end` (the `slice(3, -3)` case) it is exactly `s[start..length + end]` |
| ProjectForm.StripManaged | src/components/NewProjectModal.tsx:36-38 | No EDIT or DELETE remains, and every other action keeps its count |
| ProjectForm.StripManagedAppend | src/components/NewProjectModal.tsx:36-38 | The filter distributes over concatenation, so kept actions keep their order |
| ProjectForm.StripManagedSuffix | src/components/NewProjectModal.tsx:35-38 | Stripping actions that end with EDIT, DELETE is stripping the actions before them |
| ProjectForm.CanonicalStrip | src/components/NewProjectModal.tsx:35-38 | For actions of the shape creation gives, the stripped list followed by EDIT, DELETE is the original list |
| ProjectForm.LoadForEdit | src/components/NewProjectModal.tsx:33-47 | Every field is copied from the project; its actions lose every EDIT and DELETE and keep every other action's count |
| ProjectForm.SyncForm | src/components/NewProjectModal.tsx:33-51 | With a project, the loaded form; without one, the reset defaults (empty texts, progress 0, coral, desktop, OPEN and DETAILS) |
| ProjectForm.ParseActions | src/components/NewProjectModal.tsx:61-65 | At least one entry, every entry comma-free with no surrounding whitespace, and empty text gives one empty entry |
| ProjectForm.HandleChange | src/components/NewProjectModal.tsx:53-72 | Exactly the named field changes; progress takes the parsed number or 0 when the text does not parse; the actions text is parsed into the list |
| ProjectForm.ParseDisplayRoundTrip | src/components/NewProjectModal.tsx:61-65 | Typing back the actions field's text (ProjectForm.DisplayActions, `JsString.Join` with `, `, as at NewProjectModal.tsx:195) gives the same list, for every non-empty list of comma-free, trimmed entries |
| ProjectForm.RetypeShownActions | src/components/NewProjectModal.tsx:53-72 | Retyping the shown actions text leaves such a form unchanged |
| ProjectForm.EmptyDisplayReadsBackOneEntry | src/components/NewProjectModal.tsx:195 | An empty action list is shown as empty text, which reads back as one empty action |
| ProjectForm.ParseActionsOne | src/components/NewProjectModal.tsx:64 | Text without a comma reads as one action, its trim |
| ProjectForm.ParseActionsAround | src/components/NewProjectModal.tsx:64 | Text with a comma reads as the actions before it followed by the actions after it |
| ProjectForm.ParseKeepsEmptyEntries | src/components/NewProjectModal.tsx:64 | Empty entries are not dropped: `A,,B` reads as A, an empty action, B |
| HomePage.SeedProjects | src/app/page.tsx:23-78 | Six projects with ids 1 to 6, unique, each with actions ending EDIT, DELETE and no other EDIT or DELETE |
| HomePage.InitialPage | src/app/page.tsx:21-23 | The dialog is closed, nothing is edited, and the list is the seed |
| HomePage.CreateProject | src/app/page.tsx:102-111 | One project is appended after the unchanged existing ones, with the fresh id, the form's fields and the form's actions followed by EDIT, DELETE; unique ids stay unique |
| HomePage.UpdateProject | src/app/page.tsx:95-101 | Same length and ids; every project with the edited id takes exactly the form's fields, including its actions; every other project is unchanged; unique ids stay unique |
| HomePage.UpdateMissing | src/app/page.tsx:97-101 | An update for an id no project carries changes nothing |
| HomePage.UpdateIdempotent | src/app/page.tsx:97-101 | Saving the same form twice is saving it once |
| HomePage.DeleteProject | src/app/page.tsx:114-116 | No project with the id remains, every other project is kept, nothing new appears, and a missing id changes nothing |
| HomePage.DeleteKeepsUniqueIds | src/app/page.tsx:114-116 | Deleting keeps unique ids unique |
| HomePage.DeleteAppend | src/app/page.tsx:115 | Deleting distributes over concatenation, so kept projects keep their order |
| HomePage.DeleteAt | src/app/page.tsx:114-116 | With unique ids, deleting a project's id removes that project and only it |
| HomePage.DeleteUndoesCreate | src/app/page.tsx:102-116 | Deleting the project just created restores the list |
| HomePage.LoadUndoesCreate | src/app/page.tsx:104-108 | Loading a just-created project into the dialog gives back the form it was created from, when that form had no EDIT or DELETE |
| HomePage.DeleteThirdSeed | src/app/page.tsx:114-116 | Deleting seed project 3 leaves the other five in order |
| HomePage.OpenModal | src/app/page.tsx:80-87 | The dialog opens on the given project, or on none; the list is unchanged |
| HomePage.CloseModal | src/app/page.tsx:89-92 | The dialog closes and forgets the edited project; the list is unchanged |
| HomePage.CloseUndoesOpen | src/app/page.tsx:80-92 | Opening then closing is closing alone |
| HomePage.SaveProject | src/app/page.tsx:94-112 | With an edited project, the update for its id; otherwise a creation with the fresh id; dialog state untouched |
| HomePage.DeleteFromPage | src/app/page.tsx:114-116 | The id is gone from the page's list and every other project stays; dialog state untouched |
| HomePage.Submit | src/components/NewProjectModal.tsx:74-79 | The form is saved, the dialog is closed with nothing edited, and the form is back to its defaults |
| HomePage.CreateAppendsManaged | src/app/page.tsx:103-110 | Creating with actions OPEN stores OPEN, EDIT, DELETE |
| HomePage.EditUnchangedStripsManaged | src/app/page.tsx:97-101 | As written, an untouched edit stores the project's actions without EDIT and DELETE |
| HomePage.EditSeedLosesEditDelete | src/app/page.tsx:99 | As written, seed project 1 edited untouched ends with only OPEN, DETAILS |
| HomePage.UpdateProjectIntended | src/app/page.tsx:97-101 | Corrected update: the edited project takes the form's fields with EDIT, DELETE appended to its actions; others unchanged |
| HomePage.SaveProjectIntended | src/app/page.tsx:94-112 | With the corrected update, every project keeps ending with EDIT, DELETE and ids stay unique |
| HomePage.EditUnchangedIsNoop | src/app/page.tsx:97-101 | With the corrected update, an untouched edit of a project of creation shape changes nothing |
| HomePage.EditSeedKeepsEditDeleteIntended | src/app/page.tsx:94-101 | With the corrected update, editing seed project 1 untouched leaves the seed as it was |
| TodoList.SeedTodos | src/components/TodoList.tsx:12-16 | Three items with ids 1, 2, 3, only the first completed |
| TodoList.ToggleTodo | src/components/TodoList.tsx:18-22 | Same length, ids and texts; an item's completion flips exactly when its id matches |
| TodoList.ToggleTwice | src/components/TodoList.tsx:18-22 | Toggling an id twice restores the list |
| TodoList.ToggleMissing | src/components/TodoList.tsx:18-22 | Toggling an id no item has changes nothing |
| TodoList.ToggleCommutes | src/components/TodoList.tsx:18-22 | Toggles of two ids commute |

## Left out

- `Date.now().toString()` for new project ids. It becomes a `freshId` parameter, and the model requires that no existing project carries it, which the clock is relied on to ensure.
- `parseInt(value, 10)`. The progress change carries the parse result as an optional integer, with none standing for `NaN`. Decimal parsing itself is not modelled.
- HandleChange: progress is not clamped to 0..100. The handler stores whatever `parseInt(value, 10) || 0` gives. The range input (src/components/NewProjectModal.tsx:143-147) keeps its own value within min and max, and that browser behaviour is not modelled.
- No shown component renders the rich-note editor or supplies its `onAddNote` and `onUpdateNote` callbacks, so what a parent does with an add or update request is not modelled. The editor's side is modelled as the add or update request it sends.
- `handleNoteChange` and `handleTagKeyPress` are not modelled. They are a plain field assignment and an Enter-key shortcut for adding a tag.
- React rendering, effects scheduling and event objects are not modelled. Each effect or handler is a function from the old state to the new.
- Strings are sequences of characters. JavaScript's UTF-16 code units are not distinguished from code points.
- JsString.Split: its own contract says only that there is at least one piece and that no piece holds the separator; JsString.JoinSplit and JsString.SplitAround state the rest as lemmas.
- NoteEditor.NoteItem: the optional `formattedContent` field of a note (src/components/RichNote.tsx:12) is dropped. No shown code reads or writes it, and the notes list recomputes the blocks from `content` (src/components/RichNote.tsx:203).
- NoteEditor.SaveNote: whether the parent supplies an update callback is a boolean parameter.
- HomePage.Submit: accepts any form. The title and description inputs carry the HTML `required` attribute (src/components/NewProjectModal.tsx:120 and :135), so a browser does not submit them empty; that browser-side validation is not modelled.

Where the code's intent is stated (the dialog's note that EDIT and DELETE "will be added automatically", src/components/NewProjectModal.tsx:35 and :201) and the code differs, the model follows the code: editing does not re-append EDIT and DELETE (see Findings).

Where a reader might expect otherwise, the model also follows the code:
- bold and italic paragraph flags are never both set, because italic requires the absence of `**`;
- updating or deleting an id that no project carries changes nothing.

## Findings

| source | as written | input that shows it | evidently intended | confidence | as-written member | corrected member |
|---|---|---|---|---|---|---|
| src/app/page.tsx:97-101 | The edit branch stores `{ ...project, ...projectData }`. The dialog loaded the project's actions with EDIT and DELETE filtered out and promises that they "will be added automatically" (NewProjectModal.tsx:35 and :201), but only creation appends them. | `handleOpenModal(project)` with seed project 1 (actions OPEN, DETAILS, EDIT, DELETE), then a submit without changes: `handleSaveProject` stores it with actions OPEN, DETAILS. The shown project card does not call `onEdit`, so this path is reached through `handleOpenModal` and not through a visible button | The update appends EDIT, DELETE to the form's actions, as creation does, so an untouched edit changes nothing | high, not executed | HomePage.EditSeedLosesEditDelete | HomePage.UpdateProjectIntended |
