# Notes manager: the note collection state machine

A model of the state manager inside the `App` component of the personal notes
web app (`notes_frontend/src/App.js`). The app keeps an ordered list of notes
(newest first) and four more pieces of session state: the id of the selected note, the
draft open in the editor, the search text and whether the editor is shown. Its
handlers create a draft, open a note in the viewer or editor, save a draft (an
upsert by id), delete a note after confirmation, and cancel editing. After every
change to the list it writes the list to the browser's storage slot `notes-v1`.
The visible list is the stored list filtered by a case-insensitive substring
search on title or content.

Files and modules:

- `wrappers.dfy` (`Wrappers`): `Option`, standing for JavaScript's `null`.
- `text.dfy` (`Text`): the string operations the app uses. `Trim` is `String.prototype.trim`
  with ECMAScript's full set of whitespace and line-terminator characters. `ToLower` is
  `toLowerCase` for ASCII letters. `Contains` is `includes`.
- `seqs.dfy` (`Seqs`): `Filter` (`Array.prototype.filter`) and `IsSubsequence`, with
  lemmas: the result is an order-preserving subsequence, it keeps each accepted element
  as often as the input has it, and filtering is idempotent. The search and the delete
  both use this one filter.
- `notes.dfy` (`Notes`): the `Note` datatype and the pure list computations. These are
  the search (`FilterNotes`), the lookup of the selected note (`FindById`,
  `notes.find`), the two branches of a save (`Upsert`), the removal done by a delete
  (`RemoveById`) and the draft the editor dialog produces (`DialogDraft`). Lemmas state
  what each promises and which invariants it keeps: ids stay distinct, `created <= updated`,
  and no stored note is blank.
- `store.dfy` (`Store`): the class `NoteStore`. It holds the five state variables and
  the storage slot as fields, and has one method per handler. Each method's `ensures`
  gives the new state in terms of the old one through the functions of `Notes`, and
  says which invariants are kept. `CreateScenario`, `EditScenario` and `DeleteScenario` are client
  methods that run a note's lifecycle through the handlers and assert its outcome.

Outside inputs become parameters. The fresh id from `generateId` and the clock reading
`now` are arguments of the handlers that use them. The answer to `window.confirm` is
the `confirmed` argument of `HandleDelete`. The list read back from storage is the
constructor's argument. Timestamps are `nat` clock readings, not ISO strings.

Points where the model follows the code as written:

- The trimming and the blank check live in the editor dialog (lines 222-229), not in
  `handleSave`. So `HandleSave` stores any draft it is given; only `DialogSave` trims and
  refuses blank input.
- An edit replaces the stored note with the whole draft plus a new `updated`
  (`{...note, updated}`), not just its title and content. So `created` is the draft's
  own. It equals the stored one when the draft came from `handleEdit`
  (`EditThenSave`).
- The edit's `map` and the delete's `filter` act on every note with that id. The
  lemmas about one position (`UpsertExistingAt`, `RemovePresent`) assume distinct ids,
  and distinct ids are kept by every save and delete.
- `generateId` is not checked for being fresh. A colliding id turns the save into an
  edit of the existing note. The model keeps that behaviour and needs no freshness
  precondition, because `Upsert` keeps ids distinct either way.

## Model

| member | source | states |
|---|---|---|
| Text.Trim | notes_frontend/src/App.js:225-229 | the result is a slice of the input cut only at whitespace; it is empty exactly when the input is all whitespace, and otherwise it starts and ends with non-whitespace |
| Text.TrimIdempotent | notes_frontend/src/App.js:225-226 | trimming a trimmed string changes nothing |
| Text.ToLower | notes_frontend/src/App.js:53-54 | same length; each character is its ASCII lower-case form |
| Text.Contains | notes_frontend/src/App.js:53-54 | true exactly when the needle occurs at some position of the string |
| Text.ContainsEmpty | notes_frontend/src/App.js:53-54 | the empty needle occurs in every string |
| Seqs.Filter | notes_frontend/src/App.js:51-55 | `Array.prototype.filter`: the result is no longer than the input and every element it keeps is accepted |
| Seqs.FilterIsSubsequence | notes_frontend/src/App.js:51-55 | a filtered list is an order-preserving subsequence of its input |
| Seqs.FilterCount | notes_frontend/src/App.js:51-55 | each element occurs in the filtered list as often as in the input if accepted, else not at all |
| Seqs.FilterKeepsAll | notes_frontend/src/App.js:91 | when every element is accepted, the filter returns its input |
| Seqs.FilterConcat | notes_frontend/src/App.js:91 | filtering distributes over concatenation |
| Seqs.FilterIdempotent | notes_frontend/src/App.js:51-55 | filtering twice by the same predicate equals filtering once |
| Notes.HasId | notes_frontend/src/App.js:100 | `notes.some` by id: some position of the list holds a note with the id |
| Notes.FindById | notes_frontend/src/App.js:59 | the lookup fails exactly when no note has the id, and otherwise returns the note at the first position carrying it |
| Notes.FindByIdUnique | notes_frontend/src/App.js:59 | with distinct ids the lookup of a note's id returns that note |
| Notes.Needle | notes_frontend/src/App.js:53-54 | `filter.trim().toLowerCase()`: the query with surrounding whitespace removed and ASCII letters lower-cased |
| Notes.Matches | notes_frontend/src/App.js:52-54 | the filter callback: the lower-cased title or the lower-cased content contains the needle |
| Notes.FilterNotes | notes_frontend/src/App.js:49-56 | the visible list is never longer than the list, and every note it shows has the trimmed, lower-cased query in its lower-cased title or content (for a blank query, every note) |
| Notes.FilterNotesBlank | notes_frontend/src/App.js:49-50 | a blank (empty or all-whitespace) search shows the list unchanged |
| Notes.FilterNotesIsFilter | notes_frontend/src/App.js:49-55 | the blank-search shortcut agrees with the general rule: the visible list is always the list filtered by "title or content contains the trimmed, lower-cased query" |
| Notes.FilterNotesSubsequence | notes_frontend/src/App.js:49-55 | the visible list is an order-preserving subsequence of the list |
| Notes.FilterNotesCount | notes_frontend/src/App.js:49-55 | the visible list holds each matching note as often as the list does, and no non-matching note |
| Notes.FilterNotesShows | notes_frontend/src/App.js:51-55 | a note of the list is visible exactly when it matches the query |
| Notes.FilterNotesIdempotent | notes_frontend/src/App.js:51-55 | searching the visible list again with the same query changes nothing |
| Notes.ShopMatches | notes_frontend/src/App.js:53-54 | "shop" matches a note titled "Shopping" (case is ignored) and not one titled "Work" |
| Notes.SearchScenario | notes_frontend/src/App.js:49-55 | searching "shop" among a "Shopping" note and a "Work" note shows only the "Shopping" note |
| Notes.ReplaceById | notes_frontend/src/App.js:102-104 | the edit's `map`: same length, every id stays in its place, and each note is either kept or replaced by the saved note |
| Notes.Upsert | notes_frontend/src/App.js:100-115 | after a save the list holds a note with the draft's id, and it is at least as long as before and at most one longer; which branch gives which length is stated by `UpsertExistingAt` and `UpsertNewAtFront` |
| Notes.UpsertNewAtFront | notes_frontend/src/App.js:105-114 | saving a new id makes the list exactly one longer with the stored note in front; deleting that note gives the old list back unchanged |
| Notes.UpsertThenRemove | notes_frontend/src/App.js:91-115 | for every list and draft, deleting the saved id after a save gives the same list as deleting it before the save: a save touches only the notes with the draft's id |
| Notes.UpsertIds | notes_frontend/src/App.js:100-115 | a save loses no id and adds no id except the draft's |
| Notes.SavedNote | notes_frontend/src/App.js:100-115 | the note a save stores is an element of the new list; it has the draft's id, title and content, `updated = now`, and `created = now` only when the id was new |
| Notes.UpsertExistingAt | notes_frontend/src/App.js:100-104 | with distinct ids, saving the id held at position i changes that position only, to the draft with `updated = now` |
| Notes.EditThenSave | notes_frontend/src/App.js:84-104 | saving an edited copy of a stored note keeps its position, id and `created`, sets `updated = now` and the new title and content, and changes nothing else |
| Notes.RemoveReplaceById | notes_frontend/src/App.js:91-104 | replacing the notes with the saved id and then deleting that id equals deleting it from the original list |
| Notes.ReplaceLookupOther | notes_frontend/src/App.js:102-104 | replacing the notes with the saved id leaves the lookup of every other id unchanged |
| Notes.UpsertLookupOther | notes_frontend/src/App.js:100-115 | a save leaves the lookup of every other id unchanged |
| Notes.UpsertKeepsUniqueIds | notes_frontend/src/App.js:100-114 | a save keeps the ids of the list pairwise distinct |
| Notes.UpsertFinds | notes_frontend/src/App.js:100-119 | after a save, looking up the saved id returns exactly the note the save stored |
| Notes.UpsertKeepsChronological | notes_frontend/src/App.js:100-114 | if every note has `created <= updated` and the draft's `created` is not after `now`, this still holds after the save |
| Notes.UpsertKeepsNonBlank | notes_frontend/src/App.js:100-114 | saving a non-blank draft keeps every stored note non-blank |
| Notes.IdDiffers | notes_frontend/src/App.js:91 | the delete's callback `n => n.id !== note.id` |
| Notes.RemoveById | notes_frontend/src/App.js:91 | the delete's `filter`: the result is no longer than the list and holds no note with the deleted id |
| Notes.RemoveByIdSpec | notes_frontend/src/App.js:91 | the result keeps the others in their order, holds no note with the id, and keeps every other note as often as before |
| Notes.RemoveAbsent | notes_frontend/src/App.js:91 | deleting an id that is not present leaves the list unchanged |
| Notes.RemovePresent | notes_frontend/src/App.js:91 | with distinct ids, deleting the id at position i leaves exactly the notes before and after i; the length drops by one |
| Notes.RemoveLookupOther | notes_frontend/src/App.js:91 | a delete leaves the lookup of every other id unchanged |
| Notes.RemoveKeepsUniqueIds | notes_frontend/src/App.js:91 | a delete keeps the ids pairwise distinct |
| Notes.RemoveKeepsChronological | notes_frontend/src/App.js:91 | a delete keeps `created <= updated` for every note |
| Notes.RemoveKeepsNonBlank | notes_frontend/src/App.js:91 | a delete keeps every stored note non-blank |
| Notes.DialogDraft | notes_frontend/src/App.js:222-229 | no draft exactly when title and content are both blank; otherwise a non-blank draft whose title and content are the trimmed field values, with the edited note's id and timestamps |
| Notes.DialogDraftTrimmed | notes_frontend/src/App.js:225-226 | the title and content the dialog hands over are already trimmed |
| Store.NoteStore.Valid | notes_frontend/src/App.js:36-46 | the invariant every handler keeps: the editor is shown exactly when there is a draft, and once the list has been written the stored copy equals the list |
| Store.NoteStore.constructor | notes_frontend/src/App.js:35-40 | a session starts with the loaded list, nothing selected, no draft, an empty search, the editor closed and nothing written yet |
| Store.NoteStore.FilteredNotes | notes_frontend/src/App.js:49-56 | the visible list is a subsequence of the list, and the whole list for a blank search |
| Store.NoteStore.SelectedNote | notes_frontend/src/App.js:59 | no selected note exactly when nothing is selected or no note has the selected id; otherwise a stored note carrying that id |
| Store.NoteStore.SaveNotes | notes_frontend/src/App.js:43-46 | the list and its stored copy both become the new list; nothing else changes |
| Store.NoteStore.HandleCreate | notes_frontend/src/App.js:64-73 | the editor opens on an empty draft with the fresh id and both timestamps `now`; the list, selection and search are unchanged |
| Store.NoteStore.HandleSelect | notes_frontend/src/App.js:76-80 | the note is selected and the editor closed with no draft |
| Store.NoteStore.HandleEdit | notes_frontend/src/App.js:83-86 | the editor opens on a copy of the note; the list and selection are unchanged |
| Store.NoteStore.HandleDelete | notes_frontend/src/App.js:89-95 | without confirmation nothing changes; with it the list becomes the list without that id and is written, and the selection is cleared exactly when it was that id; distinct ids, `created <= updated` and non-blankness are kept |
| Store.NoteStore.HandleSave | notes_frontend/src/App.js:98-120 | the list becomes the upsert of the note and is written; the editor closes; the note's id is selected and the lookup returns the stored note; distinct ids are kept, and so are `created <= updated` and non-blankness under their conditions |
| Store.NoteStore.HandleCancel | notes_frontend/src/App.js:123-126 | the editor closes with no draft; nothing else changes |
| Store.NoteStore.HandleFilterChange | notes_frontend/src/App.js:129 | the search text becomes the typed value; nothing else changes |
| Store.NoteStore.CloseViewer | notes_frontend/src/App.js:286 | closing the viewer clears the selection; nothing else changes |
| Store.NoteStore.DialogSave | notes_frontend/src/App.js:222-229 | with both fields blank nothing happens; otherwise the edited draft with trimmed fields is saved as by `HandleSave`; no blank note is ever stored this way |

## Left out

- Rendering: the JSX components (`Logo`, `NavBar`, `Sidebar`, the list markup, the dialog and viewer layout), the colours, `useMemo` and `useEffect`. They only display state.
- The dialog's own `title` and `content` state. Its reset from the draft on opening is not modelled; `DialogSave` takes the two field values as arguments.
- The viewer's Edit and Delete buttons. They call `CloseViewer` and then `HandleEdit` or `HandleDelete`, which are modelled one by one; the composition is not modelled.
- Persistence: `localStorage` and the JSON encoding. Reading is the constructor's argument. Writing is the `persisted` field, which after every write equals the list. Corrupt or missing storage and write failures (an exception when the write fails) are not modelled.
- Randomness and the clock: `Math.random` ids and `Date` timestamps are arguments. Each handler takes one clock reading `now`, while the code reads the clock separately for `created` and `updated` (lines 69-70 and 110-111) and once per matching note in the edit's `map` (line 103); the model treats the readings of one handler as equal, which is why a new note has `created == updated`. The id's format (`'_'` plus up to 8 base-36 digits) and ISO-8601 strings are not modelled.
- `window.confirm`: a blocking browser dialog; its answer is the `confirmed` argument.
- Text.ToLower: lower-cases only ASCII letters, because full Unicode case mapping (`toLowerCase` of other scripts) is a large table outside this model.
- Display-only helpers: the 40-character snippet, "(Untitled)" and the local display of the update time.
