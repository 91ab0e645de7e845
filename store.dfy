/**
 * The session state of the notes app and its event handlers: the five state
 * variables of the `App` component, plus the browser storage slot the list is
 * written to after every change.
 */
module Store {
  import opened Wrappers
  import opened Text
  import opened Seqs
  import opened Notes

  class NoteStore {
    var notes: seq<Note>
    var selectedId: Option<string>
    var editingNote: Option<Note>
    var filter: string
    var showEditor: bool
    /** The stored copy of the list, as last written; `None` while nothing has been written. */
    var persisted: Option<seq<Note>>

    /** The editor is open exactly when there is a draft, and the stored copy is the list. */
    ghost predicate Valid()
      reads this
    {
      && (showEditor <==> editingNote.Some?)
      && (persisted.Some? ==> persisted.value == notes)
    }

    /** A session starting from the list read back from storage (`getInitialNotes`). */
    constructor (initial: seq<Note>)
      ensures Valid()
      ensures notes == initial && persisted == None
      ensures selectedId == None && editingNote == None && filter == [] && !showEditor
    {
      notes := initial;
      selectedId := None;
      editingNote := None;
      filter := [];
      showEditor := false;
      persisted := None;
    }

    /** `filteredNotes`: a subsequence of the list; the whole list for a blank search. */
    function FilteredNotes(): (r: seq<Note>)
      reads this
      ensures IsSubsequence(r, notes)
      ensures AllWhitespace(filter) ==> r == notes
    {
      FilterNotesSubsequence(notes, filter);
      FilterNotes(notes, filter)
    }

    /** `selectedNote`: the first note carrying the selected id, if there is one. */
    function SelectedNote(): (r: Option<Note>)
      reads this
      ensures r.None? <==> selectedId.None? || !HasId(notes, selectedId.value)
      ensures r.Some? ==> r.value in notes && selectedId == Some(r.value.id)
    {
      match selectedId
      case None => None
      case Some(id) => FindById(notes, id)
    }

    /** `saveNotes`: replace the list and write it to storage. */
    method SaveNotes(next: seq<Note>)
      requires Valid()
      modifies this
      ensures Valid()
      ensures notes == next && persisted == Some(next)
      ensures selectedId == old(selectedId) && editingNote == old(editingNote)
      ensures filter == old(filter) && showEditor == old(showEditor)
    {
      notes := next;
      persisted := Some(next);
    }

    /** `handleCreate`: open the editor on an empty draft with id `freshId`, stamped `now`. */
    method HandleCreate(freshId: string, now: nat)
      requires Valid()
      modifies this
      ensures Valid()
      ensures editingNote == Some(Note(freshId, [], [], now, now)) && showEditor
      ensures notes == old(notes) && persisted == old(persisted)
      ensures selectedId == old(selectedId) && filter == old(filter)
    {
      editingNote := Some(Note(freshId, [], [], now, now));
      showEditor := true;
    }

    /** `handleSelect`: show `note` in the viewer and close the editor. */
    method HandleSelect(note: Note)
      requires Valid()
      modifies this
      ensures Valid()
      ensures selectedId == Some(note.id) && editingNote == None && !showEditor
      ensures notes == old(notes) && persisted == old(persisted) && filter == old(filter)
    {
      selectedId := Some(note.id);
      editingNote := None;
      showEditor := false;
    }

    /** `handleEdit`: open the editor on a copy of `note`. */
    method HandleEdit(note: Note)
      requires Valid()
      modifies this
      ensures Valid()
      ensures editingNote == Some(note) && showEditor
      ensures notes == old(notes) && persisted == old(persisted)
      ensures selectedId == old(selectedId) && filter == old(filter)
    {
      editingNote := Some(note);
      showEditor := true;
    }

    /**
     * `handleDelete`: when the user `confirmed`, remove every note with
     * `note`'s id, write the list, and clear the selection if it was that id.
     * Without confirmation nothing changes.
     */
    method HandleDelete(note: Note, confirmed: bool)
      requires Valid()
      modifies this
      ensures Valid()
      ensures !confirmed ==> notes == old(notes) && persisted == old(persisted)
                             && selectedId == old(selectedId)
      ensures confirmed ==> notes == RemoveById(old(notes), note.id) && persisted == Some(notes)
      ensures confirmed ==> selectedId == if old(selectedId) == Some(note.id) then None else old(selectedId)
      ensures editingNote == old(editingNote) && showEditor == old(showEditor) && filter == old(filter)
      ensures old(UniqueIds(notes)) ==> UniqueIds(notes)
      ensures old(Chronological(notes)) ==> Chronological(notes)
      ensures old(AllNonBlank(notes)) ==> AllNonBlank(notes)
    {
      if !confirmed {
        return;
      }
      var next := RemoveById(notes, note.id);
      if UniqueIds(notes) { RemoveKeepsUniqueIds(notes, note.id); }
      if Chronological(notes) { RemoveKeepsChronological(notes, note.id); }
      if AllNonBlank(notes) { RemoveKeepsNonBlank(notes, note.id); }
      SaveNotes(next);
      if selectedId == Some(note.id) {
        selectedId := None;
      }
    }

    /**
     * `handleSave`: store `note` (an edit when its id is already in the list,
     * otherwise a new note in front), write the list, close the editor and
     * select the saved note, which the lookup then finds.
     */
    method HandleSave(note: Note, now: nat)
      requires Valid()
      modifies this
      ensures Valid()
      ensures notes == Upsert(old(notes), note, now) && persisted == Some(notes)
      ensures editingNote == None && !showEditor && selectedId == Some(note.id)
      ensures filter == old(filter)
      ensures SelectedNote() == Some(SavedNote(old(notes), note, now))
      ensures old(UniqueIds(notes)) ==> UniqueIds(notes)
      ensures old(Chronological(notes)) && note.created <= now ==> Chronological(notes)
      ensures old(AllNonBlank(notes)) && NonBlank(note) ==> AllNonBlank(notes)
    {
      var next := Upsert(notes, note, now);
      ghost var stored := SavedNote(notes, note, now);
      UpsertFinds(notes, note, now);
      assert FindById(next, note.id) == Some(stored);
      if UniqueIds(notes) { UpsertKeepsUniqueIds(notes, note, now); }
      if Chronological(notes) && note.created <= now { UpsertKeepsChronological(notes, note, now); }
      if AllNonBlank(notes) && NonBlank(note) { UpsertKeepsNonBlank(notes, note, now); }
      // Naming the three kept invariants once keeps the solver's search small.
      ghost var kept := (UniqueIds(notes) ==> UniqueIds(next))
                        && (Chronological(notes) && note.created <= now ==> Chronological(next))
                        && (AllNonBlank(notes) && NonBlank(note) ==> AllNonBlank(next));
      assert kept;
      SaveNotes(next);
      editingNote := None;
      showEditor := false;
      selectedId := Some(note.id);
      assert notes == next;
      assert SelectedNote() == FindById(next, note.id);
    }

    /** `handleCancel`: close the editor and drop the draft. */
    method HandleCancel()
      requires Valid()
      modifies this
      ensures Valid()
      ensures editingNote == None && !showEditor
      ensures notes == old(notes) && persisted == old(persisted)
      ensures selectedId == old(selectedId) && filter == old(filter)
    {
      editingNote := None;
      showEditor := false;
    }

    /** `handleFilterChange`: the search box now holds `value`. */
    method HandleFilterChange(value: string)
      requires Valid()
      modifies this
      ensures Valid()
      ensures filter == value
      ensures notes == old(notes) && persisted == old(persisted) && selectedId == old(selectedId)
      ensures editingNote == old(editingNote) && showEditor == old(showEditor)
    {
      filter := value;
    }

    /** The viewer's Close: clear the selection. */
    method CloseViewer()
      requires Valid()
      modifies this
      ensures Valid()
      ensures selectedId == None
      ensures notes == old(notes) && persisted == old(persisted) && filter == old(filter)
      ensures editingNote == old(editingNote) && showEditor == old(showEditor)
    {
      selectedId := None;
    }

    /**
     * The editor dialog's Save button with `title` and `content` typed in. When
     * both are blank the button is disabled and nothing happens (`saved` is
     * false); otherwise the draft, with both fields trimmed, goes to `HandleSave`.
     * Saving through the dialog never stores a blank note.
     */
    method DialogSave(title: string, content: string, now: nat) returns (saved: bool)
      requires Valid() && showEditor
      modifies this
      ensures Valid()
      ensures saved <==> !(AllWhitespace(title) && AllWhitespace(content))
      ensures !saved ==> notes == old(notes) && persisted == old(persisted)
                         && selectedId == old(selectedId) && editingNote == old(editingNote)
                         && showEditor == old(showEditor) && filter == old(filter)
      ensures saved ==> var draft := old(editingNote).value.(title := Trim(title), content := Trim(content));
                        && notes == Upsert(old(notes), draft, now) && persisted == Some(notes)
                        && editingNote == None && !showEditor && selectedId == Some(draft.id)
                        && filter == old(filter)
      ensures old(UniqueIds(notes)) ==> UniqueIds(notes)
      ensures old(AllNonBlank(notes)) ==> AllNonBlank(notes)
      ensures old(Chronological(notes)) && old(editingNote).value.created <= now ==> Chronological(notes)
    {
      var draft := DialogDraft(editingNote.value, title, content);
      if draft.None? {
        return false;
      }
      HandleSave(draft.value, now);
      saved := true;
    }
  }

  /** A new note: create a draft, type a title and a content, save. */
  method CreateScenario(id: string, t0: nat, t1: nat)
    requires t0 <= t1
  {
    assert !IsWhitespace('A') && !IsWhitespace('x');
    TrimKeeps("A");
    TrimKeeps("x");
    var store := new NoteStore([]);
    store.HandleCreate(id, t0);
    var saved := store.DialogSave("A", "x", t1);
    assert saved;
    assert !HasId([], id);
    assert store.notes == [Note(id, "A", "x", t1, t1)] && store.selectedId == Some(id);
  }

  /** Editing that note later and saving it keeps its `created` and stamps `updated`. */
  method EditScenario(id: string, t1: nat, t2: nat)
    requires t1 < t2
  {
    assert !IsWhitespace('A') && !IsWhitespace('y');
    TrimKeeps("A");
    TrimKeeps("y");
    var first := Note(id, "A", "x", t1, t1);
    var store := new NoteStore([first]);
    store.HandleEdit(first);
    assert store.editingNote == Some(first);
    var saved := store.DialogSave("A", "y", t2);
    assert saved;
    EditThenSave([first], 0, "A", "y", t2);
    assert store.notes == [first][0 := Note(id, "A", "y", t1, t2)];
    assert store.notes == [Note(id, "A", "y", t1, t2)] && store.selectedId == Some(id);
  }

  /** Deleting the note that is shown in the viewer empties the list and clears the selection. */
  method DeleteScenario(note: Note)
  {
    var store := new NoteStore([note]);
    store.HandleSelect(note);
    assert store.selectedId == Some(note.id);
    RemovePresent([note], 0);
    store.HandleDelete(note, true);
    assert store.notes == [] && store.selectedId == None;
  }
}
