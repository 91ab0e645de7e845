/**
 * The note list and the pure computations the app performs on it: the search
 * filter, the lookup of the selected note, the two branches of a save, the
 * removal done by a delete, and the draft the editor dialog hands to a save.
 */
module Notes {
  import opened Wrappers
  import opened Text
  import opened Seqs

  /** A note as the app keeps it. Timestamps are abstract clock readings. */
  datatype Note = Note(id: string, title: string, content: string, created: nat, updated: nat)

  /** `notes.some(n => n.id === id)`: true exactly when some note of the list carries `id`. */
  predicate HasId(notes: seq<Note>, id: string)
  {
    exists i :: 0 <= i < |notes| && notes[i].id == id
  }

  /** No two notes of the list share an id. */
  predicate UniqueIds(notes: seq<Note>) {
    forall i, j :: 0 <= i < j < |notes| ==> notes[i].id != notes[j].id
  }

  /** Every note was last updated no earlier than it was created. */
  predicate Chronological(notes: seq<Note>) {
    forall i :: 0 <= i < |notes| ==> notes[i].created <= notes[i].updated
  }

  /** A note with something in it: a title or a content. */
  predicate NonBlank(n: Note) {
    n.title != [] || n.content != []
  }

  predicate AllNonBlank(notes: seq<Note>) {
    forall i :: 0 <= i < |notes| ==> NonBlank(notes[i])
  }

  // ---------------------------------------------------------------- lookup

  /** `i` is the position of the first note with id `id`. */
  predicate IsFirstWithId(notes: seq<Note>, id: string, i: int) {
    0 <= i < |notes| && notes[i].id == id && forall j :: 0 <= j < i ==> notes[j].id != id
  }

  /** `notes.find(n => n.id === id)`: the first note with that id, if any. */
  function FindById(notes: seq<Note>, id: string): (r: Option<Note>)
    ensures r.None? <==> !HasId(notes, id)
    ensures r.Some? ==> exists i :: IsFirstWithId(notes, id, i) && notes[i] == r.value
  {
    if notes == [] then None
    else if notes[0].id == id then
      assert IsFirstWithId(notes, id, 0);
      Some(notes[0])
    else
      var r := FindById(notes[1..], id);
      assert HasId(notes, id) ==> HasId(notes[1..], id) by {
        if HasId(notes, id) {
          var i :| 0 <= i < |notes| && notes[i].id == id;
          assert notes[1..][i - 1].id == id;
        }
      }
      assert r.Some? ==> exists i :: IsFirstWithId(notes, id, i) && notes[i] == r.value by {
        if r.Some? {
          var i :| IsFirstWithId(notes[1..], id, i) && notes[1..][i] == r.value;
          assert IsFirstWithId(notes, id, i + 1);
        }
      }
      r
  }

  /** With distinct ids the lookup finds exactly the note that carries the id. */
  lemma FindByIdUnique(notes: seq<Note>, i: int)
    requires UniqueIds(notes) && 0 <= i < |notes|
    ensures FindById(notes, notes[i].id) == Some(notes[i])
  {
    var id := notes[i].id;
    assert HasId(notes, id);
    var found := FindById(notes, id);
    assert found.Some?;
    var j :| IsFirstWithId(notes, id, j) && notes[j] == found.value;
    assert j == i;
  }

  // ---------------------------------------------------------------- search

  /** The note's title or content, lower-cased, contains `needle`. */
  predicate Matches(n: Note, needle: string) {
    Contains(ToLower(n.title), needle) || Contains(ToLower(n.content), needle)
  }

  function MatchesNeedle(needle: string): Note -> bool {
    (n: Note) => Matches(n, needle)
  }

  /** `filter.trim().toLowerCase()`: what a note must contain to be shown. */
  function Needle(query: string): string {
    ToLower(Trim(query))
  }

  /**
   * `filteredNotes`: the notes shown for the search box's current `query`. It is
   * never longer than the list, and every note it shows matches the query.
   */
  function FilterNotes(notes: seq<Note>, query: string): (r: seq<Note>)
    ensures |r| <= |notes|
    ensures forall i :: 0 <= i < |r| ==> Matches(r[i], Needle(query))
  {
    if Trim(query) == [] then
      assert Needle(query) == [];
      assert forall i :: 0 <= i < |notes| ==> Matches(notes[i], Needle(query)) by {
        forall i | 0 <= i < |notes| ensures Matches(notes[i], Needle(query)) {
          ContainsEmpty(ToLower(notes[i].title));
        }
      }
      notes
    else Filter(notes, MatchesNeedle(Needle(query)))
  }

  /** A blank query (empty or whitespace only) shows the list unchanged. */
  lemma FilterNotesBlank(notes: seq<Note>, query: string)
    requires AllWhitespace(query)
    ensures FilterNotes(notes, query) == notes
  {
  }

  /**
   * The shortcut for a blank query agrees with the general rule: the empty
   * needle occurs in every note, so both give the list of matching notes.
   */
  lemma FilterNotesIsFilter(notes: seq<Note>, query: string)
    ensures FilterNotes(notes, query) == Filter(notes, MatchesNeedle(Needle(query)))
  {
    if Trim(query) == [] {
      forall i | 0 <= i < |notes| ensures MatchesNeedle(Needle(query))(notes[i]) {
        ContainsEmpty(ToLower(notes[i].title));
      }
      FilterKeepsAll(notes, MatchesNeedle(Needle(query)));
    }
  }

  /** The visible list is an order-preserving subsequence of `notes`. */
  lemma FilterNotesSubsequence(notes: seq<Note>, query: string)
    ensures IsSubsequence(FilterNotes(notes, query), notes)
  {
    FilterNotesIsFilter(notes, query);
    FilterIsSubsequence(notes, MatchesNeedle(Needle(query)));
  }

  /** The visible list holds each matching note as often as `notes` does, and no other note. */
  lemma FilterNotesCount(notes: seq<Note>, query: string, n: Note)
    ensures multiset(FilterNotes(notes, query))[n]
            == if Matches(n, Needle(query)) then multiset(notes)[n] else 0
  {
    FilterNotesIsFilter(notes, query);
    FilterCount(notes, MatchesNeedle(Needle(query)), n);
  }

  /** A note of the list is shown exactly when it matches the query. */
  lemma FilterNotesShows(notes: seq<Note>, query: string, i: int)
    requires 0 <= i < |notes|
    ensures notes[i] in FilterNotes(notes, query) <==> Matches(notes[i], Needle(query))
  {
    FilterNotesIsFilter(notes, query);
    FilterMember(notes, MatchesNeedle(Needle(query)), notes[i]);
  }

  /** Searching the search result again with the same query changes nothing. */
  lemma FilterNotesIdempotent(notes: seq<Note>, query: string)
    ensures FilterNotes(FilterNotes(notes, query), query) == FilterNotes(notes, query)
  {
    FilterNotesIsFilter(notes, query);
    FilterNotesIsFilter(FilterNotes(notes, query), query);
    FilterIdempotent(notes, MatchesNeedle(Needle(query)));
  }

  // ---------------------------------------------------------------- save

  /**
   * `notes.map(n => n.id === saved.id ? saved : n)`: the same length with every
   * id in its place; each note is either kept or replaced by `saved`.
   */
  function ReplaceById(notes: seq<Note>, saved: Note): (r: seq<Note>)
    ensures |r| == |notes|
    ensures forall i :: 0 <= i < |r| ==> r[i].id == notes[i].id
    ensures forall i :: 0 <= i < |r| ==> r[i] == notes[i] || r[i] == saved
  {
    seq(|notes|, i requires 0 <= i < |notes| => if notes[i].id == saved.id then saved else notes[i])
  }

  /**
   * The list after saving `draft` at time `now`: an existing id is edited in
   * place with a new `updated`; a new id is prepended with both timestamps `now`.
   */
  function Upsert(notes: seq<Note>, draft: Note, now: nat): (r: seq<Note>)
    ensures HasId(r, draft.id)
    ensures |notes| <= |r| <= |notes| + 1
  {
    if HasId(notes, draft.id) then
      var r := ReplaceById(notes, draft.(updated := now));
      assert HasId(r, draft.id) by {
        var k :| 0 <= k < |notes| && notes[k].id == draft.id;
        assert r[k].id == draft.id;
      }
      r
    else
      var r := [draft.(created := now, updated := now)] + notes;
      assert r[0].id == draft.id;
      r
  }

  /** A save loses no id and adds none but the draft's. */
  lemma UpsertIds(notes: seq<Note>, draft: Note, now: nat, id: string)
    ensures HasId(Upsert(notes, draft, now), id) <==> HasId(notes, id) || id == draft.id
  {
    var r := Upsert(notes, draft, now);
    if HasId(notes, id) {
      var k :| 0 <= k < |notes| && notes[k].id == id;
      if HasId(notes, draft.id) {
        assert r[k].id == id;
      } else {
        assert r[k + 1] == notes[k];
      }
    }
    if HasId(r, id) && id != draft.id {
      var k :| 0 <= k < |r| && r[k].id == id;
      if HasId(notes, draft.id) {
        assert notes[k].id == id;
      } else {
        assert r[k] == notes[k - 1];
      }
    }
  }

  /**
   * The note a save stores for `draft`: the draft with `updated = now`, and with
   * `created = now` too when its id is new. It is an element of the saved list.
   */
  function SavedNote(notes: seq<Note>, draft: Note, now: nat): (r: Note)
    ensures r in Upsert(notes, draft, now)
    ensures r.id == draft.id && r.title == draft.title && r.content == draft.content
    ensures r.updated == now && r.created == if HasId(notes, draft.id) then draft.created else now
  {
    if HasId(notes, draft.id) then
      assert draft.(updated := now) in Upsert(notes, draft, now) by {
        var k :| 0 <= k < |notes| && notes[k].id == draft.id;
        assert Upsert(notes, draft, now)[k] == draft.(updated := now);
      }
      draft.(updated := now)
    else
      assert Upsert(notes, draft, now)[0] == draft.(created := now, updated := now);
      draft.(created := now, updated := now)
  }

  /**
   * Saving over an existing id keeps the length and every id in its place;
   * each note with that id becomes the draft stamped `now`, every other note is untouched.
   */
  lemma UpsertExisting(notes: seq<Note>, draft: Note, now: nat)
    requires HasId(notes, draft.id)
    ensures |Upsert(notes, draft, now)| == |notes|
    ensures forall j :: 0 <= j < |notes| ==>
              Upsert(notes, draft, now)[j]
              == if notes[j].id == draft.id then draft.(updated := now) else notes[j]
  {
  }

  /** With distinct ids, saving over the id at position `i` changes position `i` only. */
  lemma UpsertExistingAt(notes: seq<Note>, draft: Note, now: nat, i: int)
    requires UniqueIds(notes) && 0 <= i < |notes| && notes[i].id == draft.id
    ensures Upsert(notes, draft, now) == notes[i := draft.(updated := now)]
  {
    UpsertExisting(notes, draft, now);
  }

  /**
   * Editing a stored note (the draft is a copy of `notes[i]`, as made by the
   * edit handler, with a new title and content) and saving it keeps its id and
   * its `created` and stamps `updated` with `now`; nothing else changes.
   */
  lemma EditThenSave(notes: seq<Note>, i: int, title: string, content: string, now: nat)
    requires UniqueIds(notes) && 0 <= i < |notes|
    ensures Upsert(notes, notes[i].(title := title, content := content), now)
            == notes[i := Note(notes[i].id, title, content, notes[i].created, now)]
  {
    UpsertExistingAt(notes, notes[i].(title := title, content := content), now, i);
  }

  lemma UpsertKeepsUniqueIds(notes: seq<Note>, draft: Note, now: nat)
    requires UniqueIds(notes)
    ensures UniqueIds(Upsert(notes, draft, now))
  {
    var r := Upsert(notes, draft, now);
    if !HasId(notes, draft.id) {
      forall i, j | 0 <= i < j < |r| ensures r[i].id != r[j].id {
        if i == 0 {
          assert r[j] == notes[j - 1];
        } else {
          assert r[i] == notes[i - 1] && r[j] == notes[j - 1];
        }
      }
    }
  }

  /** After a save the lookup of the draft's id finds the note the save stored. */
  lemma UpsertFinds(notes: seq<Note>, draft: Note, now: nat)
    ensures FindById(Upsert(notes, draft, now), draft.id) == Some(SavedNote(notes, draft, now))
  {
    var r := Upsert(notes, draft, now);
    if HasId(notes, draft.id) {
      var k :| 0 <= k < |notes| && notes[k].id == draft.id;
      assert r[k].id == draft.id;
      assert HasId(r, draft.id);
      var found := FindById(r, draft.id);
      assert found.Some?;
      var i :| IsFirstWithId(r, draft.id, i) && r[i] == found.value;
      assert r[i] == draft.(updated := now);
    } else {
      assert r[0] == SavedNote(notes, draft, now);
    }
  }

  /** Replacing the notes with `saved`'s id does not change the lookup of any other id. */
  lemma {:induction false} ReplaceLookupOther(notes: seq<Note>, saved: Note, other: string)
    requires other != saved.id
    ensures FindById(ReplaceById(notes, saved), other) == FindById(notes, other)
    decreases |notes|
  {
    if notes != [] {
      var r := ReplaceById(notes, saved);
      assert r[1..] == ReplaceById(notes[1..], saved);
      ReplaceLookupOther(notes[1..], saved, other);
      if notes[0].id == other {
        assert r[0] == notes[0];
      }
    }
  }

  /** A save leaves the lookup of every other id as it was. */
  lemma UpsertLookupOther(notes: seq<Note>, draft: Note, now: nat, other: string)
    requires other != draft.id
    ensures FindById(Upsert(notes, draft, now), other) == FindById(notes, other)
  {
    if HasId(notes, draft.id) {
      ReplaceLookupOther(notes, draft.(updated := now), other);
    } else {
      assert Upsert(notes, draft, now)[1..] == notes;
    }
  }

  /** Under a clock that never runs backwards (`draft.created <= now`), `created <= updated` is kept. */
  lemma UpsertKeepsChronological(notes: seq<Note>, draft: Note, now: nat)
    requires Chronological(notes) && draft.created <= now
    ensures Chronological(Upsert(notes, draft, now))
  {
    var r := Upsert(notes, draft, now);
    if !HasId(notes, draft.id) {
      forall i | 0 <= i < |r| ensures r[i].created <= r[i].updated {
        if i > 0 { assert r[i] == notes[i - 1]; }
      }
    }
  }

  /** Saving a draft with a title or a content keeps every stored note non-blank. */
  lemma UpsertKeepsNonBlank(notes: seq<Note>, draft: Note, now: nat)
    requires AllNonBlank(notes) && NonBlank(draft)
    ensures AllNonBlank(Upsert(notes, draft, now))
  {
    var r := Upsert(notes, draft, now);
    if !HasId(notes, draft.id) {
      forall i | 0 <= i < |r| ensures NonBlank(r[i]) {
        if i > 0 { assert r[i] == notes[i - 1]; }
      }
    }
  }

  // ---------------------------------------------------------------- delete

  function IdDiffers(id: string): Note -> bool {
    (n: Note) => n.id != id
  }

  /** `notes.filter(n => n.id !== id)`: no longer than the list, and no note with `id` is left. */
  function RemoveById(notes: seq<Note>, id: string): (r: seq<Note>)
    ensures |r| <= |notes|
    ensures !HasId(r, id)
  {
    var r := Filter(notes, IdDiffers(id));
    assert forall k :: 0 <= k < |r| ==> r[k].id != id by {
      forall k | 0 <= k < |r| ensures r[k].id != id {
        assert IdDiffers(id)(r[k]);
      }
    }
    r
  }

  /**
   * Removing keeps the order of the rest: the result is a subsequence of
   * `notes` with no note of that id and every other note as often as before.
   */
  lemma RemoveByIdSpec(notes: seq<Note>, id: string, n: Note)
    ensures IsSubsequence(RemoveById(notes, id), notes)
    ensures !HasId(RemoveById(notes, id), id)
    ensures multiset(RemoveById(notes, id))[n] == if n.id == id then 0 else multiset(notes)[n]
  {
    FilterIsSubsequence(notes, IdDiffers(id));
    FilterCount(notes, IdDiffers(id), n);
  }

  /** Deleting an id that is not in the list leaves the list unchanged. */
  lemma RemoveAbsent(notes: seq<Note>, id: string)
    requires !HasId(notes, id)
    ensures RemoveById(notes, id) == notes
  {
    FilterKeepsAll(notes, IdDiffers(id));
  }

  /** With distinct ids, no note before or after position `i` carries the id of `notes[i]`. */
  lemma OnlyOneWithId(notes: seq<Note>, i: int)
    requires UniqueIds(notes) && 0 <= i < |notes|
    ensures !HasId(notes[..i], notes[i].id) && !HasId(notes[i + 1..], notes[i].id)
  {
    var before, after := notes[..i], notes[i + 1..];
    forall j | 0 <= j < |before| ensures before[j].id != notes[i].id {
      assert before[j] == notes[j];
    }
    forall j | 0 <= j < |after| ensures after[j].id != notes[i].id {
      assert after[j] == notes[i + 1 + j];
    }
  }

  /** With distinct ids, deleting the id at position `i` removes exactly that note. */
  lemma RemovePresent(notes: seq<Note>, i: int)
    requires UniqueIds(notes) && 0 <= i < |notes|
    ensures RemoveById(notes, notes[i].id) == notes[..i] + notes[i + 1..]
    ensures |RemoveById(notes, notes[i].id)| == |notes| - 1
  {
    var id, p := notes[i].id, IdDiffers(notes[i].id);
    var before, after := notes[..i], notes[i + 1..];
    OnlyOneWithId(notes, i);
    calc {
      RemoveById(notes, id);
      { assert notes == before + [notes[i]] + after; }
      Filter(before + [notes[i]] + after, p);
      { FilterConcat(before + [notes[i]], after, p); }
      Filter(before + [notes[i]], p) + Filter(after, p);
      { FilterConcat(before, [notes[i]], p); }
      Filter(before, p) + Filter([notes[i]], p) + Filter(after, p);
      { RemoveAbsent(before, id); RemoveAbsent(after, id); assert Filter([notes[i]], p) == []; }
      before + after;
    }
  }

  /** A delete leaves the lookup of every other id as it was. */
  lemma {:induction false} RemoveLookupOther(notes: seq<Note>, id: string, other: string)
    requires other != id
    ensures FindById(RemoveById(notes, id), other) == FindById(notes, other)
    decreases |notes|
  {
    if notes != [] {
      RemoveLookupOther(notes[1..], id, other);
      if notes[0].id != id {
        var r := RemoveById(notes, id);
        assert r == [notes[0]] + RemoveById(notes[1..], id);
        assert r[1..] == RemoveById(notes[1..], id);
      }
    }
  }

  /**
   * Saving a new id puts the stored note in front of the unchanged old list:
   * the list grows by one, and deleting the new note gives the old list back.
   */
  lemma UpsertNewAtFront(notes: seq<Note>, draft: Note, now: nat)
    requires !HasId(notes, draft.id)
    ensures |Upsert(notes, draft, now)| == |notes| + 1
    ensures Upsert(notes, draft, now)[0] == SavedNote(notes, draft, now)
    ensures RemoveById(Upsert(notes, draft, now), draft.id) == notes
  {
    var r := Upsert(notes, draft, now);
    assert r == [r[0]] + notes;
    RemoveAbsent(notes, draft.id);
  }

  /** Replacing the notes with `saved`'s id and then deleting that id is deleting it alone. */
  lemma {:induction false} RemoveReplaceById(notes: seq<Note>, saved: Note)
    ensures RemoveById(ReplaceById(notes, saved), saved.id) == RemoveById(notes, saved.id)
    decreases |notes|
  {
    if notes != [] {
      var r := ReplaceById(notes, saved);
      assert r == [r[0]] + ReplaceById(notes[1..], saved);
      RemoveReplaceById(notes[1..], saved);
    }
  }

  /** Whatever a save did, deleting the saved id afterwards leaves what deleting it before would. */
  lemma UpsertThenRemove(notes: seq<Note>, draft: Note, now: nat)
    ensures RemoveById(Upsert(notes, draft, now), draft.id) == RemoveById(notes, draft.id)
  {
    if HasId(notes, draft.id) {
      RemoveReplaceById(notes, draft.(updated := now));
    } else {
      UpsertNewAtFront(notes, draft, now);
      RemoveAbsent(notes, draft.id);
    }
  }

  /** A note of the list filtered out of `notes` came from `notes`. */
  lemma RemovedFrom(notes: seq<Note>, id: string, k: int)
    requires 0 <= k < |RemoveById(notes, id)|
    ensures exists j :: 0 <= j < |notes| && notes[j] == RemoveById(notes, id)[k]
  {
    var r := RemoveById(notes, id);
    assert r[k] in r;
    FilterSubset(notes, IdDiffers(id), r[k]);
  }

  lemma {:induction false} RemoveKeepsUniqueIds(notes: seq<Note>, id: string)
    requires UniqueIds(notes)
    ensures UniqueIds(RemoveById(notes, id))
    decreases |notes|
  {
    if notes != [] {
      var rest := RemoveById(notes[1..], id);
      RemoveKeepsUniqueIds(notes[1..], id);
      if notes[0].id != id {
        assert RemoveById(notes, id) == [notes[0]] + rest;
        forall k | 0 <= k < |rest| ensures rest[k].id != notes[0].id {
          RemovedFrom(notes[1..], id, k);
        }
      }
    }
  }

  lemma RemoveKeepsChronological(notes: seq<Note>, id: string)
    requires Chronological(notes)
    ensures Chronological(RemoveById(notes, id))
  {
    var r := RemoveById(notes, id);
    forall k | 0 <= k < |r| ensures r[k].created <= r[k].updated {
      RemovedFrom(notes, id, k);
    }
  }

  lemma RemoveKeepsNonBlank(notes: seq<Note>, id: string)
    requires AllNonBlank(notes)
    ensures AllNonBlank(RemoveById(notes, id))
  {
    var r := RemoveById(notes, id);
    forall k | 0 <= k < |r| ensures NonBlank(r[k]) {
      RemovedFrom(notes, id, k);
    }
  }

  // ---------------------------------------------------------------- editor dialog

  /**
   * What the editor's Save button hands to a save for the dialog's current
   * `title` and `content`: nothing when both are blank (the button is
   * disabled), otherwise the draft being edited with both fields trimmed.
   * Such a draft is never blank.
   */
  function DialogDraft(editing: Note, title: string, content: string): (r: Option<Note>)
    ensures r.None? <==> AllWhitespace(title) && AllWhitespace(content)
    ensures r.Some? ==> NonBlank(r.value)
    ensures r.Some? ==> r.value.title == Trim(title) && r.value.content == Trim(content)
    ensures r.Some? ==> r.value.id == editing.id && r.value.created == editing.created
                        && r.value.updated == editing.updated
  {
    if Trim(title) == [] && Trim(content) == [] then None
    else Some(editing.(title := Trim(title), content := Trim(content)))
  }

  /** The fields of a draft from the dialog are already trimmed: trimming them again changes nothing. */
  lemma DialogDraftTrimmed(editing: Note, title: string, content: string)
    requires DialogDraft(editing, title, content).Some?
    ensures var d := DialogDraft(editing, title, content).value;
            Trim(d.title) == d.title && Trim(d.content) == d.content
  {
    TrimIdempotent(title);
    TrimIdempotent(content);
  }

  /** The query "shop", trimmed and lower-cased, is "shop". */
  lemma ShopNeedle()
    ensures Trim("shop") != [] && Needle("shop") == "shop"
  {
    assert !IsWhitespace('s') && !IsWhitespace('p');
    TrimKeeps("shop");
  }

  /** "shop" occurs in "Shopping" once case is ignored, and not in "Work". */
  lemma ShopMatches(shopping: Note, work: Note)
    requires shopping.title == "Shopping"
    requires work.title == "Work" && work.content == ""
    ensures Matches(shopping, "shop") && !Matches(work, "shop")
  {
    assert ToLower(shopping.title)[..4] == "shop";
    assert OccursAt(ToLower(shopping.title), "shop", 0);
    assert ToLower(work.title)[0] == 'w';
    ContainsSameLength(ToLower(work.title), "shop");
    assert ToLower(work.content) == [];
  }

  /**
   * Searching "shop" among a note titled "Shopping" and a note titled "Work"
   * (both without content) shows the first only: the search ignores case.
   */
  lemma SearchScenario(shopping: Note, work: Note)
    requires shopping.title == "Shopping" && shopping.content == ""
    requires work.title == "Work" && work.content == ""
    ensures FilterNotes([shopping, work], "shop") == [shopping]
  {
    ShopNeedle();
    ShopMatches(shopping, work);
    var p := MatchesNeedle("shop");
    assert p(shopping) && !p(work);
    assert [shopping, work][1..] == [work];
    assert Filter([work], p) == [];
    assert Filter([shopping, work], p) == [shopping] + Filter([work], p);
  }
}
