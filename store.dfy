/**
  The note window's state and its event handlers, with the Swing widgets taken
  away: `notes` is `allNotes`, `view` is the list model the window shows, and
  `stored` is the collection the store file holds. The text of the title field,
  the content area and the search field, the selected list entry, the clock,
  the UUID generator and the random palette pick arrive as parameters.
*/
module Store {
  import opened Wrappers
  import opened Text
  import opened Notes
  import opened TitleSuggestion
  import opened View

  class NoteStore {
    /** The whole collection, in insertion order (newest creation first). */
    var notes: seq<Note>
    /** The list model: what the last refresh projected from the collection. */
    var view: seq<Note>
    /** The collection the store file holds, or None when it holds no readable one. */
    var stored: Option<seq<Note>>

    /**
      Opening the window: the collection is read from the store file, or left
      empty when the file is missing or unreadable, and then listed unfiltered.
    */
    constructor (file: Option<seq<Note>>)
      ensures notes == (if file.Some? then file.value else [])
      ensures stored == file
      ensures view == Project(notes, Some(""))
    {
      notes := if file.Some? then file.value else [];
      stored := file;
      view := [];
      new;
      Refresh(Some(""));
    }

    /** `refreshList`: clear the list model and append the projected notes one by one. */
    method Refresh(filter: Option<string>)
      modifies this`view
      ensures view == Project(notes, filter)
    {
      var filtered := Project(notes, filter);
      view := [];
      for i := 0 to |filtered|
        invariant view == filtered[..i]
      {
        view := view + [filtered[i]];
      }
    }

    /** `persist`: write the whole collection to the store file. */
    method Persist()
      modifies this`stored
      ensures stored == Some(notes)
    {
      stored := Some(notes);
    }

    /**
      `suggestNewTitle`: try "New Note", then "New Note 2", "New Note 3", ...
      and return the first title no note carries.
    */
    method SuggestTitle() returns (t: string)
      ensures t !in Titles(notes)
      ensures BaseTitle !in Titles(notes) ==> t == BaseTitle
      ensures exists k :: FirstFree(Titles(notes), k) && t == Candidate(k)
    {
      var titles := Titles(notes);
      var i := 1;
      t := BaseTitle;
      while t in titles
        invariant i >= 1 && t == Candidate(i)
        invariant Tried(i - 1) <= titles
        decreases |titles| - |Tried(i - 1)|
      {
        assert Tried(i) == Tried(i - 1) + {t};
        SubsetCard(Tried(i), titles);
        i := i + 1;
        t := BaseTitle + " " + DecimalString(i);
      }
      assert FirstFree(titles, i);
    }

    /**
      `newNote`: a fresh note titled with the suggestion goes to the front of
      the collection and the list is refreshed. The store file is not written.
    */
    method Create(id: nat, now: int, color: PaletteIndex, search: string)
      modifies this
      ensures |notes| == |old(notes)| + 1 && notes[1..] == old(notes)
      ensures notes[0] == Note(id, notes[0].title, "", now, now, color, false)
      ensures notes[0].title !in Titles(old(notes))
      ensures exists k :: FirstFree(Titles(old(notes)), k) && notes[0].title == Candidate(k)
      ensures UniqueIds(old(notes)) && id !in Ids(old(notes)) ==> UniqueIds(notes)
      ensures TimesOrdered(old(notes)) ==> TimesOrdered(notes)
      ensures stored == old(stored)
      ensures view == Project(notes, Some(search))
    {
      ghost var file := stored;
      var n := NewNote(id, now, color);
      var t := SuggestTitle();
      n := n.(title := t);
      if UniqueIds(notes) && id !in Ids(notes) {
        PrependUnique(n, notes);
      }
      if TimesOrdered(notes) {
        PrependTimesOrdered(n, notes);
      }
      notes := [n] + notes;
      assert stored == file;
      Refresh(Some(search));
    }

    /**
      `saveCurrentNote`: with a note selected (its position in the collection),
      store the title field's text (the fallback literal when blank, trimmed
      otherwise), the content verbatim and the clock reading as its update
      stamp; then write the store file and refresh the list. With nothing
      selected, nothing happens.
    */
    method Save(sel: Option<nat>, titleText: string, contentText: string, now: int, search: string)
      requires sel.Some? ==> sel.value < |notes|
      modifies this
      ensures sel.None? ==> notes == old(notes) && view == old(view) && stored == old(stored)
      ensures sel.Some? ==>
        && notes == old(notes)[sel.value := Saved(old(notes)[sel.value], titleText, contentText, now)]
        && stored == Some(notes)
        && view == Project(notes, Some(search))
      ensures UniqueIds(old(notes)) ==> UniqueIds(notes)
      ensures TimesOrdered(old(notes)) && (sel.Some? ==> old(notes)[sel.value].createdAt <= now) ==> TimesOrdered(notes)
    {
      if sel.None? {
        return;
      }
      var k := sel.value;
      notes := notes[k := Saved(notes[k], titleText, contentText, now)];
      Persist();
      Refresh(Some(search));
    }

    /**
      `togglePin`: with a note selected, flip its pin, write the store file and
      refresh the list; the update stamp is left alone.
    */
    method TogglePin(sel: Option<nat>, search: string)
      requires sel.Some? ==> sel.value < |notes|
      modifies this
      ensures sel.None? ==> notes == old(notes) && view == old(view) && stored == old(stored)
      ensures sel.Some? ==>
        && notes == old(notes)[sel.value := Toggled(old(notes)[sel.value])]
        && stored == Some(notes)
        && view == Project(notes, Some(search))
      ensures UniqueIds(old(notes)) ==> UniqueIds(notes)
      ensures TimesOrdered(old(notes)) ==> TimesOrdered(notes)
    {
      if sel.None? {
        return;
      }
      var k := sel.value;
      notes := notes[k := Toggled(notes[k])];
      Persist();
      Refresh(Some(search));
    }

    /**
      `deleteCurrentNote`, once the user has confirmed: every note with the
      selected note's id leaves the collection, the list is refreshed and the
      store file written. With nothing selected, nothing happens.
    */
    method Delete(sel: Option<nat>, search: string)
      requires sel.Some? ==> sel.value < |notes|
      modifies this
      ensures sel.None? ==> notes == old(notes) && view == old(view) && stored == old(stored)
      ensures sel.Some? ==>
        && notes == RemoveId(old(notes), old(notes)[sel.value].id)
        && stored == Some(notes)
        && view == Project(notes, Some(search))
      ensures sel.Some? && UniqueIds(old(notes)) ==>
        notes == old(notes)[..sel.value] + old(notes)[sel.value + 1..]
      ensures UniqueIds(old(notes)) ==> UniqueIds(notes)
      ensures TimesOrdered(old(notes)) ==> TimesOrdered(notes)
    {
      if sel.None? {
        return;
      }
      var k := sel.value;
      if TimesOrdered(notes) {
        RemoveIdTimesOrdered(notes, notes[k].id);
      }
      if UniqueIds(notes) {
        RemoveIdOfUnique(notes, k);
        RemoveIdUnique(notes, notes[k].id);
      }
      notes := RemoveId(notes, notes[k].id);
      Refresh(Some(search));
      Persist();
    }
  }
}
