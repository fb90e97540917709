# Colorful Notes: the note collection, modelled in Dafny

This project models the core of a single-window Swing note manager, `NoteApp`.
The model keeps its in-memory collection `allNotes` and the list model the window
shows. It covers the event handlers that change the collection: create, save,
pin/unpin and delete.
It also covers the projection that builds the displayed list: a case-insensitive
substring filter, then a stable sort with pinned notes first and the newest update
first. Last comes the suggester for default titles ("New Note", "New Note 2", ...).

Widgets are replaced by parameters. These are the text of the title field, the
content area and the search field, and the selected list entry, given as its
position in the collection (`None` when nothing is selected). The environment is
parameters too: the UUID becomes a `nat` id, `LocalDateTime.now()` an `int` clock
reading, and the random pastel an index into the six-colour palette.

Modules:

- `Wrappers`: `Option`, for a Java reference that may be null.
- `Text`: `trim`, `isBlank`, ASCII `toLowerCase`, `contains`, and the decimal digits of the title counter.
- `Notes`: the `Note` record, the default note, the save and toggle updates, and `removeIf` by id.
- `TitleSuggestion`: the sequence of titles the suggester tries, and facts about the first free one.
- `View`: the filter, the comparator, a stable insertion sort, and the projection `Project`.
- `Store`: class `NoteStore`. It holds `notes` (`allNotes`), `view` (the list model) and `stored` (the collection the store file holds). Its methods model the handlers.

Where the code's behaviour is easy to misread, the model follows the code:

- `newNote` does not write the store file. Only save, pin/unpin and delete call `persist`. So `Create` leaves `stored` alone.
- The sort has no tie-break by id. Notes with equal pin state and equal update stamp keep their collection order, because the stream sort is stable (`View.ProjectStable`).
- `isBlank` tests `Character.isWhitespace`, but `trim` strips every character up to U+0020. So a title made only of characters up to U+0020, at least one of them not whitespace (a single U+0000, say), is not blank and is saved as the empty title. A control character above U+0020, such as U+007F, is kept (`Notes.SaveTitleEmptyIff`, `Notes.SaveTitleOfNulIsEmpty`).
- The search text goes through `trim` as well, so a filter that `isBlank` calls blank but that holds a character above U+0020 (an ideographic space U+3000, say) stays in the key and lists only the notes containing it (`View.IdeographicSpaceFilter`).
- After `newNote` the window selects the first entry of the refreshed list (NoteApp.java:176). That is a pinned note whenever one matches the search, or another note when the search hides the new one, so a following save edits that note. The model takes the selection as a parameter, so `Create` states nothing about it.
- With nothing selected, save, pin/unpin and delete do nothing and report nothing. Delete removes every note carrying the selected note's id. When ids are unique, that is exactly the selected note.

## Model

| member | source | states |
|---|---|---|
| `Text.IsTrimmable` | NoteApp.java:184 | the characters `trim` strips: code at most U+0020 (its contract is `Text.Trim`'s) |
| `Text.IsJavaWhitespace` | NoteApp.java:184 | `Character.isWhitespace`: U+0009 to U+000D, U+001C to U+0020, U+1680, U+2000 to U+2006, U+2008 to U+200A, U+2028, U+2029, U+205F, U+3000 (related to `trim` by `Text.WhitespaceClassesDiffer`) |
| `Text.IsBlank` | NoteApp.java:184 | `isBlank`: every character is whitespace, the empty string included (its use is stated by `Notes.SaveTitleSpec`) |
| `Text.WhitespaceClassesDiffer` | NoteApp.java:184 | `isBlank`'s whitespace and `trim`'s strippable characters differ both ways (U+0000 and U+3000), and every ASCII whitespace character is strippable |
| `Text.Trim` | NoteApp.java:184 | the trimmed string is empty or starts and ends with a character above U+0020; it is empty exactly when every input character is strippable |
| `Text.TrimIsStrippedSlice` | NoteApp.java:184 | `trim` returns a slice of its input with only strippable characters outside it |
| `Text.StrippedSliceIsTrim` | NoteApp.java:184 | that slice is unique: every such slice is what `trim` returns |
| `Text.LowerChar` | NoteApp.java:224-226 | an ASCII capital moves up by 32 to its small letter; every other character is kept |
| `Text.Lower` | NoteApp.java:224-226 | lower-casing keeps the length and maps each character by the ASCII case mapping |
| `Text.Contains` | NoteApp.java:226 | `contains` never holds for a key longer than the string (occurrence at an index: `Text.ContainsIffOccurs`) |
| `Text.ContainsIffOccurs` | NoteApp.java:226 | `contains` holds exactly when the key occurs at some index, both directions |
| `Text.ContainsEmpty` | NoteApp.java:224-226 | the empty key is contained in every string |
| `Text.DecimalString` | NoteApp.java:241 | the counter prints as a non-empty string of decimal digits that starts with 0 only for 0 |
| `Text.DecimalRoundTrip` | NoteApp.java:241 | reading the printed digits back gives the counter |
| `Text.DecimalInjective` | NoteApp.java:241 | distinct counters print differently |
| `Notes.NewNote` | NoteApp.java:16-22 | a new note has the given id, colour and clock reading as both stamps, title "Untitled", empty content, and is not pinned |
| `Notes.Titles` | NoteApp.java:239 | every note's title is in the title set (exactness: `Notes.TitlesExact`) |
| `Notes.TitlesExact` | NoteApp.java:239 | the title set holds exactly the notes' titles, both directions |
| `Notes.PrependUnique` | NoteApp.java:174 | putting a note with a new id in front keeps ids unique |
| `Notes.PrependTimesOrdered` | NoteApp.java:174 | putting a note whose stamps are ordered in front keeps every note's creation stamp at or before its update stamp |
| `Notes.SaveTitle` | NoteApp.java:184 | the title rule: "Untitled" for blank input, otherwise a string no longer than the input whose ends are above U+0020 (full statement: `Notes.SaveTitleSpec`, `Notes.SaveTitleEmptyIff`) |
| `Notes.SaveTitleSpec` | NoteApp.java:184 | a blank title field saves as "Untitled"; any other saves as its trimmed text, a stripped slice of the input |
| `Notes.SaveTitleEmptyIff` | NoteApp.java:184 | the saved title is empty exactly when the input is not blank but every character is at most U+0020 |
| `Notes.SaveTitleOfNulIsEmpty` | NoteApp.java:184 | a title field holding only U+0000 saves as the empty title |
| `Notes.SaveTitleNonEmpty` | NoteApp.java:184 | if every character of the input up to U+0020 is whitespace, the saved title is not empty |
| `Notes.Saved` | NoteApp.java:184-186 | save sets the title rule's result, the content verbatim and the update stamp; id, creation stamp, colour and pin are unchanged |
| `Notes.Toggled` | NoteApp.java:137 | toggling flips the pin and changes no other field, the update stamp included |
| `Notes.ToggledTwice` | NoteApp.java:137 | toggling twice restores the note |
| `Notes.RemoveId` | NoteApp.java:197 | `removeIf` by id never lengthens the collection (what it keeps: `Notes.RemoveIdCounts`, `Notes.RemoveIdConcat`) |
| `Notes.RemoveIdCounts` | NoteApp.java:197 | removal drops every note with the id and keeps every other note as often as it occurred |
| `Notes.RemoveIdIds` | NoteApp.java:197 | the remaining ids are the old ids without the removed one |
| `Notes.RemoveIdConcat` | NoteApp.java:197 | removal is piecewise over concatenation, so survivors keep their relative order |
| `Notes.RemoveIdAbsent` | NoteApp.java:197 | removing an id no note has leaves the collection unchanged |
| `Notes.RemoveIdUnique` | NoteApp.java:197 | removal keeps ids unique |
| `Notes.RemoveIdTimesOrdered` | NoteApp.java:197 | removal keeps every remaining note's creation stamp at or before its update stamp |
| `Notes.RemoveIdOfUnique` | NoteApp.java:193-197 | with unique ids, removing the selected note's id removes exactly that note and keeps the rest in order |
| `TitleSuggestion.Candidate` | NoteApp.java:237-241 | every title tried starts with "New Note", and only the first attempt is "New Note" itself (distinctness: `TitleSuggestion.CandidateInjective`) |
| `TitleSuggestion.CandidateInjective` | NoteApp.java:237-241 | different attempts try different titles |
| `TitleSuggestion.Tried` | NoteApp.java:240-241 | the first n attempts try n distinct titles, and no later attempt repeats one of them |
| `TitleSuggestion.FirstFreeUnique` | NoteApp.java:240-242 | the first free attempt is unique, so the suggestion depends only on the titles in use |
| `TitleSuggestion.FirstFreeBound` | NoteApp.java:239-241 | the first free attempt comes within the number of titles plus one |
| `TitleSuggestion.TriedTaken` | NoteApp.java:241 | every title tried before the first free one is in use |
| `TitleSuggestion.SecondTitle` | NoteApp.java:237-241 | with only "New Note" in use, the suggestion is attempt 2, "New Note 2" |
| `View.SearchKey` | NoteApp.java:224 | a null filter gives the empty key, otherwise the trimmed filter lower-cased character by character by the ASCII mapping; the key is empty exactly when the filter is null or made only of characters up to U+0020 |
| `View.Matches` | NoteApp.java:226 | the stream filter; the empty key matches every note (exactly what matches: `Text.ContainsIffOccurs`) |
| `View.Filtered` | NoteApp.java:225-226 | every kept note matches the key, and no more notes are kept than there were (order: `View.FilteredConcat`; contents: `View.FilteredCounts`) |
| `View.FilteredConcat` | NoteApp.java:225-226 | filtering is piecewise over concatenation, so the kept notes stay in collection order |
| `View.FilteredCounts` | NoteApp.java:225-226 | each matching note is kept as often as it occurs; non-matching notes are dropped |
| `View.FilteredEmptyKey` | NoteApp.java:224-226 | the empty key keeps the whole collection in order |
| `View.Precedes` | NoteApp.java:227-229 | the comparator, strictly: pinned before unpinned, then later update first (properties: `View.PrecedesStrictWeakOrder`) |
| `View.PrecedesStrictWeakOrder` | NoteApp.java:227-229 | the comparator is asymmetric and transitive, and ties exactly the notes with equal pin state and update stamp |
| `View.KeyFilter` | NoteApp.java:227-229 | the subsequence for a sort key holds only notes with that pin state and update stamp |
| `View.Insert` | NoteApp.java:227-229 | one insertion step of the sort adds one note (contents: `View.InsertCount`, order: `View.InsertSorted`) |
| `View.SortView` | NoteApp.java:227-230 | the stable sort keeps the length (permutation, order and stability: `View.SortViewCount`, `View.SortViewSorted`, `View.SortViewStable`) |
| `View.InsertCount` | NoteApp.java:227-229 | insertion adds exactly the inserted note |
| `View.SortViewCount` | NoteApp.java:227-230 | the sort is a permutation |
| `View.InsertSorted` | NoteApp.java:227-229 | inserting into a sorted list keeps it sorted |
| `View.SortViewSorted` | NoteApp.java:227-229 | the sorted list has no note that the comparator puts before an earlier one |
| `View.InsertKeyFilter` | NoteApp.java:227-229 | within its own sort key the inserted note lands first; other keys' subsequences are unchanged |
| `View.SortViewStable` | NoteApp.java:227-229 | the sort is stable: each sort key's subsequence is unchanged |
| `View.SortViewIsStableSort` | NoteApp.java:227-230 | the insertion sort is a stable sort by the comparator |
| `View.StableSortsAgree` | NoteApp.java:227-230 | two sorted lists that agree on every sort key's subsequence are equal |
| `View.StableSortIsSortView` | NoteApp.java:227-230 | any stable sort by the comparator returns the insertion sort's result |
| `View.FilteredKeyFilter` | NoteApp.java:225-229 | filtering and taking a sort key's subsequence commute |
| `View.Project` | NoteApp.java:224-230 | the list never outgrows the collection, and every listed note is in the collection and matches the key |
| `View.ProjectCounts` | NoteApp.java:224-230 | the list holds exactly the notes whose lower-cased title or content contains the key, each as often as in the collection |
| `View.ProjectOrdered` | NoteApp.java:227-229 | pinned notes come before unpinned ones; within one pin state update stamps do not increase |
| `View.ProjectStable` | NoteApp.java:225-230 | matching notes that share a sort key appear in collection order |
| `View.ProjectIsTheStableSort` | NoteApp.java:225-230 | any stable sort of the matching notes by this comparator gives exactly the projected list |
| `View.ProjectBlankFilter` | NoteApp.java:224-230 | a null filter, or one made only of characters up to U+0020, lists every note: the sorted collection, a permutation of it |
| `View.IdeographicSpaceFilter` | NoteApp.java:224-226 | a filter of one U+3000 is blank by `isBlank` yet lists nothing for a collection holding one note titled "a" |
| `View.ProjectNoMatch` | NoteApp.java:225-226 | a key matching no note gives the empty list |
| `Store.NoteStore.constructor` | NoteApp.java:246-258 | the collection is the store file's when readable, empty otherwise, and the list is its unfiltered projection |
| `Store.NoteStore.Refresh` | NoteApp.java:223-234 | the list model becomes the projection of the collection for the filter; nothing else changes |
| `Store.NoteStore.Persist` | NoteApp.java:260-267 | the store file holds the current collection |
| `Store.NoteStore.SuggestTitle` | NoteApp.java:236-243 | the loop ends with a title no note has; it is "New Note" when that is free, else the first "New Note k" (k at least 2) that is free with all earlier ones taken |
| `Store.NoteStore.Create` | NoteApp.java:171-175 | one note more: the new note first, with the suggested title, empty content, not pinned, both stamps now; old notes follow in order; ids stay unique for a fresh id; store file untouched; list refreshed |
| `Store.NoteStore.Save` | NoteApp.java:181-188 | nothing without a selection; otherwise only the selected note changes, by the save rule; store file written; list refreshed; unique ids preserved, and ordered stamps preserved when the clock reading is not before the note's creation stamp |
| `Store.NoteStore.TogglePin` | NoteApp.java:134-141 | nothing without a selection; otherwise only the selected note's pin flips; store file written; list refreshed; unique ids and ordered stamps preserved |
| `Store.NoteStore.Delete` | NoteApp.java:192-201 | nothing without a selection; otherwise every note with the selected id goes, which with unique ids is exactly the selected note; store file written; list refreshed; unique ids and ordered stamps preserved |

## Left out

- Window layout, listeners, key bindings, the settings menu and the font and colour dialogs (NoteApp.java:50-132, 143-169): presentation only.
- `showSelectedNote` and `clearEditor` (NoteApp.java:204-221): they only copy fields to widgets.
- The confirmation dialog in delete (NoteApp.java:195-196): delete is modelled as confirmed.
- The "Note saved." message (NoteApp.java:189) and the selection and focus moves after `newNote` (NoteApp.java:176-178): widget calls.
- `NoteCardRenderer` (NoteApp.java:269-332): presentation only. This includes the 80-character preview and the date format.
- The serialization format and file I/O of `loadNotes` and `persist` (NoteApp.java:246-267). The store file is an abstract `Option<seq<Note>>`, and writing it always succeeds. A failed write, the error dialogs and a write left half-done are not modelled.
- `UUID.randomUUID`, `LocalDateTime.now`, `new Random()` and AWT `Color`: these are parameters. The two clock reads in the field initialisers (NoteApp.java:19-20) are one reading here, so a new note's stamps are equal.
- `toLowerCase` maps ASCII letters only. Java's no-argument `toLowerCase` applies the full Unicode case mapping of the default locale, so even ASCII results may differ (in a Turkish locale 'I' becomes the dotless 'ı'). `contains` works on characters, not UTF-16 code units.
- The selection is a position in the collection, not an object shared by the list model and `allNotes`. Object identity and aliasing are not modelled.
- Store.NoteStore.SuggestTitle: does not model the wrap-around of the Java `int` counter, which happens once "New Note" through "New Note 2147483647", that is 2^31 − 1 titles, are all taken. The counter is unbounded here.
