/**
  The note record (`NoteApp.Note`) and the pure updates the repository applies
  to it and to the collection: the default note, saving, pin toggling and
  removal by id.
*/
module Notes {
  import opened Text

  /** An index into the fixed pastel palette a note's background is drawn from. */
  type PaletteIndex = c: nat | c < 6

  /** The palette as RGB triples, in the order `randomPastel` lists them. */
  const Palette: seq<(int, int, int)> := [
    (255, 204, 153), (255, 153, 153), (204, 255, 153),
    (153, 204, 255), (221, 160, 221), (255, 255, 153)
  ]

  /**
    A note. The UUID becomes a natural number, the two LocalDateTime stamps
    become integers ordered like the instants they stand for, and the colour
    becomes its palette index.
  */
  datatype Note = Note(
    id: nat,
    title: string,
    content: string,
    createdAt: int,
    updatedAt: int,
    color: PaletteIndex,
    pinned: bool)

  /** The title a freshly constructed note carries before the repository renames it. */
  const DefaultTitle: string := "Untitled"

  /** A freshly constructed note, with the id, clock reading and colour the environment supplied. */
  function NewNote(id: nat, now: int, color: PaletteIndex): (n: Note)
    ensures n.id == id && n.color == color
    ensures n.title == DefaultTitle && n.content == "" && !n.pinned
    ensures n.createdAt == now && n.updatedAt == now
  {
    Note(id, DefaultTitle, "", now, now, color, false)
  }

  // ---------------------------------------------------------------------------
  // Collection-level views
  // ---------------------------------------------------------------------------

  function Titles(notes: seq<Note>): (r: set<string>)
    ensures forall k :: 0 <= k < |notes| ==> notes[k].title in r
  {
    set n | n in notes :: n.title
  }

  /** The title set holds exactly the titles of the notes. */
  lemma TitlesExact(notes: seq<Note>)
    ensures forall t :: t in Titles(notes) <==> exists k :: 0 <= k < |notes| && notes[k].title == t
  {
    forall t | t in Titles(notes) ensures exists k :: 0 <= k < |notes| && notes[k].title == t {
      var n :| n in notes && n.title == t;
      var k :| 0 <= k < |notes| && notes[k] == n;
    }
  }

  function Ids(notes: seq<Note>): set<nat> {
    set n | n in notes :: n.id
  }

  /** No two notes of the collection share an id. */
  ghost predicate UniqueIds(notes: seq<Note>) {
    forall i, j :: 0 <= i < j < |notes| ==> notes[i].id != notes[j].id
  }

  /** No note was updated before it was created. */
  ghost predicate TimesOrdered(notes: seq<Note>) {
    forall k :: 0 <= k < |notes| ==> notes[k].createdAt <= notes[k].updatedAt
  }

  /** Putting a note in front keeps the stamps ordered when its own are. */
  lemma PrependTimesOrdered(n: Note, notes: seq<Note>)
    requires TimesOrdered(notes) && n.createdAt <= n.updatedAt
    ensures TimesOrdered([n] + notes)
  {
    var s := [n] + notes;
    forall k | 0 < k < |s| ensures s[k].createdAt <= s[k].updatedAt {
      assert s[k] == notes[k - 1];
    }
  }

  /** A note whose id is new keeps the ids unique when put in front. */
  lemma PrependUnique(n: Note, notes: seq<Note>)
    requires UniqueIds(notes) && n.id !in Ids(notes)
    ensures UniqueIds([n] + notes)
  {
    var s := [n] + notes;
    forall i, j | 0 <= i < j < |s| ensures s[i].id != s[j].id {
      assert s[j] == notes[j - 1] && notes[j - 1] in notes;
      if i > 0 {
        assert s[i] == notes[i - 1];
      }
    }
  }

  // ---------------------------------------------------------------------------
  // Save
  // ---------------------------------------------------------------------------

  /** The title `saveCurrentNote` stores for the text in the title field. */
  function SaveTitle(text: string): (r: string)
    ensures IsBlank(text) ==> r == DefaultTitle
    ensures !IsBlank(text) ==> |r| <= |text| && (r == [] || (!IsTrimmable(r[0]) && !IsTrimmable(r[|r| - 1])))
  {
    if IsBlank(text) then DefaultTitle else Trim(text)
  }

  /** Blank input becomes the fallback literal; anything else is trimmed. */
  lemma SaveTitleSpec(text: string)
    ensures IsBlank(text) ==> SaveTitle(text) == "Untitled"
    ensures !IsBlank(text) ==> SaveTitle(text) == Trim(text)
    ensures !IsBlank(text) ==> exists i, j :: IsStrippedSlice(text, i, j) && SaveTitle(text) == text[i..j]
  {
    TrimIsStrippedSlice(text);
  }

  /**
    Because `isBlank` and `trim` use different character classes, a saved title
    is empty exactly when the input is not blank yet consists only of
    characters up to U+0020, one of them not whitespace (a U+0000, say).
  */
  lemma SaveTitleEmptyIff(text: string)
    ensures SaveTitle(text) == [] <==>
      (exists k :: 0 <= k < |text| && !IsJavaWhitespace(text[k]))
      && (forall k :: 0 <= k < |text| ==> IsTrimmable(text[k]))
  {
  }

  /** In particular, a title field holding only a NUL character saves as the empty title. */
  lemma SaveTitleOfNulIsEmpty()
    ensures SaveTitle("\U{0}") == ""
  {
    assert !IsJavaWhitespace("\U{0}"[0]);
  }

  /** When every character up to U+0020 in the input is whitespace, the saved title is never empty. */
  lemma SaveTitleNonEmpty(text: string)
    requires forall k :: 0 <= k < |text| && IsTrimmable(text[k]) ==> IsJavaWhitespace(text[k])
    ensures SaveTitle(text) != []
  {
    if !IsBlank(text) {
      var k :| 0 <= k < |text| && !IsJavaWhitespace(text[k]);
      assert !IsTrimmable(text[k]);
    }
  }

  /** A note after `saveCurrentNote`: new title, verbatim content, fresh update stamp. */
  function Saved(n: Note, titleText: string, contentText: string, now: int): (r: Note)
    ensures r.title == SaveTitle(titleText) && r.content == contentText && r.updatedAt == now
    ensures r.id == n.id && r.createdAt == n.createdAt && r.color == n.color && r.pinned == n.pinned
  {
    n.(title := SaveTitle(titleText), content := contentText, updatedAt := now)
  }

  // ---------------------------------------------------------------------------
  // Toggle pin
  // ---------------------------------------------------------------------------

  /** A note after `togglePin`. */
  function Toggled(n: Note): (r: Note)
    ensures r.pinned == !n.pinned
    ensures r.id == n.id && r.title == n.title && r.content == n.content
    ensures r.createdAt == n.createdAt && r.updatedAt == n.updatedAt && r.color == n.color
  {
    n.(pinned := !n.pinned)
  }

  /** Toggling twice restores the note. */
  lemma ToggledTwice(n: Note)
    ensures Toggled(Toggled(n)) == n
  {
  }

  // ---------------------------------------------------------------------------
  // Delete
  // ---------------------------------------------------------------------------

  /** `List.removeIf` with the predicate "has id x". */
  function RemoveId(notes: seq<Note>, x: nat): (r: seq<Note>)
    ensures |r| <= |notes|
  {
    if notes == [] then []
    else if notes[0].id == x then RemoveId(notes[1..], x)
    else [notes[0]] + RemoveId(notes[1..], x)
  }

  /** Every note with id x goes, and every other note stays with its multiplicity. */
  lemma {:induction false} RemoveIdCounts(notes: seq<Note>, x: nat)
    ensures forall n :: multiset(RemoveId(notes, x))[n] == if n.id == x then 0 else multiset(notes)[n]
  {
    if notes != [] {
      RemoveIdCounts(notes[1..], x);
      assert notes == [notes[0]] + notes[1..];
    }
  }

  /** The ids that remain are the old ones without x. */
  lemma RemoveIdIds(notes: seq<Note>, x: nat)
    ensures Ids(RemoveId(notes, x)) == Ids(notes) - {x}
  {
    RemoveIdCounts(notes, x);
    var r := RemoveId(notes, x);
    forall y | y in Ids(notes) - {x} ensures y in Ids(r) {
      var n :| n in notes && n.id == y;
      assert multiset(notes)[n] > 0;
    }
    forall y | y in Ids(r) ensures y in Ids(notes) - {x} {
      var n :| n in r && n.id == y;
      assert multiset(r)[n] > 0;
    }
  }

  /** Removal works piecewise, so the survivors keep their relative order. */
  lemma {:induction false} RemoveIdConcat(a: seq<Note>, b: seq<Note>, x: nat)
    ensures RemoveId(a + b, x) == RemoveId(a, x) + RemoveId(b, x)
  {
    if a == [] {
      assert a + b == b;
    } else {
      var ab := a + b;
      assert ab[0] == a[0] && ab[1..] == a[1..] + b;
      RemoveIdConcat(a[1..], b, x);
      var tail := RemoveId(a[1..], x) + RemoveId(b, x);
      assert RemoveId(ab[1..], x) == tail;
      if a[0].id != x {
        assert RemoveId(ab, x) == [a[0]] + tail;
        assert RemoveId(a, x) == [a[0]] + RemoveId(a[1..], x);
      }
    }
  }

  /** Removal keeps the ids unique. */
  lemma {:induction false} RemoveIdUnique(notes: seq<Note>, x: nat)
    requires UniqueIds(notes)
    ensures UniqueIds(RemoveId(notes, x))
  {
    if notes != [] {
      var rest := notes[1..];
      assert UniqueIds(rest) by {
        forall i, j | 0 <= i < j < |rest| ensures rest[i].id != rest[j].id {
          assert rest[i] == notes[i + 1] && rest[j] == notes[j + 1];
        }
      }
      RemoveIdUnique(rest, x);
      if notes[0].id != x {
        RemoveIdIds(rest, x);
        assert notes[0].id !in Ids(rest) by {
          forall n | n in rest ensures n.id != notes[0].id {
            var i :| 0 <= i < |rest| && rest[i] == n;
            assert notes[i + 1] == n;
          }
        }
        PrependUnique(notes[0], RemoveId(rest, x));
      }
    }
  }

  /** Removal keeps every remaining note's stamps ordered. */
  lemma RemoveIdTimesOrdered(notes: seq<Note>, x: nat)
    requires TimesOrdered(notes)
    ensures TimesOrdered(RemoveId(notes, x))
  {
    RemoveIdCounts(notes, x);
    var r := RemoveId(notes, x);
    forall k | 0 <= k < |r| ensures r[k].createdAt <= r[k].updatedAt {
      assert multiset(r)[r[k]] > 0;
      assert r[k] in notes;
      var i :| 0 <= i < |notes| && notes[i] == r[k];
    }
  }

  /** When no note has id x, removal changes nothing. */
  lemma {:induction false} RemoveIdAbsent(notes: seq<Note>, x: nat)
    requires x !in Ids(notes)
    ensures RemoveId(notes, x) == notes
  {
    assert forall k :: 0 <= k < |notes| ==> notes[k].id != x by {
      forall k | 0 <= k < |notes| ensures notes[k].id != x {
        assert notes[k] in notes;
      }
    }
    RemoveIdNoneMatch(notes, x);
  }

  lemma {:induction false} RemoveIdNoneMatch(notes: seq<Note>, x: nat)
    requires forall k :: 0 <= k < |notes| ==> notes[k].id != x
    ensures RemoveId(notes, x) == notes
  {
    if notes != [] {
      assert notes[0].id != x;
      RemoveIdNoneMatch(notes[1..], x);
    }
  }

  /** With unique ids, deleting the id of the note at position k removes exactly that note. */
  lemma {:induction false} RemoveIdOfUnique(notes: seq<Note>, k: nat)
    requires k < |notes| && UniqueIds(notes)
    ensures RemoveId(notes, notes[k].id) == notes[..k] + notes[k + 1..]
  {
    var x := notes[k].id;
    var rest := notes[1..];
    assert UniqueIds(rest) by {
      forall i, j | 0 <= i < j < |rest| ensures rest[i].id != rest[j].id {
        assert rest[i] == notes[i + 1] && rest[j] == notes[j + 1];
      }
    }
    if k == 0 {
      assert forall i :: 0 <= i < |rest| ==> rest[i].id != x by {
        forall i | 0 <= i < |rest| ensures rest[i].id != x {
          assert rest[i] == notes[i + 1];
        }
      }
      RemoveIdNoneMatch(rest, x);
      assert notes[..0] + notes[1..] == rest;
    } else {
      assert notes[0].id != x;
      assert rest[k - 1] == notes[k];
      RemoveIdOfUnique(rest, k - 1);
      assert rest[..k - 1] + rest[k..] == notes[1..k] + notes[k + 1..];
      assert [notes[0]] + notes[1..k] == notes[..k];
    }
  }
}
