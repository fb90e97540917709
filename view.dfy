/**
  The list the window shows (`refreshList`): the notes whose lower-cased title
  or content contains the trimmed, lower-cased search text, ordered pinned
  first and then by last update, most recent first. The stream's `sorted` is
  stable, so notes with equal sort keys keep their order in the collection;
  the sort below is an insertion sort with that property.
*/
module View {
  import opened Wrappers
  import opened Text
  import opened Notes

  // ---------------------------------------------------------------------------
  // Filter
  // ---------------------------------------------------------------------------

  /** The search key: a missing filter is empty, otherwise the filter trimmed and then lower-cased. */
  function SearchKey(filter: Option<string>): (key: string)
    ensures filter.None? ==> key == []
    ensures filter.Some? ==> |key| == |Trim(filter.value)|
    ensures filter.Some? ==> forall k :: 0 <= k < |key| ==> key[k] == LowerChar(Trim(filter.value)[k])
    ensures key == [] <==> filter.None? || forall k :: 0 <= k < |filter.value| ==> IsTrimmable(filter.value[k])
  {
    match filter
    case None => ""
    case Some(f) => Lower(Trim(f))
  }

  /** The stream filter: the key occurs in the lower-cased title or the lower-cased content. */
  predicate Matches(n: Note, key: string)
    ensures key == [] ==> Matches(n, key)
  {
    Contains(Lower(n.title), key) || Contains(Lower(n.content), key)
  }

  /** The notes that match, in collection order. */
  function Filtered(notes: seq<Note>, key: string): (r: seq<Note>)
    ensures |r| <= |notes|
    ensures forall k :: 0 <= k < |r| ==> Matches(r[k], key)
  {
    if notes == [] then []
    else if Matches(notes[0], key) then [notes[0]] + Filtered(notes[1..], key)
    else Filtered(notes[1..], key)
  }

  /** Each matching note is kept as often as it occurs, and no other note is kept. */
  lemma {:induction false} FilteredCounts(notes: seq<Note>, key: string)
    ensures forall n :: multiset(Filtered(notes, key))[n] == if Matches(n, key) then multiset(notes)[n] else 0
  {
    if notes != [] {
      FilteredCounts(notes[1..], key);
      assert notes == [notes[0]] + notes[1..];
    }
  }

  /** Filtering works piecewise, so the kept notes stay in collection order. */
  lemma {:induction false} FilteredConcat(a: seq<Note>, b: seq<Note>, key: string)
    ensures Filtered(a + b, key) == Filtered(a, key) + Filtered(b, key)
  {
    if a == [] {
      assert a + b == b;
    } else {
      var ab := a + b;
      assert ab[0] == a[0] && ab[1..] == a[1..] + b;
      FilteredConcat(a[1..], b, key);
      var tail := Filtered(a[1..], key) + Filtered(b, key);
      assert Filtered(ab[1..], key) == tail;
      if Matches(a[0], key) {
        assert Filtered(ab, key) == [a[0]] + tail;
        assert Filtered(a, key) == [a[0]] + Filtered(a[1..], key);
      }
    }
  }

  /** The empty key matches every note. */
  lemma {:induction false} FilteredEmptyKey(notes: seq<Note>)
    ensures Filtered(notes, []) == notes
  {
    if notes != [] {
      ContainsEmpty(Lower(notes[0].title));
      FilteredEmptyKey(notes[1..]);
    }
  }

  // ---------------------------------------------------------------------------
  // Order
  // ---------------------------------------------------------------------------

  /**
    The comparator, strictly: `a` sorts before `b` when it is pinned and `b` is
    not, or when both have the same pin state and `a` was updated later.
  */
  predicate Precedes(a: Note, b: Note) {
    (a.pinned && !b.pinned) || (a.pinned == b.pinned && a.updatedAt > b.updatedAt)
  }

  /**
    The comparator is a strict weak order: asymmetric and transitive, and two
    notes are tied exactly when they share a sort key.
  */
  lemma PrecedesStrictWeakOrder(a: Note, b: Note, c: Note)
    ensures Precedes(a, b) ==> !Precedes(b, a)
    ensures Precedes(a, b) && Precedes(b, c) ==> Precedes(a, c)
    ensures !Precedes(a, b) && !Precedes(b, a) <==> a.pinned == b.pinned && a.updatedAt == b.updatedAt
  {
  }

  /** No note sorts strictly before a note that comes earlier. */
  ghost predicate Sorted(s: seq<Note>) {
    forall i, j :: 0 <= i < j < |s| ==> !Precedes(s[j], s[i])
  }

  /** The notes of `s` whose sort key is (pinned, updatedAt), in their order in `s`. */
  function KeyFilter(s: seq<Note>, pinned: bool, updatedAt: int): (r: seq<Note>)
    ensures forall k :: 0 <= k < |r| ==> r[k].pinned == pinned && r[k].updatedAt == updatedAt
  {
    if s == [] then []
    else if s[0].pinned == pinned && s[0].updatedAt == updatedAt then [s[0]] + KeyFilter(s[1..], pinned, updatedAt)
    else KeyFilter(s[1..], pinned, updatedAt)
  }

  /**
    `r` is what a stable sort with the comparator makes of `s`: it is sorted, and
    the notes sharing any one sort key appear in `r` exactly as they appear in `s`.
  */
  ghost predicate IsStableSortOf(r: seq<Note>, s: seq<Note>) {
    Sorted(r) && forall p: bool, t: int :: KeyFilter(r, p, t) == KeyFilter(s, p, t)
  }

  /** Insert `x`, which came before every note of `s`, in front of the first note it does not follow. */
  function Insert(x: Note, s: seq<Note>): (r: seq<Note>)
    ensures |r| == |s| + 1
  {
    if s == [] || !Precedes(s[0], x) then [x] + s else [s[0]] + Insert(x, s[1..])
  }

  /** Stable insertion sort with the comparator. */
  function SortView(s: seq<Note>): (r: seq<Note>)
    ensures |r| == |s|
  {
    if s == [] then [] else Insert(s[0], SortView(s[1..]))
  }

  lemma {:induction false} InsertCount(x: Note, s: seq<Note>)
    ensures multiset(Insert(x, s)) == multiset(s) + multiset{x}
  {
    if s != [] && Precedes(s[0], x) {
      InsertCount(x, s[1..]);
      assert s == [s[0]] + s[1..];
    }
  }

  /** The sort is a permutation. */
  lemma {:induction false} SortViewCount(s: seq<Note>)
    ensures multiset(SortView(s)) == multiset(s)
  {
    if s != [] {
      SortViewCount(s[1..]);
      InsertCount(s[0], SortView(s[1..]));
      assert s == [s[0]] + s[1..];
    }
  }

  lemma {:induction false} InsertSorted(x: Note, s: seq<Note>)
    requires Sorted(s)
    ensures Sorted(Insert(x, s))
  {
    if s == [] || !Precedes(s[0], x) {
    } else {
      var t := Insert(x, s[1..]);
      InsertSorted(x, s[1..]);
      InsertCount(x, s[1..]);
      forall j | 0 <= j < |t| ensures !Precedes(t[j], s[0]) {
        assert t[j] in multiset(t);
        if t[j] != x {
          assert t[j] in multiset(s[1..]);
          var i :| 0 <= i < |s[1..]| && s[1..][i] == t[j];
          assert s[i + 1] == t[j];
        }
      }
      assert Insert(x, s) == [s[0]] + t;
    }
  }

  /** The sort orders its output. */
  lemma {:induction false} SortViewSorted(s: seq<Note>)
    ensures Sorted(SortView(s))
  {
    if s != [] {
      SortViewSorted(s[1..]);
      InsertSorted(s[0], SortView(s[1..]));
    }
  }

  lemma {:induction false} KeyFilterConcat(a: seq<Note>, b: seq<Note>, p: bool, t: int)
    ensures KeyFilter(a + b, p, t) == KeyFilter(a, p, t) + KeyFilter(b, p, t)
  {
    if a == [] {
      assert a + b == b;
    } else {
      var ab := a + b;
      assert ab[0] == a[0] && ab[1..] == a[1..] + b;
      KeyFilterConcat(a[1..], b, p, t);
    }
  }

  /** Insert passes only notes of a different sort key, so within each key `x` lands first. */
  lemma {:induction false} InsertKeyFilter(x: Note, s: seq<Note>, p: bool, t: int)
    ensures KeyFilter(Insert(x, s), p, t) == KeyFilter([x], p, t) + KeyFilter(s, p, t)
  {
    if s == [] || !Precedes(s[0], x) {
      KeyFilterConcat([x], s, p, t);
    } else {
      InsertKeyFilter(x, s[1..], p, t);
      KeyFilterConcat([s[0]], Insert(x, s[1..]), p, t);
      KeyFilterConcat([s[0]], s[1..], p, t);
      assert [s[0]] + s[1..] == s;
    }
  }

  /** The sort is stable: within each sort key the notes keep their order. */
  lemma {:induction false} SortViewStable(s: seq<Note>, p: bool, t: int)
    ensures KeyFilter(SortView(s), p, t) == KeyFilter(s, p, t)
  {
    if s != [] {
      SortViewStable(s[1..], p, t);
      InsertKeyFilter(s[0], SortView(s[1..]), p, t);
    }
  }

  /** Insertion sort is a stable sort by the comparator. */
  lemma SortViewIsStableSort(s: seq<Note>)
    ensures IsStableSortOf(SortView(s), s)
  {
    SortViewSorted(s);
    forall p: bool, t: int ensures KeyFilter(SortView(s), p, t) == KeyFilter(s, p, t) {
      SortViewStable(s, p, t);
    }
  }

  lemma {:induction false} KeyFilterMembers(s: seq<Note>, p: bool, t: int)
    ensures forall z :: z in KeyFilter(s, p, t) ==> z in s
  {
    if s != [] {
      KeyFilterMembers(s[1..], p, t);
    }
  }

  lemma KeyFilterOwnKey(s: seq<Note>)
    ensures s != [] ==> KeyFilter(s, s[0].pinned, s[0].updatedAt) != []
  {
  }

  /** Two sorted sequences that agree on every sort key's subsequence are equal. */
  lemma {:induction false} StableSortsAgree(a: seq<Note>, b: seq<Note>)
    requires Sorted(a) && Sorted(b)
    requires forall p: bool, t: int :: KeyFilter(a, p, t) == KeyFilter(b, p, t)
    ensures a == b
    decreases |a|
  {
    KeyFilterOwnKey(a);
    KeyFilterOwnKey(b);
    if a == [] && b == [] {
    } else if a == [] || b == [] {
      assert false;
    } else {
      var x, y := a[0], b[0];
      // x has a counterpart in b, which cannot precede y = b[0]; and symmetrically
      assert !Precedes(x, y) by {
        KeyFilterMembers(b, x.pinned, x.updatedAt);
        assert KeyFilter(b, x.pinned, x.updatedAt)[0] in b;
      }
      assert !Precedes(y, x) by {
        KeyFilterMembers(a, y.pinned, y.updatedAt);
        assert KeyFilter(a, y.pinned, y.updatedAt)[0] in a;
      }
      assert x.pinned == y.pinned && x.updatedAt == y.updatedAt;
      assert x == y by {
        assert KeyFilter(a, x.pinned, x.updatedAt)[0] == x;
        assert KeyFilter(b, x.pinned, x.updatedAt)[0] == y;
      }
      forall p: bool, t: int ensures KeyFilter(a[1..], p, t) == KeyFilter(b[1..], p, t) {
        var same := KeyFilter(a, p, t);
        assert same == KeyFilter(b, p, t);
        if x.pinned == p && x.updatedAt == t {
          assert same == [x] + KeyFilter(a[1..], p, t);
          assert same == [x] + KeyFilter(b[1..], p, t);
          assert KeyFilter(a[1..], p, t) == same[1..];
        } else {
          assert same == KeyFilter(a[1..], p, t);
        }
      }
      StableSortsAgree(a[1..], b[1..]);
      assert a == [x] + a[1..] && b == [y] + b[1..];
    }
  }

  /** A stable sort's result is unique, and it is what the insertion sort returns. */
  lemma StableSortIsSortView(r: seq<Note>, s: seq<Note>)
    requires IsStableSortOf(r, s)
    ensures r == SortView(s)
  {
    SortViewIsStableSort(s);
    StableSortsAgree(r, SortView(s));
  }

  lemma {:induction false} FilteredKeyFilter(s: seq<Note>, key: string, p: bool, t: int)
    ensures KeyFilter(Filtered(s, key), p, t) == Filtered(KeyFilter(s, p, t), key)
  {
    if s != [] {
      FilteredKeyFilter(s[1..], key, p, t);
    }
  }

  // ---------------------------------------------------------------------------
  // The projection
  // ---------------------------------------------------------------------------

  /** What `refreshList(filter)` puts in the list model. */
  function Project(notes: seq<Note>, filter: Option<string>): (r: seq<Note>)
    ensures |r| <= |notes|
    ensures forall k :: 0 <= k < |r| ==> r[k] in notes && Matches(r[k], SearchKey(filter))
  {
    var f := Filtered(notes, SearchKey(filter));
    SortViewCount(f);
    FilteredCounts(notes, SearchKey(filter));
    assert forall k :: 0 <= k < |SortView(f)| ==> multiset(f)[SortView(f)[k]] > 0;
    SortView(f)
  }

  /** The list holds exactly the matching notes, each as often as in the collection. */
  lemma ProjectCounts(notes: seq<Note>, filter: Option<string>, n: Note)
    ensures multiset(Project(notes, filter))[n] ==
      if Matches(n, SearchKey(filter)) then multiset(notes)[n] else 0
  {
    SortViewCount(Filtered(notes, SearchKey(filter)));
    FilteredCounts(notes, SearchKey(filter));
  }

  /** Pinned notes come first, and within each pin state the most recently updated come first. */
  lemma ProjectOrdered(notes: seq<Note>, filter: Option<string>)
    ensures var r := Project(notes, filter);
      forall i, j :: 0 <= i < j < |r| ==>
        (r[i].pinned || !r[j].pinned) && (r[i].pinned == r[j].pinned ==> r[i].updatedAt >= r[j].updatedAt)
  {
    SortViewSorted(Filtered(notes, SearchKey(filter)));
  }

  /** Notes sharing a sort key appear in the list in their collection order. */
  lemma ProjectStable(notes: seq<Note>, filter: Option<string>, p: bool, t: int)
    ensures KeyFilter(Project(notes, filter), p, t) == Filtered(KeyFilter(notes, p, t), SearchKey(filter))
  {
    var key := SearchKey(filter);
    SortViewStable(Filtered(notes, key), p, t);
    FilteredKeyFilter(notes, key, p, t);
  }

  /** Any stable sort of the matching notes by the comparator yields exactly this list. */
  lemma ProjectIsTheStableSort(notes: seq<Note>, filter: Option<string>, r: seq<Note>)
    requires IsStableSortOf(r, Filtered(notes, SearchKey(filter)))
    ensures r == Project(notes, filter)
  {
    StableSortIsSortView(r, Filtered(notes, SearchKey(filter)));
  }

  /**
    A missing filter, or one made only of characters up to U+0020, lists every
    note, as a permutation of the collection.
  */
  lemma ProjectBlankFilter(notes: seq<Note>, filter: Option<string>)
    requires filter.None? || forall k :: 0 <= k < |filter.value| ==> IsTrimmable(filter.value[k])
    ensures Project(notes, filter) == SortView(notes)
    ensures multiset(Project(notes, filter)) == multiset(notes)
  {
    FilteredEmptyKey(notes);
    SortViewCount(notes);
  }

  /** A key that occurs in no note's lower-cased title or content gives the empty list. */
  lemma ProjectNoMatch(notes: seq<Note>, filter: Option<string>)
    requires forall k :: 0 <= k < |notes| ==> !Matches(notes[k], SearchKey(filter))
    ensures Project(notes, filter) == []
  {
    FilteredCounts(notes, SearchKey(filter));
  }

  /**
    A filter that `isBlank` calls blank need not list every note: `trim` keeps
    the ideographic space U+3000, so it stays in the key and matches no plain note.
  */
  lemma IdeographicSpaceFilter()
    ensures IsBlank("\U{3000}")
    ensures Project([Note(0, "a", "", 0, 0, 0, false)], Some("\U{3000}")) == []
  {
  }
}
