/**
  The default-title sequence `suggestNewTitle` walks through: "New Note",
  then "New Note 2", "New Note 3", and so on.
*/
module TitleSuggestion {
  import opened Text

  const BaseTitle: string := "New Note"

  /** The k-th title tried, counting from 1. */
  function Candidate(k: nat): (t: string)
    requires k >= 1
    ensures BaseTitle <= t
    ensures t == BaseTitle <==> k == 1
  {
    if k == 1 then BaseTitle else BaseTitle + " " + DecimalString(k)
  }

  /** Different attempts try different titles. */
  lemma CandidateInjective(a: nat, b: nat)
    requires a >= 1 && b >= 1 && Candidate(a) == Candidate(b)
    ensures a == b
  {
    if a >= 2 && b >= 2 {
      var pre := |BaseTitle| + 1;
      assert Candidate(a)[pre..] == DecimalString(a);
      assert Candidate(b)[pre..] == DecimalString(b);
      DecimalInjective(a, b);
    }
  }

  /** The titles tried in the first n attempts. */
  ghost function Tried(n: nat): (r: set<string>)
    ensures |r| == n
    ensures forall k :: 1 <= k <= n ==> Candidate(k) in r
    ensures forall k :: k > n ==> Candidate(k) !in r
  {
    if n == 0 then {}
    else
      assert forall k :: k > n ==> Candidate(k) != Candidate(n) by {
        forall k | k > n ensures Candidate(k) != Candidate(n) {
          if Candidate(k) == Candidate(n) {
            CandidateInjective(k, n);
          }
        }
      }
      Tried(n - 1) + {Candidate(n)}
  }

  /** Attempt k is the first whose title is free: every earlier title is taken. */
  ghost predicate FirstFree(titles: set<string>, k: nat) {
    && k >= 1
    && Candidate(k) !in titles
    && forall j :: 1 <= j < k ==> Candidate(j) in titles
  }

  /** The first free attempt is unique, so the suggestion is determined by the titles in use. */
  lemma FirstFreeUnique(titles: set<string>, a: nat, b: nat)
    requires FirstFree(titles, a) && FirstFree(titles, b)
    ensures a == b
  {
  }

  /** With only "New Note" taken, the suggestion is "New Note 2". */
  lemma SecondTitle()
    ensures FirstFree({BaseTitle}, 2) && Candidate(2) == "New Note 2"
  {
    assert DecimalString(2) == "2";
  }

  /** The first free attempt comes within |titles| + 1 tries. */
  lemma {:induction false} FirstFreeBound(titles: set<string>, k: nat)
    requires FirstFree(titles, k)
    ensures k <= |titles| + 1
  {
    TriedTaken(titles, k, k - 1);
    SubsetCard(Tried(k - 1), titles);
  }

  /** Before the first free attempt, every title tried is taken. */
  lemma {:induction false} TriedTaken(titles: set<string>, k: nat, n: nat)
    requires FirstFree(titles, k) && n < k
    ensures Tried(n) <= titles
  {
    if n > 0 {
      TriedTaken(titles, k, n - 1);
    }
  }

  lemma {:induction false} SubsetCard<T>(a: set<T>, b: set<T>)
    requires a <= b
    ensures |a| <= |b|
    decreases a
  {
    if a != {} {
      var x :| x in a;
      SubsetCard(a - {x}, b - {x});
    }
  }
}
