/** Ordering chapters by their located page (`chapters.sort(key=...)`), and
    the end-page search that `split_pdf_by_chapters` and the show-only preview
    both run: the next chapter that starts strictly later closes the range. */
module ChapterOrder {
  import opened Strings
  import opened Toc

  /** Every chapter has an `actual_page` (reading it otherwise is a `KeyError`). */
  predicate AllLocated(cs: seq<Chapter>) {
    forall i :: 0 <= i < |cs| ==> cs[i].actualPage.Some?
  }

  function Actual(c: Chapter): int
    requires c.actualPage.Some?
  {
    c.actualPage.value
  }

  /** Non-decreasing `actual_page`. */
  predicate SortedByActual(cs: seq<Chapter>) {
    AllLocated(cs) && forall i, j :: 0 <= i < j < |cs| ==> Actual(cs[i]) <= Actual(cs[j])
  }

  /** The chapters located on page `k`, in list order. */
  function WithActual(cs: seq<Chapter>, k: int): seq<Chapter>
    requires AllLocated(cs)
  {
    if cs == [] then []
    else WithActual(cs[..|cs| - 1], k) + (if Actual(cs[|cs| - 1]) == k then [cs[|cs| - 1]] else [])
  }

  /** Inserting behind every chapter with a page no greater than `c`'s. */
  function InsertSorted(s: seq<Chapter>, c: Chapter): (r: seq<Chapter>)
    requires AllLocated(s) && c.actualPage.Some?
    ensures AllLocated(r)
  {
    if s == [] || Actual(s[|s| - 1]) <= Actual(c) then s + [c]
    else InsertSorted(s[..|s| - 1], c) + [s[|s| - 1]]
  }

  lemma {:induction false} InsertSortedPermutes(s: seq<Chapter>, c: Chapter)
    requires AllLocated(s) && c.actualPage.Some?
    ensures multiset(InsertSorted(s, c)) == multiset(s) + multiset{c}
    decreases |s|
  {
    if s != [] && Actual(s[|s| - 1]) > Actual(c) {
      var init := s[..|s| - 1];
      assert s == init + [s[|s| - 1]];
      InsertSortedPermutes(init, c);
    }
  }

  /** `list.sort(key=lambda x: x['actual_page'])`: a stable sort, written as
      an insertion sort (see `SortByActualPageSpec`). */
  function SortByActualPage(cs: seq<Chapter>): (r: seq<Chapter>)
    requires AllLocated(cs)
    ensures AllLocated(r)
  {
    if cs == [] then []
    else InsertSorted(SortByActualPage(cs[..|cs| - 1]), cs[|cs| - 1])
  }

  /** `chapters.sort(key=lambda x: x['actual_page'])`, inserting the chapters
      one by one. */
  method SortChapters(chapters: seq<Chapter>) returns (sorted: seq<Chapter>)
    requires AllLocated(chapters)
    ensures sorted == SortByActualPage(chapters)
  {
    sorted := [];
    for i := 0 to |chapters|
      invariant sorted == SortByActualPage(chapters[..i])
    {
      assert chapters[..i + 1][..i] == chapters[..i];
      sorted := InsertSorted(sorted, chapters[i]);
    }
    assert chapters[..|chapters|] == chapters;
  }

  lemma {:induction false} WithActualAppend(a: seq<Chapter>, b: seq<Chapter>, k: int)
    requires AllLocated(a) && AllLocated(b)
    ensures AllLocated(a + b)
    ensures WithActual(a + b, k) == WithActual(a, k) + WithActual(b, k)
    decreases |b|
  {
    if b == [] {
      assert a + b == a;
    } else {
      var b' := b[..|b| - 1];
      assert (a + b)[..|a + b| - 1] == a + b';
      assert (a + b)[|a + b| - 1] == b[|b| - 1];
      WithActualAppend(a, b', k);
    }
  }

  lemma {:induction false} InsertSortedKeepsOrder(s: seq<Chapter>, c: Chapter)
    requires SortedByActual(s) && c.actualPage.Some?
    ensures SortedByActual(InsertSorted(s, c))
    decreases |s|
  {
    if s == [] || Actual(s[|s| - 1]) <= Actual(c) {
    } else {
      var init := s[..|s| - 1];
      var last := s[|s| - 1];
      InsertSortedKeepsOrder(init, c);
      var r' := InsertSorted(init, c);
      InsertSortedPermutes(init, c);
      forall x | x in r' ensures Actual(x) <= Actual(last) {
        assert x in multiset(r');
        if x != c {
          assert x in multiset(init);
          var q :| 0 <= q < |init| && init[q] == x;
          assert s[q] == x;
        }
      }
      var r := r' + [last];
      forall i, j | 0 <= i < j < |r| ensures Actual(r[i]) <= Actual(r[j]) {
        if j == |r| - 1 {
          assert r[i] in r';
        } else {
          assert r[i] == r'[i] && r[j] == r'[j];
        }
      }
    }
  }

  /** Insertion moves `c` only past chapters on strictly later pages, so the
      chapters on any one page stay in order. */
  lemma {:induction false} InsertSortedKeepsTies(s: seq<Chapter>, c: Chapter, k: int)
    requires AllLocated(s) && c.actualPage.Some?
    ensures WithActual(InsertSorted(s, c), k) == WithActual(s, k) + (if Actual(c) == k then [c] else [])
    decreases |s|
  {
    if s == [] || Actual(s[|s| - 1]) <= Actual(c) {
      WithActualAppend(s, [c], k);
      assert [c][..0] == [];
    } else {
      InsertSortedKeepsTies(s[..|s| - 1], c, k);
      MovePastLater(s, c, k);
    }
  }

  /** The step of `InsertSortedKeepsTies` where `c` moves past the last chapter. */
  lemma MovePastLater(s: seq<Chapter>, c: Chapter, k: int)
    requires AllLocated(s) && c.actualPage.Some? && s != [] && Actual(c) < Actual(s[|s| - 1])
    requires WithActual(InsertSorted(s[..|s| - 1], c), k) == WithActual(s[..|s| - 1], k) + (if Actual(c) == k then [c] else [])
    ensures WithActual(InsertSorted(s, c), k) == WithActual(s, k) + (if Actual(c) == k then [c] else [])
  {
    var init := s[..|s| - 1];
    var last := s[|s| - 1];
    var fc := if Actual(c) == k then [c] else [];
    var fl := if Actual(last) == k then [last] else [];
    assert InsertSorted(s, c) == InsertSorted(init, c) + [last];
    assert WithActual([last], k) == fl by {
      assert [last][..0] == [];
    }
    SplitLast(s);
    hide InsertSorted, WithActual;
    WithActualAppend(InsertSorted(init, c), [last], k);
    WithActualAppend(init, [last], k);
    SwapAroundEmpty(WithActual(init, k), fc, fl);
  }

  lemma SplitLast<T>(s: seq<T>)
    requires s != []
    ensures s[..|s| - 1] + [s[|s| - 1]] == s
  {
  }

  lemma SwapAroundEmpty<T>(w: seq<T>, a: seq<T>, b: seq<T>)
    requires a == [] || b == []
    ensures w + a + b == w + b + a
  {
    if a == [] {
      assert w + a == w;
    } else {
      assert w + b == w;
    }
  }

  /** The sort puts the chapters in non-decreasing page order, keeps exactly
      the same chapters, and keeps chapters on the same page in their original
      order, which together determine the result of a stable sort. */
  lemma {:induction false} SortByActualPageSpec(cs: seq<Chapter>)
    requires AllLocated(cs)
    ensures SortedByActual(SortByActualPage(cs))
    ensures multiset(SortByActualPage(cs)) == multiset(cs)
    ensures forall k :: WithActual(SortByActualPage(cs), k) == WithActual(cs, k)
  {
    if cs != [] {
      var init := cs[..|cs| - 1];
      SortByActualPageSpec(init);
      InsertSortedKeepsOrder(SortByActualPage(init), cs[|cs| - 1]);
      InsertSortedPermutes(SortByActualPage(init), cs[|cs| - 1]);
      assert cs == init + [cs[|cs| - 1]];
      forall k ensures WithActual(SortByActualPage(cs), k) == WithActual(cs, k) {
        InsertSortedKeepsTies(SortByActualPage(init), cs[|cs| - 1], k);
      }
    }
  }

  // ------------------------------------------------------------ end page

  /** The first chapter from index `j` on that starts strictly after chapter `i`. */
  function NextLater(cs: seq<Chapter>, i: nat, j: nat): (r: Option<nat>)
    requires AllLocated(cs) && i < |cs|
    ensures r.Some? ==> j <= r.value < |cs|
    decreases |cs| - j
  {
    if j >= |cs| then None
    else if Actual(cs[j]) > Actual(cs[i]) then Some(j)
    else NextLater(cs, i, j + 1)
  }

  /** `NextLater` finds the first later-starting chapter, and none exactly
      when no chapter from `j` on starts later. */
  lemma {:induction false} NextLaterSpec(cs: seq<Chapter>, i: nat, j: nat)
    requires AllLocated(cs) && i < |cs|
    ensures NextLater(cs, i, j).Some? ==> Actual(cs[NextLater(cs, i, j).value]) > Actual(cs[i])
    ensures NextLater(cs, i, j).Some? ==> forall k :: j <= k < NextLater(cs, i, j).value ==> Actual(cs[k]) <= Actual(cs[i])
    ensures NextLater(cs, i, j).None? <==> forall k :: j <= k < |cs| ==> Actual(cs[k]) <= Actual(cs[i])
    decreases |cs| - j
  {
    if j < |cs| && Actual(cs[j]) <= Actual(cs[i]) {
      NextLaterSpec(cs, i, j + 1);
    }
  }

  /** `end_page`: one less than the page of the next later-starting chapter,
      or the page count when there is none.  Not clamped. */
  function EndPage(cs: seq<Chapter>, i: nat, total: nat): int
    requires AllLocated(cs) && i < |cs|
  {
    match NextLater(cs, i, i + 1)
    case Some(j) => Actual(cs[j]) - 1
    case None => total
  }

  /** The search loop with `break` that finds `end_page`. */
  method FindEndPage(cs: seq<Chapter>, i: nat, total: nat) returns (endPage: int)
    requires AllLocated(cs) && i < |cs|
    ensures endPage == EndPage(cs, i, total)
  {
    endPage := total;
    for j := i + 1 to |cs|
      invariant endPage == total
      invariant NextLater(cs, i, i + 1) == NextLater(cs, i, j)
    {
      if Actual(cs[j]) > Actual(cs[i]) {
        endPage := Actual(cs[j]) - 1;
        return;
      }
    }
  }

  lemma {:induction false} NextLaterSkips(cs: seq<Chapter>, i: nat, j: nat, j': nat)
    requires AllLocated(cs) && i < |cs| && j <= j'
    requires forall k :: j <= k < j' && k < |cs| ==> Actual(cs[k]) <= Actual(cs[i])
    ensures NextLater(cs, i, j) == NextLater(cs, i, j')
    decreases j' - j
  {
    if j < j' {
      NextLaterSkips(cs, i, j + 1, j');
    }
  }

  lemma {:induction false} NextLaterSamePage(cs: seq<Chapter>, i: nat, i': nat, j: nat)
    requires AllLocated(cs) && i < |cs| && i' < |cs| && Actual(cs[i]) == Actual(cs[i'])
    ensures NextLater(cs, i, j) == NextLater(cs, i', j)
    decreases |cs| - j
  {
    if j < |cs| {
      NextLaterSamePage(cs, i, i', j + 1);
    }
  }

  /** On a sorted list the end page no longer depends on which of two equal
      chapters the search starts from: starting at the first occurrence of
      the chapter (what `all_chapters.index(chapter)` returns) gives the same
      end page as starting at the chapter's own position. */
  lemma EndPageFromFirstOccurrence(cs: seq<Chapter>, i: nat, k: nat, total: nat)
    requires SortedByActual(cs) && k <= i < |cs| && cs[k] == cs[i]
    ensures EndPage(cs, k, total) == EndPage(cs, i, total)
  {
    NextLaterSkips(cs, k, k + 1, i + 1);
    NextLaterSamePage(cs, k, i, i + 1);
  }

  /** `list.index(x)`: the first position holding a chapter equal to `c`. */
  function FirstIndexOf(cs: seq<Chapter>, c: Chapter): (r: nat)
    requires c in cs
    ensures r < |cs| && cs[r] == c
    ensures forall k :: 0 <= k < r ==> cs[k] != c
  {
    if cs[0] == c then 0
    else
      assert c in cs[1..];
      1 + FirstIndexOf(cs[1..], c)
  }
}
