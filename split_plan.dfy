/** `split_pdf_by_chapters`: which pages of the document go into which chapter
    file.  The document is given by its page count; a written file is given by
    its name and the (0-based) indices of the pages copied into it, in order.

    `SplitPdfByChapters` follows the code as written, and is what `main`
    runs.  `PlanFiles` is the plan with two defects corrected (see
    `StartBeforeFirstPageWraps` and `LimitCutsLastChapterShort`); the preview
    is proved to agree with it. */
module SplitPlan {
  import opened Strings
  import opened Toc
  import opened ChapterOrder

  datatype ChapterFile = ChapterFile(name: string, pages: seq<nat>)

  /** `f"micropython-docs{number.replace('.', '-')}.pdf"`. */
  function FileName(number: string): string {
    "micropython-docs" + ReplaceChar(number, '.', '-') + ".pdf"
  }

  /** The name keeps the number's length and position, with every dot turned
      into a dash; numbers without dashes (every table-of-contents number)
      get distinct names. */
  lemma FileNameSpec(number: string, other: string)
    ensures |FileName(number)| == |number| + 20
    ensures FileName(number)[..16] == "micropython-docs" && FileName(number)[|number| + 16..] == ".pdf"
    ensures '.' !in FileName(number)[16..|number| + 16]
    ensures '-' !in number && '-' !in other && FileName(number) == FileName(other) ==> number == other
  {
    var a := ReplaceChar(number, '.', '-');
    assert FileName(number)[16..|number| + 16] == a;
    if '-' !in number && '-' !in other && FileName(number) == FileName(other) {
      var b := ReplaceChar(other, '.', '-');
      assert FileName(other)[16..|other| + 16] == b;
      assert a == b;
      forall i | 0 <= i < |number| ensures number[i] == other[i] {
        assert a[i] == b[i];
      }
    }
  }

  // ------------------------------------------------------------ --max

  /** `if max_files:` holds for a given, non-zero limit. */
  predicate Limited(maxFiles: Option<int>) {
    maxFiles.Some? && maxFiles.value != 0
  }

  /** `chapters[:max_files] if max_files else chapters`; a negative limit
      drops chapters from the end, as Python slicing does. */
  function Truncate(cs: seq<Chapter>, maxFiles: Option<int>): (r: seq<Chapter>)
    ensures r <= cs
    ensures !Limited(maxFiles) ==> r == cs
    ensures Limited(maxFiles) && maxFiles.value > 0 ==> |r| == Min(|cs|, maxFiles.value)
    ensures Limited(maxFiles) && maxFiles.value < 0 ==> |r| == Max(0, |cs| + maxFiles.value)
  {
    if Limited(maxFiles) then PyPrefix(cs, maxFiles.value) else cs
  }

  lemma TruncateLocated(cs: seq<Chapter>, maxFiles: Option<int>)
    requires AllLocated(cs)
    ensures AllLocated(Truncate(cs, maxFiles))
    ensures forall i :: 0 <= i < |Truncate(cs, maxFiles)| ==> Truncate(cs, maxFiles)[i] == cs[i]
  {
    var r := Truncate(cs, maxFiles);
    assert r == cs[..|r|];
  }

  /** `files_created = min(len(chapters), max_files) if max_files else len(chapters)`. */
  function FilesCreated(count: nat, maxFiles: Option<int>): int {
    if Limited(maxFiles) then Min(count, maxFiles.value) else count
  }

  /** The reported count is the number of chapters processed when the limit
      is absent, zero or positive; a negative limit is reported as is. */
  lemma FilesCreatedSpec(cs: seq<Chapter>, maxFiles: Option<int>)
    ensures !Limited(maxFiles) || maxFiles.value > 0 ==> FilesCreated(|cs|, maxFiles) == |Truncate(cs, maxFiles)|
    ensures Limited(maxFiles) && maxFiles.value < 0 ==> FilesCreated(|cs|, maxFiles) == maxFiles.value
  {
  }

  // ------------------------------------------------------------ as written

  /** `reader.pages[p]`: a negative index counts from the end (Python's rule,
      which PyPDF2's page list follows); anything else outside the list raises
      `IndexError`. */
  function PdfPage(p: int, total: nat): (r: Option<nat>)
    ensures r.Some? ==> r.value < total
    ensures 0 <= p < total ==> r == Some(p)
    ensures p < 0 && p + total >= 0 ==> r == Some(p + total)
    ensures p >= total || p + total < 0 ==> r.None?
  {
    if 0 <= p < total then Some(p)
    else if p < 0 && p + total >= 0 then Some(p + total)
    else None
  }

  /** The pages the copy loop `for page_num in range(start, end)` adds, or
      none when a lookup raises. */
  function ReadPages(start: int, end: int, total: nat): Option<seq<nat>>
    decreases end - start
  {
    if end <= start then Some([])
    else
      match ReadPages(start, end - 1, total)
      case None => None
      case Some(ps) =>
        if end - 1 < total then
          match PdfPage(end - 1, total)
          case None => None
          case Some(q) => Some(ps + [q])
        else Some(ps)
  }

  lemma {:induction false} ReadPagesFailurePersists(start: int, mid: int, end: int, total: nat)
    requires mid <= end && ReadPages(start, mid, total).None?
    ensures ReadPages(start, end, total).None?
    decreases end - mid
  {
    if mid < end {
      ReadPagesFailurePersists(start, mid, end - 1, total);
    }
  }

  /** What happens to one chapter. */
  datatype Step = Skipped | Saved(file: ChapterFile) | Failed

  /** One chapter of `split_pdf_by_chapters` as written. */
  function ChapterAsWritten(cs: seq<Chapter>, i: nat, total: nat): Step
    requires AllLocated(cs) && i < |cs|
  {
    var start := Actual(cs[i]) - 1;
    var end := EndPage(cs, i, total);
    if start >= total then Skipped
    else
      var end' := if end > total then total else end;
      if start >= end' then Skipped
      else
        match ReadPages(start, end', total)
        case None => Failed
        case Some(ps) => Saved(ChapterFile(FileName(cs[i].number), ps))
  }

  /** The files saved, or the files saved before an `IndexError` stopped the run. */
  datatype SplitOutcome = Done(files: seq<ChapterFile>) | IndexError(saved: seq<ChapterFile>)

  function SplitUpTo(cs: seq<Chapter>, total: nat, n: nat): SplitOutcome
    requires AllLocated(cs) && n <= |cs|
  {
    if n == 0 then Done([])
    else
      match SplitUpTo(cs, total, n - 1)
      case IndexError(saved) => IndexError(saved)
      case Done(files) =>
        match ChapterAsWritten(cs, n - 1, total)
        case Skipped => Done(files)
        case Saved(f) => Done(files + [f])
        case Failed => IndexError(files)
  }

  lemma {:induction false} SplitFailurePersists(cs: seq<Chapter>, total: nat, m: nat, n: nat)
    requires AllLocated(cs) && m <= n <= |cs| && SplitUpTo(cs, total, m).IndexError?
    ensures SplitUpTo(cs, total, n) == SplitUpTo(cs, total, m)
    decreases n - m
  {
    if m < n {
      SplitFailurePersists(cs, total, m, n - 1);
    }
  }

  /** The files saved, whether or not the run finished. */
  function Written(o: SplitOutcome): seq<ChapterFile> {
    match o
    case Done(files) => files
    case IndexError(saved) => saved
  }

  /** The copy loop over pages inside the document adds one page per index,
      each an existing page. */
  lemma {:induction false} ReadPagesSpec(start: int, end: int, total: nat)
    requires end <= total
    ensures ReadPages(start, end, total).Some? ==>
      var ps := ReadPages(start, end, total).value;
      |ps| == Max(0, end - start) && forall k :: 0 <= k < |ps| ==> ps[k] < total
    decreases end - start
  {
    if start < end {
      ReadPagesSpec(start, end - 1, total);
    }
  }

  /** As written, the split saves at most one file per processed chapter,
      each non-empty and made of pages of the document. */
  lemma {:induction false} SplitUpToSpec(cs: seq<Chapter>, total: nat, n: nat)
    requires AllLocated(cs) && n <= |cs|
    ensures |Written(SplitUpTo(cs, total, n))| <= n
    ensures forall f :: f in Written(SplitUpTo(cs, total, n)) ==>
      f.pages != [] && forall k :: 0 <= k < |f.pages| ==> f.pages[k] < total
  {
    if n > 0 {
      SplitUpToSpec(cs, total, n - 1);
      var i := n - 1;
      var start := Actual(cs[i]) - 1;
      var end := EndPage(cs, i, total);
      var end' := if end > total then total else end;
      ReadPagesSpec(start, end', total);
    }
  }

  /** `split_pdf_by_chapters` as written: truncate first, then find each
      end page among the kept chapters only. */
  function SplitAsWritten(chapters: seq<Chapter>, total: nat, maxFiles: Option<int>): SplitOutcome
    requires AllLocated(chapters)
  {
    TruncateLocated(chapters, maxFiles);
    var cs := Truncate(chapters, maxFiles);
    SplitUpTo(cs, total, |cs|)
  }

  /** `split_pdf_by_chapters`, with its chapter loop, its end-page search and
      its page-copy loop. */
  method SplitPdfByChapters(chapters: seq<Chapter>, total: nat, maxFiles: Option<int>) returns (outcome: SplitOutcome)
    requires AllLocated(chapters)
    ensures outcome == SplitAsWritten(chapters, total, maxFiles)
  {
    TruncateLocated(chapters, maxFiles);
    var cs := chapters;
    if Limited(maxFiles) {
      cs := PyPrefix(chapters, maxFiles.value);
    }
    var files: seq<ChapterFile> := [];
    for i := 0 to |cs|
      invariant SplitUpTo(cs, total, i) == Done(files)
    {
      var startPage := Actual(cs[i]) - 1;
      var endPage := FindEndPage(cs, i, total);
      if startPage >= total {
        continue;
      }
      if endPage > total {
        endPage := total;
      }
      if startPage >= endPage {
        continue;
      }
      var written: seq<nat> := [];
      for pageNum := startPage to endPage
        invariant ReadPages(startPage, pageNum, total) == Some(written)
      {
        if pageNum < total {
          var page := PdfPage(pageNum, total);
          if page.None? {
            ReadPagesFailurePersists(startPage, pageNum + 1, endPage, total);
            SplitFailurePersists(cs, total, i + 1, |cs|);
            return IndexError(files);
          }
          written := written + [page.value];
        }
      }
      files := files + [ChapterFile(FileName(cs[i].number), written)];
    }
    return Done(files);
  }

  // ------------------------------------------------------------ corrected

  /** `[lo, lo + 1, ..., hi - 1]`. */
  function Range(lo: nat, hi: nat): (r: seq<nat>)
    ensures |r| == if lo <= hi then hi - lo else 0
    ensures forall k :: 0 <= k < |r| ==> r[k] == lo + k
    decreases hi
  {
    if hi <= lo then [] else Range(lo, hi - 1) + [hi - 1]
  }

  /** One chapter of the corrected plan: the end page is found among all
      chapters, and a chapter that starts before the first page is skipped
      like one that starts after the last. */
  function ChapterPlan(cs: seq<Chapter>, i: nat, total: nat): Option<ChapterFile>
    requires AllLocated(cs) && i < |cs|
  {
    var start := Actual(cs[i]) - 1;
    var end := Min(EndPage(cs, i, total), total);
    if start < 0 || start >= total || start >= end then None
    else Some(ChapterFile(FileName(cs[i].number), Range(start, end)))
  }

  function PlanUpTo(cs: seq<Chapter>, total: nat, n: nat): seq<ChapterFile>
    requires AllLocated(cs) && n <= |cs|
  {
    if n == 0 then []
    else
      match ChapterPlan(cs, n - 1, total)
      case None => PlanUpTo(cs, total, n - 1)
      case Some(f) => PlanUpTo(cs, total, n - 1) + [f]
  }

  /** The corrected `split_pdf_by_chapters`: files for the first chapters
      only (as `--max` says), with end pages taken from all chapters. */
  function PlanFiles(chapters: seq<Chapter>, total: nat, maxFiles: Option<int>): seq<ChapterFile>
    requires AllLocated(chapters)
  {
    PlanUpTo(chapters, total, |Truncate(chapters, maxFiles)|)
  }

  /** A chapter gets a file exactly when its first page lies in the document
      and before its end page; the file holds the pages from `actual_page - 1`
      up to the end page clamped to the page count, one after the other. */
  lemma ChapterPlanSpec(cs: seq<Chapter>, i: nat, total: nat)
    requires AllLocated(cs) && i < |cs|
    ensures ChapterPlan(cs, i, total).Some? <==>
      1 <= Actual(cs[i]) && Actual(cs[i]) - 1 < Min(EndPage(cs, i, total), total)
    ensures ChapterPlan(cs, i, total).Some? ==>
      var f := ChapterPlan(cs, i, total).value;
      f.name == FileName(cs[i].number) &&
      |f.pages| == Min(EndPage(cs, i, total), total) - (Actual(cs[i]) - 1) > 0 &&
      f.pages[0] == Actual(cs[i]) - 1 &&
      (forall k :: 0 <= k < |f.pages| ==> f.pages[k] == f.pages[0] + k && f.pages[k] < total)
  {
  }

  /** Every planned file is non-empty, holds consecutive pages, and only pages
      that exist; there is at most one file per processed chapter. */
  lemma {:induction false} PlanUpToSpec(cs: seq<Chapter>, total: nat, n: nat)
    requires AllLocated(cs) && n <= |cs|
    ensures |PlanUpTo(cs, total, n)| <= n
    ensures forall f :: f in PlanUpTo(cs, total, n) ==>
      f.pages != [] && (forall k :: 0 <= k < |f.pages| ==> f.pages[k] == f.pages[0] + k && f.pages[k] < total)
  {
    if n > 0 {
      PlanUpToSpec(cs, total, n - 1);
      ChapterPlanSpec(cs, n - 1, total);
    }
  }

  /** On a sorted list, chapters that start on different pages get files that
      do not overlap: a file ends before the next later-starting chapter's
      file begins. */
  lemma PlanFilesDisjoint(cs: seq<Chapter>, total: nat, i: nat, j: nat)
    requires SortedByActual(cs) && i < j < |cs| && Actual(cs[i]) < Actual(cs[j])
    requires ChapterPlan(cs, i, total).Some? && ChapterPlan(cs, j, total).Some?
    ensures var a := ChapterPlan(cs, i, total).value.pages;
            var b := ChapterPlan(cs, j, total).value.pages;
            a[|a| - 1] < b[0]
  {
    ChapterPlanSpec(cs, i, total);
    ChapterPlanSpec(cs, j, total);
    NextLaterSpec(cs, i, i + 1);
    var next := NextLater(cs, i, i + 1);
    assert next.Some? && next.value <= j;
  }

  lemma {:induction false} ReadPagesInRange(start: nat, end: nat, total: nat)
    requires end <= total
    ensures ReadPages(start, end, total) == Some(Range(start, end))
    decreases end
  {
    if start < end {
      ReadPagesInRange(start, end - 1, total);
    }
  }

  lemma {:induction false} SplitUpToAgrees(cs: seq<Chapter>, total: nat, n: nat)
    requires AllLocated(cs) && n <= |cs|
    requires forall i :: 0 <= i < |cs| ==> Actual(cs[i]) >= 1
    ensures SplitUpTo(cs, total, n) == Done(PlanUpTo(cs, total, n))
  {
    if n > 0 {
      SplitUpToAgrees(cs, total, n - 1);
      var i := n - 1;
      var start := Actual(cs[i]) - 1;
      var end := Min(EndPage(cs, i, total), total);
      if start < total && start < end {
        ReadPagesInRange(start, end, total);
      }
    }
  }

  /** When no chapter starts before the first page, the split as written
      is the corrected plan applied to the kept chapters alone: only the
      `--max` defect remains. */
  lemma SplitAsWrittenPlansKept(chapters: seq<Chapter>, total: nat, maxFiles: Option<int>)
    requires AllLocated(chapters)
    requires forall i :: 0 <= i < |chapters| ==> Actual(chapters[i]) >= 1
    ensures var kept := Truncate(chapters, maxFiles);
      AllLocated(kept) && SplitAsWritten(chapters, total, maxFiles) == Done(PlanUpTo(kept, total, |kept|))
  {
    TruncateLocated(chapters, maxFiles);
    var kept := Truncate(chapters, maxFiles);
    SplitUpToAgrees(kept, total, |kept|);
  }

  /** The two corrections change nothing when no chapter starts before the
      first page and `--max` keeps every chapter. */
  lemma SplitAsWrittenAgreesWithPlan(chapters: seq<Chapter>, total: nat, maxFiles: Option<int>)
    requires AllLocated(chapters)
    requires forall i :: 0 <= i < |chapters| ==> Actual(chapters[i]) >= 1
    requires Truncate(chapters, maxFiles) == chapters
    ensures SplitAsWritten(chapters, total, maxFiles) == Done(PlanFiles(chapters, total, maxFiles))
  {
    SplitAsWrittenPlansKept(chapters, total, maxFiles);
  }

  // ------------------------------------------------------------ defects

  /** A chapter located on page 0 (possible when a negative offset moved its
      table-of-contents page) starts at index -1, and PyPDF2 reads that as the
      last page: the file for "1.1" starts with page 9 of a ten-page document. */
  lemma StartBeforeFirstPageWraps()
    ensures var cs := [Chapter("1.1", "Intro", 0, 1, Some(0)), Chapter("1.2", "Setup", 3, 1, Some(3))];
      SplitAsWritten(cs, 10, None) == Done([ChapterFile(FileName("1.1"), [9, 0, 1]), ChapterFile(FileName("1.2"), Range(2, 10))])
      && PlanFiles(cs, 10, None) == [ChapterFile(FileName("1.2"), Range(2, 10))]
  {
    var cs := [Chapter("1.1", "Intro", 0, 1, Some(0)), Chapter("1.2", "Setup", 3, 1, Some(3))];
    ReadPagesWraps();
    ReadPagesInRange(2, 10, 10);
    hide ReadPages, FileName, Range;
    assert NextLater(cs, 0, 1) == Some(1);
    assert NextLater(cs, 1, 2) == None;
    assert SplitUpTo(cs, 10, 1) == Done([ChapterFile(FileName("1.1"), [9, 0, 1])]);
    assert PlanUpTo(cs, 10, 1) == [];
  }

  /** Index -1 of a ten-page document is its last page. */
  lemma ReadPagesWraps()
    ensures ReadPages(-1, 2, 10) == Some([9, 0, 1])
  {
    assert ReadPages(-1, -1, 10) == Some([]);
    assert PdfPage(-1, 10) == Some(9);
    assert [] + [9] == [9];
    assert ReadPages(-1, 0, 10) == Some([9]);
    assert [9] + [0] == [9, 0];
    assert ReadPages(-1, 1, 10) == Some([9, 0]);
    assert [9, 0] + [1] == [9, 0, 1];
  }

  /** With `--max 1` the kept chapter "1.1" is cut off from "1.2", so as
      written its file runs to the end of the document (ten pages) although
      the chapter ends after page 4 - which is what the preview shows. */
  lemma LimitCutsLastChapterShort()
    ensures var cs := [Chapter("1.1", "Intro", 1, 1, Some(1)), Chapter("1.2", "Setup", 5, 1, Some(5))];
      SplitAsWritten(cs, 10, Some(1)) == Done([ChapterFile(FileName("1.1"), Range(0, 10))])
      && PlanFiles(cs, 10, Some(1)) == [ChapterFile(FileName("1.1"), Range(0, 4))]
  {
    var cs := [Chapter("1.1", "Intro", 1, 1, Some(1)), Chapter("1.2", "Setup", 5, 1, Some(5))];
    var kept := Truncate(cs, Some(1));
    assert kept == [cs[0]];
    assert NextLater(kept, 0, 1) == None;
    assert NextLater(cs, 0, 1) == Some(1);
    ReadPagesInRange(0, 10, 10);
  }
}
