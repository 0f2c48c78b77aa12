/** The `--show-only` branch of `main`: one row per displayed chapter, with
    the inclusive page range found among all sorted chapters. */
module Preview {
  import opened Strings
  import opened Toc
  import opened ChapterOrder
  import opened SplitPlan

  /** What is printed for one chapter: 1-based first and last page, the
      page count and the output file name. */
  datatype PreviewRow = PreviewRow(number: string, title: string, startPage: int, endPage: int, pageCount: int, output: string)

  /** The row for chapter `c`, whose end page is searched from its first
      occurrence in `all` (`all_chapters.index(chapter)`). */
  function RowOf(all: seq<Chapter>, c: Chapter, total: nat): PreviewRow
    requires AllLocated(all) && c in all
  {
    var k := FirstIndexOf(all, c);
    var start := Actual(all[k]);
    var end := EndPage(all, k, total);
    PreviewRow(c.number, c.title, start, end, end - start + 1, FileName(c.number))
  }

  function RowsUpTo(all: seq<Chapter>, total: nat, n: nat): (r: seq<PreviewRow>)
    requires AllLocated(all) && n <= |all|
    ensures |r| == n
  {
    if n == 0 then [] else RowsUpTo(all, total, n - 1) + [RowOf(all, all[n - 1], total)]
  }

  /** The rows for the displayed prefix `chapters[:max_files] if max_files else chapters`. */
  function PreviewRows(chapters: seq<Chapter>, total: nat, maxFiles: Option<int>): (r: seq<PreviewRow>)
    requires AllLocated(chapters)
    ensures |r| == |Truncate(chapters, maxFiles)|
  {
    RowsUpTo(chapters, total, |Truncate(chapters, maxFiles)|)
  }

  /** The display loop of the `--show-only` branch. */
  method ShowChapters(chapters: seq<Chapter>, total: nat, maxFiles: Option<int>) returns (rows: seq<PreviewRow>)
    requires AllLocated(chapters)
    ensures rows == PreviewRows(chapters, total, maxFiles)
  {
    TruncateLocated(chapters, maxFiles);
    hide FileName, FirstIndexOf, EndPage;
    var allChapters := chapters;
    var display := chapters;
    if Limited(maxFiles) {
      display := PyPrefix(chapters, maxFiles.value);
    }
    rows := [];
    for i := 0 to |display|
      invariant rows == RowsUpTo(allChapters, total, i)
    {
      var chapter := display[i];
      var startPage := Actual(chapter);
      var currentIndex := FirstIndexOf(allChapters, chapter);
      var endPage := FindEndPage(allChapters, currentIndex, total);
      var pageCount := endPage - startPage + 1;
      rows := rows + [PreviewRow(chapter.number, chapter.title, startPage, endPage, pageCount, FileName(chapter.number))];
    }
  }

  lemma {:induction false} RowsUpToAt(all: seq<Chapter>, total: nat, n: nat, i: nat)
    requires AllLocated(all) && i < n <= |all|
    ensures RowsUpTo(all, total, n)[i] == RowOf(all, all[i], total)
  {
    if i < n - 1 {
      RowsUpToAt(all, total, n - 1, i);
    }
  }

  /** One row per displayed chapter, in order: its number, title and file
      name, its own page as first page, and on a sorted list the end page of
      its own position among all chapters - the limit changes how many rows
      there are, never what a row says. */
  lemma PreviewRowsSpec(chapters: seq<Chapter>, total: nat, maxFiles: Option<int>, i: nat)
    requires SortedByActual(chapters) && i < |Truncate(chapters, maxFiles)|
    ensures var row := PreviewRows(chapters, total, maxFiles)[i];
      row == PreviewRows(chapters, total, None)[i] &&
      row.number == chapters[i].number && row.title == chapters[i].title &&
      row.output == FileName(chapters[i].number) &&
      row.startPage == Actual(chapters[i]) &&
      row.endPage == EndPage(chapters, i, total) &&
      row.pageCount == row.endPage - row.startPage + 1
  {
    RowsUpToAt(chapters, total, |Truncate(chapters, maxFiles)|, i);
    RowsUpToAt(chapters, total, |chapters|, i);
    var k := FirstIndexOf(chapters, chapters[i]);
    EndPageFromFirstOccurrence(chapters, i, k, total);
  }

  /** On a sorted list the preview shows what the corrected plan gives: a
      displayed chapter gets a file exactly when its range lies in the document
      and is non-empty, and then the file is the one named in the row, starting
      on the row's first page and ending on its last page (clamped to the page
      count). */
  lemma PreviewMatchesPlan(chapters: seq<Chapter>, total: nat, maxFiles: Option<int>)
    requires SortedByActual(chapters)
    ensures forall i :: 0 <= i < |PreviewRows(chapters, total, maxFiles)| ==> RowMatchesPlan(chapters, total, maxFiles, i)
  {
    forall i | 0 <= i < |PreviewRows(chapters, total, maxFiles)| ensures RowMatchesPlan(chapters, total, maxFiles, i) {
      PreviewRowsSpec(chapters, total, maxFiles, i);
      ChapterPlanSpec(chapters, i, total);
    }
  }

  /** Row `i` of the preview and the file planned for chapter `i` agree. */
  predicate RowMatchesPlan(chapters: seq<Chapter>, total: nat, maxFiles: Option<int>, i: nat)
    requires AllLocated(chapters) && i < |Truncate(chapters, maxFiles)|
  {
    var row := PreviewRows(chapters, total, maxFiles)[i];
    var plan := ChapterPlan(chapters, i, total);
    (plan.None? <==> row.startPage < 1 || row.startPage > total || Min(row.endPage, total) < row.startPage) &&
    (plan.Some? ==>
      plan.value.pages != [] &&
      plan.value.name == row.output &&
      plan.value.pages[0] + 1 == row.startPage &&
      plan.value.pages[|plan.value.pages| - 1] + 1 == Min(row.endPage, total) &&
      (row.endPage <= total ==> |plan.value.pages| == row.pageCount))
  }
}
