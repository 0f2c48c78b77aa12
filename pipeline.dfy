/** The planning part of `main`: table of contents, offset, located pages,
    sort, then either the preview or the split as written.  `pages` is the
    text of every page of the document ("" for a page without text). */
module Pipeline {
  import opened Strings
  import opened Toc
  import opened PageSearch
  import opened ChapterOrder
  import opened SplitPlan
  import opened Preview

  /** How `main` ends: no table of contents, the preview, the split with the
      reported file count, or an `IndexError` from the split that leaves
      `main` before anything is reported (after `saved` were written). */
  datatype PlanResult =
    | NoChapters
    | Previewed(rows: seq<PreviewRow>)
    | Extracted(files: seq<ChapterFile>, reported: int)
    | Raised(saved: seq<ChapterFile>)

  /** The files written on the way to `p`. */
  function SavedFiles(p: PlanResult): seq<ChapterFile> {
    match p
    case Extracted(files, _) => files
    case Raised(saved) => saved
    case _ => []
  }

  /** The table of contents after `chapter['page'] += page_offset`, which
      `main` runs only for a non-zero offset; an offset of 0 changes nothing
      either way. */
  function ShiftedToc(lower: string -> string, pages: seq<string>): (r: seq<Chapter>)
    ensures |r| == |TocOf(pages)|
    ensures forall i :: 0 <= i < |r| ==>
      r[i] == TocOf(pages)[i].(page := TocOf(pages)[i].page + DetectedOffset(lower, pages, TocOf(pages)))
  {
    var toc := TocOf(pages);
    var offset := DetectedOffset(lower, pages, toc);
    if offset != 0 then OffsetApplied(toc, offset) else toc
  }

  /** The shifted chapters, each located, then sorted. */
  function LocatedChapters(lower: string -> string, pages: seq<string>): (r: seq<Chapter>)
    ensures AllLocated(r)
  {
    var located := WithActualPages(lower, pages, ShiftedToc(lower, pages));
    assert AllLocated(located);
    SortByActualPage(located)
  }

  /** What `main` produces for the given options. */
  function PlanOf(lower: string -> string, pages: seq<string>, maxFiles: Option<int>, showOnly: bool): PlanResult {
    if TocOf(pages) == [] then NoChapters
    else
      var cs := LocatedChapters(lower, pages);
      if showOnly then Previewed(PreviewRows(cs, |pages|, maxFiles))
      else
        match SplitAsWritten(cs, |pages|, maxFiles)
        case Done(files) => Extracted(files, FilesCreated(|cs|, maxFiles))
        case IndexError(saved) => Raised(saved)
  }

  /** `main` after the arguments are parsed and the document is opened. */
  method PlanChapterFiles(lower: string -> string, pages: seq<string>, maxFiles: Option<int>, showOnly: bool)
    returns (result: PlanResult)
    ensures result == PlanOf(lower, pages, maxFiles, showOnly)
  {
    var chapters := ExtractToc(pages);
    if chapters == [] {
      return NoChapters;
    }
    var pageOffset := AutoDetectPageOffset(lower, pages, chapters);
    if pageOffset != 0 {
      chapters := ApplyOffset(chapters, pageOffset);
    }
    chapters := FindChapterActualPages(lower, pages, chapters);
    chapters := SortChapters(chapters);
    if showOnly {
      var rows := ShowChapters(chapters, |pages|, maxFiles);
      return Previewed(rows);
    }
    var outcome := SplitPdfByChapters(chapters, |pages|, maxFiles);
    if outcome.IndexError? {
      return Raised(outcome.saved);
    }
    return Extracted(outcome.files, FilesCreated(|chapters|, maxFiles));
  }

  /** Locating and sorting keep exactly the table-of-contents records, each
      moved by the detected offset and given its located page, and order them
      by that page, records on the same page in table-of-contents order. */
  lemma LocatedChaptersSpec(lower: string -> string, pages: seq<string>)
    ensures SortedByActual(LocatedChapters(lower, pages))
    ensures multiset(LocatedChapters(lower, pages)) == multiset(WithActualPages(lower, pages, ShiftedToc(lower, pages)))
    ensures AllLocated(WithActualPages(lower, pages, ShiftedToc(lower, pages))) &&
      forall k :: WithActual(LocatedChapters(lower, pages), k) == WithActual(WithActualPages(lower, pages, ShiftedToc(lower, pages)), k)
    ensures |LocatedChapters(lower, pages)| == |TocOf(pages)|
  {
    var located := WithActualPages(lower, pages, ShiftedToc(lower, pages));
    assert AllLocated(located);
    SortByActualPageSpec(located);
    var r := SortByActualPage(located);
    assert |r| == |located| by {
      assert |multiset(r)| == |multiset(located)|;
    }
  }

  /** Without a table of contents nothing is planned (a table of contents
      whose chapters all fall outside the document still gives no file).
      Otherwise the split, as written, saves at most one file per kept
      chapter, each a non-empty list of existing pages, whether it finishes or
      raises.  Only when it finishes does `main` report a count: `min(len,
      max_files)`, never fewer than were saved for no limit or a positive one.
      When every chapter starts on page 1 or later, the split finishes with
      the corrected plan of the kept chapters (so every file is a run of
      consecutive pages), and without `--max` with the corrected plan itself,
      the one the preview shows. */
  lemma ExtractedSpec(lower: string -> string, pages: seq<string>, maxFiles: Option<int>)
    ensures PlanOf(lower, pages, maxFiles, false).NoChapters? <==> TocOf(pages) == []
    ensures !PlanOf(lower, pages, maxFiles, false).Previewed?
    ensures TocOf(pages) != [] ==>
      var files := SavedFiles(PlanOf(lower, pages, maxFiles, false));
      |files| <= |Truncate(LocatedChapters(lower, pages), maxFiles)| &&
      (forall f :: f in files ==> f.pages != [] && forall k :: 0 <= k < |f.pages| ==> f.pages[k] < |pages|)
    ensures PlanOf(lower, pages, maxFiles, false).Extracted? ==>
      var p := PlanOf(lower, pages, maxFiles, false);
      p.reported == FilesCreated(|TocOf(pages)|, maxFiles) &&
      ((!Limited(maxFiles) || maxFiles.value > 0) ==> |p.files| <= p.reported)
    ensures TocOf(pages) != [] ==>
      var p := PlanOf(lower, pages, maxFiles, false);
      var cs := LocatedChapters(lower, pages);
      (forall i :: 0 <= i < |cs| ==> Actual(cs[i]) >= 1) ==>
        AllLocated(Truncate(cs, maxFiles)) &&
        p.Extracted? && p.files == PlanUpTo(Truncate(cs, maxFiles), |pages|, |Truncate(cs, maxFiles)|) &&
        (!Limited(maxFiles) ==> p.files == PlanFiles(cs, |pages|, maxFiles)) &&
        (forall f :: f in p.files ==> forall k :: 0 <= k < |f.pages| ==> f.pages[k] == f.pages[0] + k)
  {
    if TocOf(pages) != [] {
      var cs := LocatedChapters(lower, pages);
      LocatedChaptersSpec(lower, pages);
      TruncateLocated(cs, maxFiles);
      var kept := Truncate(cs, maxFiles);
      SplitUpToSpec(kept, |pages|, |kept|);
      FilesCreatedSpec(cs, maxFiles);
      if forall i :: 0 <= i < |cs| ==> Actual(cs[i]) >= 1 {
        SplitAsWrittenPlansKept(cs, |pages|, maxFiles);
        PlanUpToSpec(kept, |pages|, |kept|);
      }
    }
  }

  /** The preview lists the first `max_files` chapters (all of them without a
      limit), and each row agrees with the file the corrected plan gives its
      chapter. */
  lemma PreviewedSpec(lower: string -> string, pages: seq<string>, maxFiles: Option<int>)
    requires TocOf(pages) != []
    ensures PlanOf(lower, pages, maxFiles, true).Previewed?
    ensures !Limited(maxFiles) ==> |PlanOf(lower, pages, maxFiles, true).rows| == |TocOf(pages)|
    ensures forall i :: 0 <= i < |PlanOf(lower, pages, maxFiles, true).rows| ==>
      RowMatchesPlan(LocatedChapters(lower, pages), |pages|, maxFiles, i)
  {
    var cs := LocatedChapters(lower, pages);
    LocatedChaptersSpec(lower, pages);
    PreviewMatchesPlan(cs, |pages|, maxFiles);
  }
}
