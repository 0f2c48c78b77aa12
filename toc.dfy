/** `extract_toc_from_pdf`: the table of contents read from the first pages of
    the document.  A page is given by its extracted text; "" stands for a page
    without text. */
module Toc {
  import opened Strings
  import opened TocLine

  /** One chapter record.  `actualPage` is absent until the chapter has been
      located in the document. */
  datatype Chapter = Chapter(number: string, title: string, page: int, level: nat, actualPage: Option<int>)

  /** How many leading pages are searched for the table of contents. */
  const TocPages: nat := 20

  /** What every record taken from the table of contents looks like: a
      subsection number with exactly one dot, level 1, a page read from digits,
      and no actual page yet. */
  predicate IsTocEntry(c: Chapter) {
    c.level == 1 && CountChar(c.number, '.') == 1 && c.page >= 0 && c.actualPage.None?
  }

  /** `re.match` with the dotted-leader shape, and the plain shape only when
      that fails. */
  function FirstMatch(line: string): (r: Option<(Shape, LineMatch)>)
    ensures r.Some? ==> SpansOk(line, r.value.1)
    ensures r.Some? ==> MatchLine(r.value.0, line) == Some(r.value.1)
    ensures MatchLine(Dotted, line).Some? ==> r.Some? && r.value.0 == Dotted
    ensures r.None? <==> MatchLine(Dotted, line).None? && MatchLine(Plain, line).None?
  {
    match MatchLine(Dotted, line)
    case Some(m) => Some((Dotted, m))
    case None =>
      match MatchLine(Plain, line)
      case Some(m) => Some((Plain, m))
      case None => None
  }

  /** The record a table-of-contents line yields, if any: only numbers with
      exactly one dot (`1.1`, not `1`) are kept. */
  function EntryOfLine(line: string): (r: Option<Chapter>)
    ensures r.Some? ==> IsTocEntry(r.value) && r.value.number <= line
  {
    match FirstMatch(line)
    case None => None
    case Some((_, m)) =>
      var number := line[..m.numEnd];
      var level := CountChar(number, '.');
      if level == 1 then
        Some(Chapter(number, Strip(line[m.titleStart..m.titleEnd]), PageOf(line, m), level, None))
      else None
  }

  /** The records of a sequence of lines, in line order. */
  function EntriesOfLines(lines: seq<string>): (r: seq<Chapter>)
    ensures forall c :: c in r ==> IsTocEntry(c)
  {
    if lines == [] then []
    else
      var prev := EntriesOfLines(lines[..|lines| - 1]);
      match EntryOfLine(lines[|lines| - 1])
      case Some(c) => prev + [c]
      case None => prev
  }

  /** The records of one page; a page without text yields none. */
  function EntriesOfPage(text: string): seq<Chapter> {
    if text == "" then [] else EntriesOfLines(Split(text, '\n'))
  }

  /** The records of a sequence of pages, page by page. */
  function EntriesOfPages(pages: seq<string>): (r: seq<Chapter>)
    ensures forall c :: c in r ==> IsTocEntry(c)
  {
    if pages == [] then []
    else EntriesOfPages(pages[..|pages| - 1]) + EntriesOfPage(pages[|pages| - 1])
  }

  lemma EntriesOfPagesStep(pages: seq<string>, p: nat)
    requires p < |pages|
    ensures EntriesOfPages(pages[..p + 1]) == EntriesOfPages(pages[..p]) + EntriesOfPage(pages[p])
  {
    assert pages[..p + 1][..p] == pages[..p];
  }

  /** The table of contents: only the first `min(20, page count)` pages are read. */
  function TocOf(pages: seq<string>): seq<Chapter> {
    EntriesOfPages(Take(pages, TocPages))
  }

  /** `extract_toc_from_pdf`: the page loop over the first twenty pages. */
  method ExtractToc(pages: seq<string>) returns (chapters: seq<Chapter>)
    ensures chapters == TocOf(pages)
  {
    hide EntriesOfPage;
    chapters := [];
    var n := if |pages| < TocPages then |pages| else TocPages;
    for p := 0 to n
      invariant chapters == EntriesOfPages(pages[..p])
    {
      EntriesOfPagesStep(pages, p);
      chapters := AppendPageEntries(chapters, pages[p]);
    }
    assert pages[..n] == Take(pages, TocPages);
  }

  /** One page of `extract_toc_from_pdf`: a page without text is skipped. */
  method AppendPageEntries(chapters: seq<Chapter>, text: string) returns (result: seq<Chapter>)
    ensures result == chapters + EntriesOfPage(text)
  {
    result := chapters;
    if text != "" {
      result := AppendLineEntries(chapters, Split(text, '\n'));
    }
  }

  /** The line loop of `extract_toc_from_pdf`: each kept record is appended. */
  method AppendLineEntries(chapters: seq<Chapter>, lines: seq<string>) returns (result: seq<Chapter>)
    ensures result == chapters + EntriesOfLines(lines)
  {
    hide EntryOfLine;
    result := chapters;
    for l := 0 to |lines|
      invariant result == chapters + EntriesOfLines(lines[..l])
    {
      var entry := EntryOfLine(lines[l]);
      if entry.Some? {
        result := result + [entry.value];
      }
      assert lines[..l + 1][..l] == lines[..l];
    }
    assert lines[..|lines|] == lines;
  }

  // ------------------------------------------------------------------ properties

  /** A line yields a record exactly when one of the shapes matches (the
      dotted one first) and its number group contains a dot; the record then
      holds the number, the stripped title and the value of the page digits. */
  lemma EntryOfLineSpec(line: string)
    ensures FirstMatch(line).None? ==> EntryOfLine(line).None?
    ensures FirstMatch(line).Some? ==>
      var m := FirstMatch(line).value.1;
      (EntryOfLine(line).Some? <==> '.' in line[..m.numEnd]) &&
      (EntryOfLine(line).Some? ==>
         EntryOfLine(line).value == Chapter(line[..m.numEnd], Strip(line[m.titleStart..m.titleEnd]),
                                            PageOf(line, m), 1, None))
  {
    if FirstMatch(line).Some? {
      var (shape, m) := FirstMatch(line).value;
      MatchLineIsFirstMatch(shape, line);
      NumberHasAtMostOneDot(line, m.numEnd);
    }
  }

  /** The plain shape is used only on lines the dotted shape cannot match in
      any way; a line that neither shape fits yields nothing. */
  lemma DottedShapeTriedFirst(line: string)
    ensures FirstMatch(line).Some? && FirstMatch(line).value.0 == Plain ==>
      forall k1: nat, s: nat, e: nat :: !Decomposes(Dotted, line, k1, s, e)
    ensures FirstMatch(line).None? ==>
      forall shape, k1: nat, s: nat, e: nat :: !Decomposes(shape, line, k1, s, e)
  {
    MatchLineIsFirstMatch(Dotted, line);
    MatchLineIsFirstMatch(Plain, line);
    if FirstMatch(line).None? {
      forall shape, k1: nat, s: nat, e: nat ensures !Decomposes(shape, line, k1, s, e) {
        match shape
        case Dotted =>
        case Plain =>
      }
    }
  }

  /** Pages contribute their records in page order. */
  lemma {:induction false} EntriesOfPagesAppend(a: seq<string>, b: seq<string>)
    ensures EntriesOfPages(a + b) == EntriesOfPages(a) + EntriesOfPages(b)
    decreases |b|
  {
    if b == [] {
      assert a + b == a;
    } else {
      var b' := b[..|b| - 1];
      var last := b[|b| - 1];
      assert (a + b)[..|a + b| - 1] == a + b';
      assert (a + b)[|a + b| - 1] == last;
      assert EntriesOfPages(a + b) == EntriesOfPages(a + b') + EntriesOfPage(last);
      assert EntriesOfPages(b) == EntriesOfPages(b') + EntriesOfPage(last);
      EntriesOfPagesAppend(a, b');
      hide EntriesOfPages, EntriesOfPage;
      AppendAssoc(EntriesOfPages(a), EntriesOfPages(b'), EntriesOfPage(last));
    }
  }

  /** Pages after the twentieth never change the table of contents. */
  lemma TocIgnoresLaterPages(pages: seq<string>, more: seq<string>)
    requires |pages| >= TocPages
    ensures TocOf(pages + more) == TocOf(pages)
  {
    assert Take(pages + more, TocPages) == Take(pages, TocPages);
  }

  /** Every record of the table of contents comes from a line of one of the
      first twenty pages (`EntriesOfPagesAppend` gives their order). */
  lemma TocProvenance(pages: seq<string>, c: Chapter)
    requires c in TocOf(pages)
    ensures IsTocEntry(c)
    ensures exists p :: 0 <= p < |pages| && p < TocPages && pages[p] != "" && c in EntriesOfPage(pages[p])
  {
    TocProvenanceFrom(Take(pages, TocPages), c);
    var p :| 0 <= p < |Take(pages, TocPages)| && Take(pages, TocPages)[p] != "" && c in EntriesOfPage(Take(pages, TocPages)[p]);
    assert pages[p] == Take(pages, TocPages)[p];
  }

  lemma {:induction false} TocProvenanceFrom(pages: seq<string>, c: Chapter)
    requires c in EntriesOfPages(pages)
    ensures exists p :: 0 <= p < |pages| && pages[p] != "" && c in EntriesOfPage(pages[p])
  {
    var init := pages[..|pages| - 1];
    if c in EntriesOfPages(init) {
      TocProvenanceFrom(init, c);
      var p :| 0 <= p < |init| && init[p] != "" && c in EntriesOfPage(init[p]);
      assert pages[p] == init[p];
    } else {
      assert c in EntriesOfPage(pages[|pages| - 1]);
    }
  }
}
