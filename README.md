# Chapter planning for the MicroPython documentation PDF

`knowledge/micropython/step2-convert_pdf_to_chapters.py` cuts the MicroPython
documentation PDF into one PDF per subsection ("1.1", "2.3", ...). This
project models the part that decides what goes where, and proves properties
about it:

- **Table of contents** (`Toc`, `TocLine`). The first twenty pages are read
  line by line. Each line is matched against the dotted-leader shape
  `1.1 Title .... 10`, and against the plain shape `1.1 Title 10` only when
  the dotted shape fails. Only numbers with exactly one dot are kept. The two
  regular expressions are written out as a parser that follows Python's
  backtracking order, and are proved to return the first match in that order.
- **Page offset** (`PageSearch`). The pages in
  `[max(0, toc - 20), min(total, toc + 30))` around the first chapter's
  listed page are scored. The first page with the highest score is taken
  when it scores at least 30. The offset is then added to every chapter's
  page.
- **Actual pages** (`PageSearch`). Each chapter is looked for in
  `[max(0, toc - 5), min(total, toc + 15))`. It is placed on the first
  best page that scores at least 100, and otherwise keeps its listed page.
- **Sorting and end pages** (`ChapterOrder`). The chapters are stably sorted
  by located page. A chapter ends one page before the next chapter that
  starts strictly later.
- **Split and preview** (`SplitPlan`, `Preview`). These are the page ranges
  and file names `micropython-docs1-1.pdf`, the `--max` limit, the reported
  file count, and the `--show-only` table.
- **The run** (`Pipeline`). These are the steps of `main` in order.

The document is its list of page texts. An empty string stands for a page
without text. Page indices in written files are 0-based, as in PyPDF2.
Python's `str.lower` is a function parameter `lower`, left uninterpreted.
Whitespace is ASCII, plus the separators 0x1C-0x1F that `str.isspace` also
accepts, and digits are ASCII.

`SplitPdfByChapters` models `split_pdf_by_chapters` as written, and
`Pipeline` runs it as `main` does. The two defects listed under Findings are
corrected in `PlanFiles`. The preview is proved to agree with that corrected
plan, and the split as written is proved equal to it when neither defect
applies.

## Model

| member | source | states |
|---|---|---|
| Strings.SplitSpec | knowledge/micropython/step2-convert_pdf_to_chapters.py:35 | `split('\n')` returns at least one piece. No piece contains the separator. Joining the pieces gives the text back. |
| Strings.StripSpec | knowledge/micropython/step2-convert_pdf_to_chapters.py:46 | `strip()` is a slice that drops only whitespace on both sides, and it neither starts nor ends with whitespace. |
| Strings.WordsSplit | knowledge/micropython/step2-convert_pdf_to_chapters.py:92-93 | `split()` returns non-empty words without whitespace that, in order and with whitespace gaps between them (at least one character between two words), make up the text. |
| Strings.WordsUnique | knowledge/micropython/step2-convert_pdf_to_chapters.py:92-93 | Any cutting of the text into such words and gaps is the one `split()` returns. |
| Strings.ContainsSpec | knowledge/micropython/step2-convert_pdf_to_chapters.py:110 | `a in b` holds exactly when `a` occurs in `b` at some index. The empty string is in every string. |
| Strings.PyPrefix | knowledge/micropython/step2-convert_pdf_to_chapters.py:219 | `s[:n]` is a prefix of `s`. Its length is `min(n, len)` for `n >= 0` and `max(0, len + n)` for negative `n`. |
| Strings.CountChar | knowledge/micropython/step2-convert_pdf_to_chapters.py:50 | `count(c)` is the number of positions holding `c`. It is zero exactly when `c` does not occur. |
| Strings.ParseInt | knowledge/micropython/step2-convert_pdf_to_chapters.py:55 | `int(digits)` is below `10^len`. |
| Strings.ParseIntFirstDigit | knowledge/micropython/step2-convert_pdf_to_chapters.py:55 | The first digit weighs `10^(len - 1)`. With `int("") == 0` this fixes the value of every digit string, zero-padded ones included. |
| Strings.ParseIntLeadingZero | knowledge/micropython/step2-convert_pdf_to_chapters.py:55 | A leading zero does not change the value: `int("0" + s) == int(s)`. |
| Strings.ParseIntDecimal | knowledge/micropython/step2-convert_pdf_to_chapters.py:55 | `int(str(n)) == n`. |
| Strings.ReplaceChar | knowledge/micropython/step2-convert_pdf_to_chapters.py:258 | `replace('.', '-')` changes exactly the dots, keeps the length, and leaves no dot. |
| TocLine.NumberEnd | knowledge/micropython/step2-convert_pdf_to_chapters.py:39 | The greedy number group is `\d+(?:\.\d+)?`, and it is absent exactly when the line does not start with a digit. |
| TocLine.NumberIsGreedy | knowledge/micropython/step2-convert_pdf_to_chapters.py:39 | Any number group followed by whitespace is the greedy one. |
| TocLine.LazyTitleSpec | knowledge/micropython/step2-convert_pdf_to_chapters.py:39 | The lazy title `(.+?)` stops at the shortest end after which the rest of the pattern fits, and fails only when no end fits. |
| TocLine.TryTitleStartSpec | knowledge/micropython/step2-convert_pdf_to_chapters.py:39 | Backtracking over the first `\s+` (longest first) finds a fitting title exactly when one exists, and the first one in that order. |
| TocLine.MatchLine | knowledge/micropython/step2-convert_pdf_to_chapters.py:39-42 | A match of one shape has its groups in order inside the line, and after the title the rest of the pattern fits and ends with the page digits. |
| TocLine.RestAtIsTail | knowledge/micropython/step2-convert_pdf_to_chapters.py:39-42 | The greedy runs after the title lose no fit: they succeed exactly when the pattern's tail (`\s+\.{2,}\s*(\d+)` or `\s+(\d+)$`) fits in some way. |
| TocLine.MatchLineIsFirstMatch | knowledge/micropython/step2-convert_pdf_to_chapters.py:39-42 | `re.match` of either shape succeeds exactly when the pattern fits some way. It returns the fit backtracking reaches first: the same number, the latest title start, then the shortest title. |
| TocLine.NumberHasAtMostOneDot | knowledge/micropython/step2-convert_pdf_to_chapters.py:50 | The number group holds at most one dot, so `count('.')` is 0 or 1. |
| Toc.FirstMatch | knowledge/micropython/step2-convert_pdf_to_chapters.py:39-42 | The dotted shape's match is taken whenever there is one. The plain shape's is taken otherwise. There is no match exactly when neither shape matches. |
| Toc.EntryOfLine | knowledge/micropython/step2-convert_pdf_to_chapters.py:44-57 | A kept record has level 1, exactly one dot in its number, a page read from digits, and no actual page. Its number is a prefix of the line. |
| Toc.EntryOfLineSpec | knowledge/micropython/step2-convert_pdf_to_chapters.py:39-57 | A line yields a record exactly when a shape matches and the number holds a dot. The record is (group 1, stripped group 2, `int(group 3)`, 1). |
| Toc.DottedShapeTriedFirst | knowledge/micropython/step2-convert_pdf_to_chapters.py:39-42 | The plain shape is used only when the dotted shape fits the line in no way. A line that neither shape fits yields nothing. |
| Toc.EntriesOfLines | knowledge/micropython/step2-convert_pdf_to_chapters.py:37-57 | Every record taken from lines is a level-1 subsection record. |
| Toc.ExtractToc | knowledge/micropython/step2-convert_pdf_to_chapters.py:17-59 | The page loop returns the records of the first `min(20, len)` pages, page by page and line by line. |
| Toc.AppendPageEntries | knowledge/micropython/step2-convert_pdf_to_chapters.py:27-35 | A page adds its records after the earlier ones. A page without text adds none. |
| Toc.AppendLineEntries | knowledge/micropython/step2-convert_pdf_to_chapters.py:37-57 | The line loop appends each line's record in line order. |
| Toc.EntriesOfPagesAppend | knowledge/micropython/step2-convert_pdf_to_chapters.py:26-57 | The records of two runs of pages are those of the first run followed by those of the second. |
| Toc.TocIgnoresLaterPages | knowledge/micropython/step2-convert_pdf_to_chapters.py:26 | Pages after the twentieth never change the table of contents. |
| Toc.TocProvenance | knowledge/micropython/step2-convert_pdf_to_chapters.py:26-57 | Every record comes from a page with text among the first twenty. |
| PageSearch.Window | knowledge/micropython/step2-convert_pdf_to_chapters.py:78-79 | The search range is `[max(0, toc - before), min(total, toc + after))` and lies inside the document. An empty range is returned as (0, 0). |
| PageSearch.CountContained | knowledge/micropython/step2-convert_pdf_to_chapters.py:117 | The count is the number of positions of the word list whose word occurs in the line, at most the number of words. |
| PageSearch.ScorePageForOffset | knowledge/micropython/step2-convert_pdf_to_chapters.py:91-122 | The line loop computes the page score: 50 + 50 for a numbered line followed by the title, 10 per title word on a line with the number, and 20 for the title anywhere on the page. |
| PageSearch.FirstMaxIndexSpec | knowledge/micropython/step2-convert_pdf_to_chapters.py:125-127 | A scan with `score > best` from 0 keeps the first index of the highest score. It keeps none exactly when every score is 0. |
| PageSearch.FirstMaxIndexStep | knowledge/micropython/step2-convert_pdf_to_chapters.py:125-127 | One more page replaces the best only when it scores strictly more. |
| PageSearch.ScanForOffset | knowledge/micropython/step2-convert_pdf_to_chapters.py:84-127 | The page loop ends with the highest score of the window and the first page that reached it. |
| PageSearch.AutoDetectPageOffset | knowledge/micropython/step2-convert_pdf_to_chapters.py:61-139 | It returns the offset `DetectedOffset` describes (see the next two rows). |
| PageSearch.OffsetRejected | knowledge/micropython/step2-convert_pdf_to_chapters.py:129-139 | The offset is 0 for no chapters, and when no page of `[max(0, toc-20), min(total, toc+30))` scores 30. |
| PageSearch.OffsetAccepted | knowledge/micropython/step2-convert_pdf_to_chapters.py:125-134 | Otherwise the offset is `(k + 1) - toc`, where `k` is the first page of the window with the highest score. |
| PageSearch.ApplyOffset | knowledge/micropython/step2-convert_pdf_to_chapters.py:325-327 | Every chapter's page moves by the offset, and nothing else changes. |
| PageSearch.ScorePageForLocate | knowledge/micropython/step2-convert_pdf_to_chapters.py:167-188 | The line loop computes the page score: 100 per line starting with the number and a blank, plus 50 when a title word is on that line or else on the next. |
| PageSearch.LocateScoreThreshold | knowledge/micropython/step2-convert_pdf_to_chapters.py:176-188 | A page scores at least 100 exactly when a stripped line starts with the number followed by a space or tab. |
| PageSearch.ScanForChapter | knowledge/micropython/step2-convert_pdf_to_chapters.py:165-191 | The page loop ends with the highest score of the window and the first 1-based page that reached it. |
| PageSearch.LocateChapter | knowledge/micropython/step2-convert_pdf_to_chapters.py:154-200 | One chapter gets the page `LocatedPage` describes (see the next two rows). |
| PageSearch.LocateRejected | knowledge/micropython/step2-convert_pdf_to_chapters.py:193-200 | With no page of `[max(0, toc-5), min(total, toc+15))` scoring 100, the chapter keeps its listed page. |
| PageSearch.LocateAccepted | knowledge/micropython/step2-convert_pdf_to_chapters.py:189-196 | Otherwise it is placed on `k + 1`, where `k` is the first page of the window with the highest score. |
| PageSearch.FindChapterActualPages | knowledge/micropython/step2-convert_pdf_to_chapters.py:141-203 | Every chapter gets its located `actual_page`, and nothing else changes. |
| ChapterOrder.SortChapters | knowledge/micropython/step2-convert_pdf_to_chapters.py:333 | The sort gives the result of the stable sort by `actual_page` (see the next row). |
| ChapterOrder.SortByActualPageSpec | knowledge/micropython/step2-convert_pdf_to_chapters.py:333 | The result is in non-decreasing page order and is a permutation of the input. Chapters on the same page keep their relative order. |
| ChapterOrder.InsertSortedKeepsTies | knowledge/micropython/step2-convert_pdf_to_chapters.py:333 | Inserting a chapter moves it only past chapters on strictly later pages. |
| ChapterOrder.NextLaterSpec | knowledge/micropython/step2-convert_pdf_to_chapters.py:231-236 | The search finds the first later chapter with a strictly greater page, and none exactly when no later chapter starts later. |
| ChapterOrder.FindEndPage | knowledge/micropython/step2-convert_pdf_to_chapters.py:228-236 | The search loop with `break` gives that chapter's page minus one, or the page count. |
| ChapterOrder.EndPageFromFirstOccurrence | knowledge/micropython/step2-convert_pdf_to_chapters.py:353-359 | On a sorted list, searching from the first equal chapter (`index`) gives the same end page as searching from the chapter's own position. |
| ChapterOrder.FirstIndexOf | knowledge/micropython/step2-convert_pdf_to_chapters.py:353 | `list.index` returns the first position that holds an equal chapter. |
| SplitPlan.FileNameSpec | knowledge/micropython/step2-convert_pdf_to_chapters.py:258-259 | The name is `micropython-docs`, then the number with every dot made a dash, then `.pdf`. Numbers without dashes get distinct names. |
| SplitPlan.Truncate | knowledge/micropython/step2-convert_pdf_to_chapters.py:218-219 | The kept chapters are a prefix. All chapters are kept when `max_files` is None or 0. Otherwise the length is Python's slice length. |
| SplitPlan.FilesCreatedSpec | knowledge/micropython/step2-convert_pdf_to_chapters.py:377 | The reported count is the number of chapters processed, skipped ones included, when the limit is absent or positive. For a negative limit it is that negative number. |
| SplitPlan.PdfPage | knowledge/micropython/step2-convert_pdf_to_chapters.py:255 | `reader.pages[p]` gives page `p` inside the document. A negative index down to `-total` gives page `p + total`. Any other index raises. |
| SplitPlan.ReadPagesFailurePersists | knowledge/micropython/step2-convert_pdf_to_chapters.py:253-255 | Once a page lookup raises, the copy loop does not finish. |
| SplitPlan.SplitFailurePersists | knowledge/micropython/step2-convert_pdf_to_chapters.py:224-255 | An `IndexError` ends the whole split, and no later chapter is written. |
| SplitPlan.ReadPagesSpec | knowledge/micropython/step2-convert_pdf_to_chapters.py:253-255 | Copying pages inside the document adds one existing page per index of the range. |
| SplitPlan.SplitUpToSpec | knowledge/micropython/step2-convert_pdf_to_chapters.py:224-255 | As written, the split saves at most one file per processed chapter, each non-empty and made of pages of the document, even when it stops on an `IndexError`. |
| SplitPlan.SplitPdfByChapters | knowledge/micropython/step2-convert_pdf_to_chapters.py:205-268 | The chapter loop, the end-page search and the page loop give the outcome `SplitAsWritten` describes. |
| SplitPlan.Range | knowledge/micropython/step2-convert_pdf_to_chapters.py:253 | `range(lo, hi)` lists `hi - lo` consecutive indices from `lo`. |
| SplitPlan.ChapterPlanSpec | knowledge/micropython/step2-convert_pdf_to_chapters.py:224-255 | A chapter gets a file exactly when `0 <= actual - 1 < min(end, total)`. The file holds the pages from `actual - 1` up to the clamped end, consecutively. |
| SplitPlan.PlanUpToSpec | knowledge/micropython/step2-convert_pdf_to_chapters.py:224-255 | There is at most one file per processed chapter. Every file is non-empty and holds consecutive pages inside the document. |
| SplitPlan.PlanFilesDisjoint | knowledge/micropython/step2-convert_pdf_to_chapters.py:229-236 | On a sorted list, the file of a chapter ends before the file of any chapter that starts on a later page. |
| SplitPlan.SplitAsWrittenPlansKept | knowledge/micropython/step2-convert_pdf_to_chapters.py:218-255 | When every chapter starts on page 1 or later, the split as written is the corrected plan applied to the kept chapters alone. |
| SplitPlan.SplitAsWrittenAgreesWithPlan | knowledge/micropython/step2-convert_pdf_to_chapters.py:218-255 | When every chapter starts on page 1 or later and `--max` keeps all chapters, the split as written equals the corrected plan. |
| SplitPlan.StartBeforeFirstPageWraps | knowledge/micropython/step2-convert_pdf_to_chapters.py:226 | Finding 1: a chapter on page 0 gets the last page of the document first. |
| SplitPlan.LimitCutsLastChapterShort | knowledge/micropython/step2-convert_pdf_to_chapters.py:218-236 | Finding 2: with `--max`, the last kept chapter runs to the end of the document. |
| Preview.ShowChapters | knowledge/micropython/step2-convert_pdf_to_chapters.py:345-365 | The display loop gives one row per displayed chapter, as `PreviewRows` describes. |
| Preview.PreviewRowsSpec | knowledge/micropython/step2-convert_pdf_to_chapters.py:345-365 | A row shows the chapter's number, title and file name, its page, the end page of its position among all chapters, and `end - start + 1` pages. The limit changes only how many rows there are. |
| Preview.PreviewMatchesPlan | knowledge/micropython/step2-convert_pdf_to_chapters.py:349-361 | On a sorted list, a displayed chapter gets a file in the corrected plan exactly when its range is in the document and non-empty. That file then has the row's name, first page and (clamped) last page. |
| Pipeline.PlanChapterFiles | knowledge/micropython/step2-convert_pdf_to_chapters.py:315-377 | `main` gives nothing without a table of contents. Otherwise it runs offset, location and sort, then the preview or the split as written. An `IndexError` from the split ends the run with no count reported. |
| Pipeline.ShiftedToc | knowledge/micropython/step2-convert_pdf_to_chapters.py:324-327 | Every record's page moves by the detected offset, and nothing else changes. An offset of 0, which `main` skips, changes nothing. |
| Pipeline.LocatedChaptersSpec | knowledge/micropython/step2-convert_pdf_to_chapters.py:322-333 | The chapters are a permutation of the shifted records, each given its located page. They are sorted by that page, and records on the same page keep their table-of-contents order. |
| Pipeline.ExtractedSpec | knowledge/micropython/step2-convert_pdf_to_chapters.py:318-377 | The run stops early exactly when there is no table of contents. The split saves at most one file per kept chapter, each a non-empty list of existing pages, whether it finishes or raises. A count is reported only when the split finishes: `min(len, max_files)`, and for no limit or a positive one at least the number of files saved. When every chapter starts on page 1 or later, the split finishes with the corrected plan of the kept chapters, and without `--max` with the corrected plan the preview shows. |
| Pipeline.PreviewedSpec | knowledge/micropython/step2-convert_pdf_to_chapters.py:345-365 | The preview lists every chapter without a limit, and each row agrees with the corrected plan's file for its chapter. |

## Left out

- Reading the PDF is not modelled: `pdfplumber.open`, `extract_text`, `PdfReader` and `PdfWriter`. The document is its list of page texts. A written file is its name and the list of page indices copied into it.
- Writing files and creating the `chapters` directory are not modelled.
- Every `print` and the report text are left out. Only the numbers they show are modelled: the preview rows and the file count.
- `argparse`, the check that the input path exists, and its usage message are left out.
- Python's `str.lower` is an uninterpreted function. Unicode whitespace beyond ASCII (plus 0x1C-0x1F) is not modelled.
- Non-ASCII decimal digits are not modelled. Python's `\d` and `int()` accept every Unicode decimal digit, but the model accepts only '0' to '9'.
- Regular expressions are modelled only for the two patterns used, by a hand-written parser. `re.match` on a string with several newlines is modelled for these patterns: the title cannot cross a newline, and `$` accepts one final newline.
- PyPDF2's negative page index is assumed to follow Python's list rule (`-1` is the last page). The PyPDF2 source is not part of this model.
- The dictionaries are mutated in place in the source. Here each chapter is a value, and the list is rebuilt by a loop. No other code holds the dictionaries, so the aliasing is not observable.
- `list.sort` is Timsort in the source. The model sorts by insertion, and `SortByActualPageSpec` proves the properties that fix a stable sort's result.
- `ui-rag-explorer/rag-explorer-app.py` is a web UI over HTTP calls to a search server, and it is not modelled. That server is not part of this model.
- `knowledge/_convert/convert_dir_to_md.py` wraps foreign document converters, with timing and file writes, and it is not modelled.

## Findings

| source | as written | input that shows it | evidently intended | confidence | as-written member | corrected member |
|---|---|---|---|---|---|---|
| knowledge/micropython/step2-convert_pdf_to_chapters.py:226 | `start_page = actual_page - 1` is used without a lower bound. A chapter located on page 0 gets index -1, and PyPDF2 reads that as the last page. | Ten pages, with chapter 1.1 on page 0 and chapter 1.2 on page 3. File 1.1 gets pages 9, 0, 1. | Skip a chapter that starts before the first page, as one past the last page is skipped. | not executed | SplitPlan.StartBeforeFirstPageWraps | SplitPlan.PlanFiles |
| knowledge/micropython/step2-convert_pdf_to_chapters.py:218-236 | The chapters are cut to `--max` before end pages are searched. The last kept chapter finds no later chapter and runs to the end of the document. | Ten pages, chapters 1.1 on page 1 and 1.2 on page 5, and `--max 1`. File 1.1 gets all ten pages, while the preview shows pages 1 to 4. | Search the end page among all chapters, as the preview does (lines 351-359). | not executed | SplitPlan.LimitCutsLastChapterShort | SplitPlan.PlanFiles |
