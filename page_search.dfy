/** `auto_detect_page_offset` and `find_chapter_actual_pages`: both score the
    pages of a window around a chapter's table-of-contents page and take the
    first page with the highest score, accepting it only above a threshold.
    `lower` is Python's `str.lower`, left uninterpreted. */
module PageSearch {
  import opened Strings
  import opened Toc

  /** `range(max(0, toc - before), min(total, toc + after))` as a pair of
      bounds; an empty range is returned as `(0, 0)`. */
  function Window(toc: int, before: nat, after: nat, total: nat): (w: (nat, nat))
    ensures w.0 <= w.1 <= total
    ensures w.0 < w.1 <==> Max(0, toc - before) < Min(total, toc + after)
    ensures w.0 < w.1 ==> w.0 == Max(0, toc - before) && w.1 == Min(total, toc + after)
  {
    var lo := Max(0, toc - before);
    var hi := Min(total, toc + after);
    if lo < hi then (lo, hi) else (0, 0)
  }

  /** `line.startswith(number + ' ') or line.startswith(number + '\t')`. */
  predicate StartsWithNumber(line: string, number: string) {
    number + " " <= line || number + "\t" <= line
  }

  /** Some stripped line of the page starts with the chapter number and a blank. */
  predicate HasNumberedLine(text: string, number: string) {
    var lines := Split(text, '\n');
    exists i :: 0 <= i < |lines| && StartsWithNumber(Strip(lines[i]), number)
  }

  /** `sum(1 for word in words if word in hay)`. */
  function CountContained(words: seq<string>, hay: string): (n: nat)
    ensures n == |set q | 0 <= q < |words| && Contains(hay, words[q])|
    ensures n <= |words|
  {
    if words == [] then 0
    else
      ContainedOfLast(words, hay);
      CountContained(words[..|words| - 1], hay) + (if Contains(hay, words[|words| - 1]) then 1 else 0)
  }

  lemma ContainedOfLast(words: seq<string>, hay: string)
    requires words != []
    ensures var init := words[..|words| - 1];
      (set q | 0 <= q < |words| && Contains(hay, words[q])) ==
      (set q | 0 <= q < |init| && Contains(hay, init[q])) + (if Contains(hay, words[|words| - 1]) then {|words| - 1} else {})
  {
  }

  /** `any(word in hay for word in words)`. */
  function AnyContained(words: seq<string>, hay: string): bool {
    if words == [] then false
    else Contains(hay, words[0]) || AnyContained(words[1..], hay)
  }

  // ------------------------------------------------------------ offset score

  /** What line `i` adds to a page's score in `auto_detect_page_offset`:
      50 for a line starting with the number, 50 more when the next line holds
      the first 30 characters of the title, and 10 per title word (of the
      first five) on a line that holds the number. */
  function OffsetLineScore(lower: string -> string, lines: seq<string>, i: nat, number: string, titleClean: string): nat
    requires i < |lines|
  {
    var line := Strip(lines[i]);
    var head :=
      if StartsWithNumber(line, number) then
        50 + (if i + 1 < |lines| && Contains(lower(Strip(lines[i + 1])), lower(Take(titleClean, 30))) then 50 else 0)
      else 0;
    var words :=
      if Contains(line, number) then 10 * CountContained(Take(Words(lower(titleClean)), 5), lower(line))
      else 0;
    head + words
  }

  function SumOffsetLines(lower: string -> string, lines: seq<string>, n: nat, number: string, titleClean: string): nat
    requires n <= |lines|
  {
    if n == 0 then 0
    else SumOffsetLines(lower, lines, n - 1, number, titleClean) + OffsetLineScore(lower, lines, n - 1, number, titleClean)
  }

  /** The score of one page in `auto_detect_page_offset`; a page without text
      is skipped, which counts as 0. */
  function OffsetScore(lower: string -> string, text: string, number: string, title: string): nat {
    if text == "" then 0
    else
      var lines := Split(text, '\n');
      var titleClean := Normalize(title);
      SumOffsetLines(lower, lines, |lines|, number, titleClean)
      + (if Contains(lower(Normalize(text)), lower(Take(titleClean, 20))) then 20 else 0)
  }

  /** The line loop of `auto_detect_page_offset` for one page with text. */
  method ScorePageForOffset(lower: string -> string, text: string, number: string, title: string) returns (score: nat)
    requires text != ""
    ensures score == OffsetScore(lower, text, number, title)
  {
    hide Strip, Contains, Words, Normalize, CountContained, Take, Split;
    var textClean := Normalize(text);
    var titleClean := Normalize(title);
    score := 0;
    var lines := Split(text, '\n');
    for i := 0 to |lines|
      invariant score == SumOffsetLines(lower, lines, i, number, titleClean)
    {
      var line := Strip(lines[i]);
      if StartsWithNumber(line, number) {
        score := score + 50;
        if i + 1 < |lines| {
          var nextLine := Strip(lines[i + 1]);
          if Contains(lower(nextLine), lower(Take(titleClean, 30))) {
            score := score + 50;
          }
        }
      }
      if Contains(line, number) {
        var titleWords := Take(Words(lower(titleClean)), 5);
        var matching := CountContained(titleWords, lower(line));
        score := score + matching * 10;
      }
    }
    if Contains(lower(textClean), lower(Take(titleClean, 20))) {
      score := score + 20;
    }
  }

  // ------------------------------------------------------------ locate score

  /** What line `i` adds to a page's score in `find_chapter_actual_pages`:
      100 for a line starting with the number, 50 more when one of the first
      three title words is on that line or else on the next one. */
  function LocateLineScore(lower: string -> string, lines: seq<string>, i: nat, number: string, title: string): nat
    requires i < |lines|
  {
    var line := Strip(lines[i]);
    if StartsWithNumber(line, number) then
      var titleWords := Take(Words(lower(title)), 3);
      100 + (if AnyContained(titleWords, lower(line)) then 50
             else if i + 1 < |lines| && AnyContained(titleWords, lower(Strip(lines[i + 1]))) then 50
             else 0)
    else 0
  }

  function SumLocateLines(lower: string -> string, lines: seq<string>, n: nat, number: string, title: string): nat
    requires n <= |lines|
  {
    if n == 0 then 0
    else SumLocateLines(lower, lines, n - 1, number, title) + LocateLineScore(lower, lines, n - 1, number, title)
  }

  /** The score of one page in `find_chapter_actual_pages` (0 without text). */
  function LocateScore(lower: string -> string, text: string, number: string, title: string): nat {
    if text == "" then 0
    else
      var lines := Split(text, '\n');
      SumLocateLines(lower, lines, |lines|, number, title)
  }

  /** The line loop of `find_chapter_actual_pages` for one page with text. */
  method ScorePageForLocate(lower: string -> string, text: string, number: string, title: string) returns (score: nat)
    requires text != ""
    ensures score == LocateScore(lower, text, number, title)
  {
    hide Strip, Words, AnyContained, Take, Split;
    var lines := Split(text, '\n');
    score := 0;
    for i := 0 to |lines|
      invariant score == SumLocateLines(lower, lines, i, number, title)
    {
      var lineStripped := Strip(lines[i]);
      if StartsWithNumber(lineStripped, number) {
        score := score + 100;
        var titleWords := Take(Words(lower(title)), 3);
        if AnyContained(titleWords, lower(lineStripped)) {
          score := score + 50;
        } else if i + 1 < |lines| {
          var nextLine := lower(Strip(lines[i + 1]));
          if AnyContained(titleWords, nextLine) {
            score := score + 50;
          }
        }
      }
    }
  }

  // ------------------------------------------------------------ best page

  /** The page a scan keeps with `if score > best_score` from `best_score = 0`
      (see `FirstMaxIndexSpec`). */
  function FirstMaxIndex(scores: seq<nat>): (r: Option<nat>)
    ensures r.Some? ==> r.value < |scores|
  {
    if scores == [] then None
    else
      var init := scores[..|scores| - 1];
      var prev := FirstMaxIndex(init);
      var best := if prev.Some? then init[prev.value] else 0;
      if scores[|scores| - 1] > best then Some(|scores| - 1) else prev
  }

  /** The scan keeps the first index of the highest score, and none when
      every score is 0. */
  lemma {:induction false} FirstMaxIndexSpec(scores: seq<nat>)
    ensures FirstMaxIndex(scores).None? <==> forall q :: 0 <= q < |scores| ==> scores[q] == 0
    ensures FirstMaxIndex(scores).Some? ==> scores[FirstMaxIndex(scores).value] > 0
    ensures FirstMaxIndex(scores).Some? ==> forall q :: 0 <= q < |scores| ==> scores[q] <= scores[FirstMaxIndex(scores).value]
    ensures FirstMaxIndex(scores).Some? ==> forall q :: 0 <= q < FirstMaxIndex(scores).value ==> scores[q] < scores[FirstMaxIndex(scores).value]
  {
    if scores != [] {
      var init := scores[..|scores| - 1];
      FirstMaxIndexSpec(init);
      assert forall q :: 0 <= q < |init| ==> init[q] == scores[q];
    }
  }

  /** The score of the page `FirstMaxIndex` picks, 0 when it picks none. */
  function BestScore(scores: seq<nat>): nat {
    match FirstMaxIndex(scores)
    case Some(j) => scores[j]
    case None => 0
  }

  /** One more page seen by the scan: it becomes the best only when it
      scores strictly more than the best so far. */
  lemma FirstMaxIndexStep(scores: seq<nat>, x: nat)
    ensures FirstMaxIndex(scores + [x]) == if x > BestScore(scores) then Some(|scores|) else FirstMaxIndex(scores)
    ensures BestScore(scores + [x]) == if x > BestScore(scores) then x else BestScore(scores)
  {
    assert (scores + [x])[..|scores|] == scores;
  }

  /** An index of the window as a page index. */
  function Shift(r: Option<nat>, base: nat): Option<nat> {
    if r.Some? then Some(base + r.value) else None
  }

  /** One step of a scan that keeps `bestPage = base + index` and
      `bestScore` for the scores seen so far: page `page` with score `x`
      replaces them exactly when `x > bestScore`. */
  lemma ScanStep(seen: seq<nat>, x: nat, bestScore: nat, bestPage: Option<nat>, base: nat, page: nat)
    requires bestScore == BestScore(seen) && bestPage == Shift(FirstMaxIndex(seen), base)
    requires page == base + |seen|
    ensures x > bestScore ==> x == BestScore(seen + [x]) && Some(page) == Shift(FirstMaxIndex(seen + [x]), base)
    ensures x <= bestScore ==> bestScore == BestScore(seen + [x]) && bestPage == Shift(FirstMaxIndex(seen + [x]), base)
  {
    FirstMaxIndexStep(seen, x);
  }

  /** The scan picks index `j` when `j` holds a positive highest score that no
      earlier index reaches. */
  lemma FirstMaxIndexIs(scores: seq<nat>, j: nat)
    requires j < |scores| && scores[j] > 0
    requires forall q :: 0 <= q < |scores| ==> scores[q] <= scores[j]
    requires forall q :: 0 <= q < j ==> scores[q] < scores[j]
    ensures FirstMaxIndex(scores) == Some(j) && BestScore(scores) == scores[j]
  {
    FirstMaxIndexSpec(scores);
  }

  /** When every score is below `t`, so is the best one. */
  lemma BestScoreBelow(scores: seq<nat>, t: nat)
    requires t > 0 && forall q :: 0 <= q < |scores| ==> scores[q] < t
    ensures BestScore(scores) < t
  {
    FirstMaxIndexSpec(scores);
  }

  // ------------------------------------------------------------ page offset

  /** The offset scores of the `n` pages from `lo` on. */
  function OffsetScores(lower: string -> string, pages: seq<string>, lo: nat, n: nat, c: Chapter): (r: seq<nat>)
    requires lo + n <= |pages|
    ensures |r| == n
  {
    if n == 0 then []
    else OffsetScores(lower, pages, lo, n - 1, c) + [OffsetScore(lower, pages[lo + n - 1], c.number, c.title)]
  }

  lemma {:induction false} OffsetScoresAt(lower: string -> string, pages: seq<string>, lo: nat, n: nat, c: Chapter, j: nat)
    requires lo + n <= |pages| && j < n
    ensures OffsetScores(lower, pages, lo, n, c)[j] == OffsetScore(lower, pages[lo + j], c.number, c.title)
  {
    if j < n - 1 {
      OffsetScoresAt(lower, pages, lo, n - 1, c, j);
    }
  }

  /** Score a page must reach to fix the offset. */
  const OffsetThreshold: nat := 30

  /** The offset `auto_detect_page_offset` returns. */
  function DetectedOffset(lower: string -> string, pages: seq<string>, chapters: seq<Chapter>): int {
    if chapters == [] then 0
    else
      var c := chapters[0];
      var w := Window(c.page, 20, 30, |pages|);
      var scores := OffsetScores(lower, pages, w.0, w.1 - w.0, c);
      var best := FirstMaxIndex(scores);
      if best.Some? && BestScore(scores) >= OffsetThreshold then (w.0 + best.value + 1) - c.page else 0
  }

  /** The page loop of `auto_detect_page_offset`: the best score over pages
      `lo..hi` and the (0-based) page it was first reached on. */
  method ScanForOffset(lower: string -> string, pages: seq<string>, first: Chapter, lo: nat, hi: nat)
    returns (bestMatchPage: Option<nat>, bestMatchScore: nat)
    requires lo <= hi <= |pages|
    ensures bestMatchScore == BestScore(OffsetScores(lower, pages, lo, hi - lo, first))
    ensures bestMatchPage == Shift(FirstMaxIndex(OffsetScores(lower, pages, lo, hi - lo, first)), lo)
  {
    ghost var seen: seq<nat> := [];
    bestMatchPage := None;
    bestMatchScore := 0;
    assert FirstMaxIndex(seen) == None;
    hide FirstMaxIndex, BestScore;
    for actualPageIndex := lo to hi
      invariant seen == OffsetScores(lower, pages, lo, actualPageIndex - lo, first)
      invariant bestMatchScore == BestScore(seen)
      invariant bestMatchPage == Shift(FirstMaxIndex(seen), lo)
    {
      var text := pages[actualPageIndex];
      ghost var score' := OffsetScore(lower, text, first.number, first.title);
      assert OffsetScores(lower, pages, lo, actualPageIndex + 1 - lo, first) == seen + [score'];
      ScanStep(seen, score', bestMatchScore, bestMatchPage, lo, actualPageIndex);
      seen := seen + [score'];
      if text != "" {
        var score := ScorePageForOffset(lower, text, first.number, first.title);
        if score > bestMatchScore {
          bestMatchScore := score;
          bestMatchPage := Some(actualPageIndex);
        }
      }
    }
  }

  /** `auto_detect_page_offset`: the offset that moves the first chapter's
      table-of-contents page onto the best page of the window, or 0. */
  method AutoDetectPageOffset(lower: string -> string, pages: seq<string>, chapters: seq<Chapter>) returns (offset: int)
    ensures offset == DetectedOffset(lower, pages, chapters)
  {
    hide OffsetScores, FirstMaxIndex, BestScore;
    if chapters == [] {
      return 0;
    }
    var first := chapters[0];
    var tocPage := first.page;
    var w := Window(tocPage, 20, 30, |pages|);
    var bestMatchPage, bestMatchScore := ScanForOffset(lower, pages, first, w.0, w.1);
    if bestMatchPage.Some? && bestMatchScore >= OffsetThreshold {
      var actualPage := bestMatchPage.value + 1;
      return actualPage - tocPage;
    }
    return 0;
  }

  /** No offset is detected for an empty chapter list, nor when no page of
      `[max(0, toc - 20), min(total, toc + 30))` scores at least 30. */
  lemma OffsetRejected(lower: string -> string, pages: seq<string>, chapters: seq<Chapter>)
    requires chapters != [] ==>
      forall k :: Max(0, chapters[0].page - 20) <= k < Min(|pages|, chapters[0].page + 30) ==>
        OffsetScore(lower, pages[k], chapters[0].number, chapters[0].title) < OffsetThreshold
    ensures DetectedOffset(lower, pages, chapters) == 0
  {
    hide OffsetScore, OffsetScores, FirstMaxIndex, BestScore;
    if chapters != [] {
      var c := chapters[0];
      var w := Window(c.page, 20, 30, |pages|);
      var scores := OffsetScores(lower, pages, w.0, w.1 - w.0, c);
      forall q | 0 <= q < |scores| ensures scores[q] < OffsetThreshold {
        OffsetScoresAt(lower, pages, w.0, w.1 - w.0, c, q);
      }
      BestScoreBelow(scores, OffsetThreshold);
    }
  }

  /** Otherwise the offset moves the first chapter's listed page onto the
      first page of the window with the highest score (1-based). */
  lemma OffsetAccepted(lower: string -> string, pages: seq<string>, chapters: seq<Chapter>, k: nat)
    requires chapters != []
    requires Max(0, chapters[0].page - 20) <= k < Min(|pages|, chapters[0].page + 30)
    requires OffsetScore(lower, pages[k], chapters[0].number, chapters[0].title) >= OffsetThreshold
    requires forall q :: Max(0, chapters[0].page - 20) <= q < Min(|pages|, chapters[0].page + 30) ==>
      OffsetScore(lower, pages[q], chapters[0].number, chapters[0].title) <= OffsetScore(lower, pages[k], chapters[0].number, chapters[0].title)
    requires forall q :: Max(0, chapters[0].page - 20) <= q < k ==>
      OffsetScore(lower, pages[q], chapters[0].number, chapters[0].title) < OffsetScore(lower, pages[k], chapters[0].number, chapters[0].title)
    ensures DetectedOffset(lower, pages, chapters) == (k + 1) - chapters[0].page
  {
    hide OffsetScore, OffsetScores, FirstMaxIndex, BestScore;
    var c := chapters[0];
    var w := Window(c.page, 20, 30, |pages|);
    var scores := OffsetScores(lower, pages, w.0, w.1 - w.0, c);
    var j := k - w.0;
    forall q | 0 <= q < |scores| ensures scores[q] == OffsetScore(lower, pages[w.0 + q], c.number, c.title) {
      OffsetScoresAt(lower, pages, w.0, w.1 - w.0, c, q);
    }
    FirstMaxIndexIs(scores, j);
  }

  /** Every chapter with `offset` added to its page and nothing else changed. */
  function OffsetApplied(chapters: seq<Chapter>, offset: int): (r: seq<Chapter>)
    ensures |r| == |chapters|
    ensures forall i :: 0 <= i < |chapters| ==> r[i] == chapters[i].(page := chapters[i].page + offset)
  {
    seq(|chapters|, i requires 0 <= i < |chapters| => chapters[i].(page := chapters[i].page + offset))
  }

  /** Adding the offset to every chapter's page (`chapter['page'] += offset`). */
  method ApplyOffset(chapters: seq<Chapter>, offset: int) returns (result: seq<Chapter>)
    ensures result == OffsetApplied(chapters, offset)
  {
    result := chapters;
    for i := 0 to |chapters|
      invariant |result| == |chapters|
      invariant forall k :: 0 <= k < i ==> result[k] == chapters[k].(page := chapters[k].page + offset)
      invariant forall k :: i <= k < |chapters| ==> result[k] == chapters[k]
    {
      result := result[i := result[i].(page := result[i].page + offset)];
    }
  }

  // ------------------------------------------------------------ actual pages

  /** The locate scores of the `n` pages from `lo` on. */
  function LocateScores(lower: string -> string, pages: seq<string>, lo: nat, n: nat, c: Chapter): (r: seq<nat>)
    requires lo + n <= |pages|
    ensures |r| == n
  {
    if n == 0 then []
    else LocateScores(lower, pages, lo, n - 1, c) + [LocateScore(lower, pages[lo + n - 1], c.number, c.title)]
  }

  lemma {:induction false} LocateScoresAt(lower: string -> string, pages: seq<string>, lo: nat, n: nat, c: Chapter, j: nat)
    requires lo + n <= |pages| && j < n
    ensures LocateScores(lower, pages, lo, n, c)[j] == LocateScore(lower, pages[lo + j], c.number, c.title)
  {
    if j < n - 1 {
      LocateScoresAt(lower, pages, lo, n - 1, c, j);
    }
  }

  /** Score a page must reach to be taken as the chapter's start. */
  const LocateThreshold: nat := 100

  /** The `actual_page` (1-based) `find_chapter_actual_pages` gives a chapter. */
  function LocatedPage(lower: string -> string, pages: seq<string>, c: Chapter): int {
    var w := Window(c.page, 5, 15, |pages|);
    var scores := LocateScores(lower, pages, w.0, w.1 - w.0, c);
    var best := FirstMaxIndex(scores);
    if best.Some? && BestScore(scores) >= LocateThreshold then w.0 + best.value + 1 else c.page
  }

  /** The page loop of `find_chapter_actual_pages` for one chapter: the best
      score over pages `lo..hi` and the 1-based page it was first reached on. */
  method ScanForChapter(lower: string -> string, pages: seq<string>, c: Chapter, lo: nat, hi: nat)
    returns (bestMatchPage: Option<nat>, bestMatchScore: nat)
    requires lo <= hi <= |pages|
    ensures bestMatchScore == BestScore(LocateScores(lower, pages, lo, hi - lo, c))
    ensures bestMatchPage == Shift(FirstMaxIndex(LocateScores(lower, pages, lo, hi - lo, c)), lo + 1)
  {
    ghost var seen: seq<nat> := [];
    bestMatchPage := None;
    bestMatchScore := 0;
    assert FirstMaxIndex(seen) == None;
    hide FirstMaxIndex, BestScore;
    for pageIndex := lo to hi
      invariant seen == LocateScores(lower, pages, lo, pageIndex - lo, c)
      invariant bestMatchScore == BestScore(seen)
      invariant bestMatchPage == Shift(FirstMaxIndex(seen), lo + 1)
    {
      var text := pages[pageIndex];
      ghost var score' := LocateScore(lower, text, c.number, c.title);
      assert LocateScores(lower, pages, lo, pageIndex + 1 - lo, c) == seen + [score'];
      ScanStep(seen, score', bestMatchScore, bestMatchPage, lo + 1, pageIndex + 1);
      seen := seen + [score'];
      if text != "" {
        var score := ScorePageForLocate(lower, text, c.number, c.title);
        if score > bestMatchScore {
          bestMatchScore := score;
          bestMatchPage := Some(pageIndex + 1);
        }
      }
    }
  }

  /** A chapter keeps its listed page when no page of
      `[max(0, toc - 5), min(total, toc + 15))` scores at least 100. */
  lemma LocateRejected(lower: string -> string, pages: seq<string>, c: Chapter)
    requires forall k :: Max(0, c.page - 5) <= k < Min(|pages|, c.page + 15) ==>
      LocateScore(lower, pages[k], c.number, c.title) < LocateThreshold
    ensures LocatedPage(lower, pages, c) == c.page
  {
    hide LocateScore, LocateScores, FirstMaxIndex, BestScore;
    var w := Window(c.page, 5, 15, |pages|);
    var scores := LocateScores(lower, pages, w.0, w.1 - w.0, c);
    forall q | 0 <= q < |scores| ensures scores[q] < LocateThreshold {
      LocateScoresAt(lower, pages, w.0, w.1 - w.0, c, q);
    }
    BestScoreBelow(scores, LocateThreshold);
  }

  /** Otherwise it is placed on the first page of the window with the highest
      score (1-based). */
  lemma LocateAccepted(lower: string -> string, pages: seq<string>, c: Chapter, k: nat)
    requires Max(0, c.page - 5) <= k < Min(|pages|, c.page + 15)
    requires LocateScore(lower, pages[k], c.number, c.title) >= LocateThreshold
    requires forall q :: Max(0, c.page - 5) <= q < Min(|pages|, c.page + 15) ==>
      LocateScore(lower, pages[q], c.number, c.title) <= LocateScore(lower, pages[k], c.number, c.title)
    requires forall q :: Max(0, c.page - 5) <= q < k ==>
      LocateScore(lower, pages[q], c.number, c.title) < LocateScore(lower, pages[k], c.number, c.title)
    ensures LocatedPage(lower, pages, c) == k + 1
  {
    hide LocateScore, LocateScores, FirstMaxIndex, BestScore;
    var w := Window(c.page, 5, 15, |pages|);
    var scores := LocateScores(lower, pages, w.0, w.1 - w.0, c);
    forall q | 0 <= q < |scores| ensures scores[q] == LocateScore(lower, pages[w.0 + q], c.number, c.title) {
      LocateScoresAt(lower, pages, w.0, w.1 - w.0, c, q);
    }
    FirstMaxIndexIs(scores, k - w.0);
  }

  /** Every line scores 0 or at least 100, so a page reaches 100 exactly when
      one of its stripped lines starts with the chapter number and a blank. */
  lemma LocateScoreThreshold(lower: string -> string, text: string, number: string, title: string)
    ensures LocateScore(lower, text, number, title) >= LocateThreshold <==> HasNumberedLine(text, number)
  {
    var lines := Split(text, '\n');
    SumLocateLinesThreshold(lower, lines, |lines|, number, title);
    if text == "" {
      assert lines == [""];
      assert !StartsWithNumber(Strip(""), number);
    }
  }

  lemma {:induction false} SumLocateLinesThreshold(lower: string -> string, lines: seq<string>, n: nat, number: string, title: string)
    requires n <= |lines|
    ensures SumLocateLines(lower, lines, n, number, title) >= LocateThreshold <==>
      exists i :: 0 <= i < n && StartsWithNumber(Strip(lines[i]), number)
  {
    if n > 0 {
      SumLocateLinesThreshold(lower, lines, n - 1, number, title);
    }
  }

  /** One chapter of `find_chapter_actual_pages`: the best page of the window
      when it scores at least 100, the table-of-contents page otherwise. */
  method LocateChapter(lower: string -> string, pages: seq<string>, c: Chapter) returns (actualPage: int)
    ensures actualPage == LocatedPage(lower, pages, c)
  {
    hide LocateScores, FirstMaxIndex, BestScore;
    var tocPage := c.page;
    var w := Window(tocPage, 5, 15, |pages|);
    var bestMatchPage, bestMatchScore := ScanForChapter(lower, pages, c, w.0, w.1);
    if bestMatchPage.Some? && bestMatchScore >= LocateThreshold {
      actualPage := bestMatchPage.value;
    } else {
      actualPage := tocPage;
    }
  }

  /** Every chapter with its located `actual_page` set and nothing else changed. */
  function WithActualPages(lower: string -> string, pages: seq<string>, chapters: seq<Chapter>): (r: seq<Chapter>)
    ensures |r| == |chapters|
    ensures forall i :: 0 <= i < |chapters| ==>
      r[i] == chapters[i].(actualPage := Some(LocatedPage(lower, pages, chapters[i])))
  {
    seq(|chapters|, i requires 0 <= i < |chapters| => chapters[i].(actualPage := Some(LocatedPage(lower, pages, chapters[i]))))
  }

  /** `find_chapter_actual_pages`: every chapter gets its `actual_page`, and
      nothing else about it changes. */
  method FindChapterActualPages(lower: string -> string, pages: seq<string>, chapters: seq<Chapter>)
    returns (result: seq<Chapter>)
    ensures result == WithActualPages(lower, pages, chapters)
  {
    result := chapters;
    for i := 0 to |chapters|
      invariant |result| == |chapters|
      invariant forall k :: 0 <= k < i ==> result[k] == chapters[k].(actualPage := Some(LocatedPage(lower, pages, chapters[k])))
      invariant forall k :: i <= k < |chapters| ==> result[k] == chapters[k]
    {
      var actualPage := LocateChapter(lower, pages, result[i]);
      result := result[i := result[i].(actualPage := Some(actualPage))];
    }
  }
}
