/** The two table-of-contents line shapes of `extract_toc_from_pdf`, matched the
    way Python's `re.match` does it, without a regular-expression engine.

      Dotted:  ^(\d+(?:\.\d+)?)\s+(.+?)\s+\.{2,}\s*(\d+)     "1.1 Getting started .... 10"
      Plain:   ^(\d+(?:\.\d+)?)\s+(.+?)\s+(\d+)$            "1.1 Getting started 10"

    A match is reported by the spans of its three groups.  Backtracking picks,
    among all ways the pattern fits the line, the one with the longest first
    `\s+` and, for that, the shortest lazy title; the number group and every
    part after the title are greedy runs that leave only one choice each.
    `MatchLineIsFirstMatch` proves that `MatchLine` returns exactly that match. */
module TocLine {
  import opened Strings

  datatype Shape = Dotted | Plain

  /** Group 1 is `line[..numEnd]`, group 2 is `line[titleStart..titleEnd]`,
      group 3 is `line[pageStart..pageEnd]`. */
  datatype LineMatch = LineMatch(numEnd: nat, titleStart: nat, titleEnd: nat, pageStart: nat, pageEnd: nat)

  /** `line[..k]` is `\d+(?:\.\d+)?`: digits, then optionally a dot and digits. */
  ghost predicate NumberPrefix(line: string, k: nat) {
    0 < k <= |line| &&
    exists d :: 0 < d <= k && AllIn(line, 0, d, Digit) &&
      (d == k || (line[d] == '.' && d + 1 < k && AllIn(line, d + 1, k, Digit)))
  }

  /** The three groups lie in order inside the line, and the page group is
      made of digits. */
  predicate SpansOk(line: string, m: LineMatch) {
    m.numEnd < m.titleStart < m.titleEnd < m.pageStart < m.pageEnd <= |line|
    && AllIn(line, m.pageStart, m.pageEnd, Digit)
  }

  /** `int(match.group(3))`: the page number the third group spells. */
  function PageOf(line: string, m: LineMatch): nat
    requires SpansOk(line, m)
  {
    var digits := line[m.pageStart..m.pageEnd];
    assert forall i :: 0 <= i < |digits| ==> digits[i] == line[m.pageStart + i];
    ParseInt(digits)
  }

  /** `.` of the lazy title group: any character but a newline, at least one. */
  predicate TitleOk(line: string, s: nat, e: nat) {
    s < e <= |line| && forall i :: s <= i < e ==> line[i] != '\n'
  }

  /** Where the greedy number group ends, if the line starts with a digit. */
  function NumberEnd(line: string): (r: Option<nat>)
    ensures r.Some? ==> NumberPrefix(line, r.value)
    ensures r.None? ==> line == [] || !IsDigit(line[0])
  {
    var d := Span(line, 0, Digit);
    if d == 0 then None
    else if d < |line| && line[d] == '.' && Span(line, d + 1, Digit) > d + 1 then
      Some(Span(line, d + 1, Digit))
    else Some(d)
  }

  /** The number group cannot stop anywhere but at the end of the greedy run:
      every shorter choice is followed by a digit or a dot, which `\s+` refuses. */
  lemma NumberIsGreedy(line: string, k: nat)
    requires NumberPrefix(line, k) && k < |line| && IsSpace(line[k])
    ensures NumberEnd(line) == Some(k)
  {
    var d :| 0 < d <= k && AllIn(line, 0, d, Digit) &&
      (d == k || (line[d] == '.' && d + 1 < k && AllIn(line, d + 1, k, Digit)));
    SpanIsMaximalRun(line, 0, d, Digit);
    if d < k {
      SpanIsMaximalRun(line, d + 1, k, Digit);
    }
  }

  /** What follows the title, tried at index `e`; on success, the span of the
      page-number group.  Dotted: `\s+\.{2,}\s*(\d+)`; Plain: `\s+(\d+)$`, where
      `$` also accepts a single newline that ends the string. */
  function RestAt(shape: Shape, line: string, e: nat): (r: Option<(nat, nat)>)
    requires e <= |line|
    ensures r.Some? ==> e < r.value.0 < r.value.1 <= |line|
    ensures r.Some? ==> AllIn(line, r.value.0, r.value.1, Digit)
    ensures r.Some? ==> r.value.1 < |line| ==> !IsDigit(line[r.value.1])
    ensures r.Some? ==> IsSpace(line[e])
  {
    var w1 := Span(line, e, Space);
    if w1 == e then None
    else
      match shape
      case Dotted =>
        var d := Span(line, w1, Dot);
        if d < w1 + 2 then None
        else
          var w2 := Span(line, d, Space);
          var p := Span(line, w2, Digit);
          if p == w2 then None else Some((w2, p))
      case Plain =>
        var p := Span(line, w1, Digit);
        if p == w1 || !(p == |line| || (p + 1 == |line| && line[p] == '\n')) then None
        else Some((w1, p))
  }

  /** What follows the title fits from index `e`, in some way: Dotted
      `\s+` over `[e, a)`, `\.{2,}` over `[a, b)`, `\s*` over `[b, c)` and
      `(\d+)` over `[c, p)`; Plain `\s+` over `[e, a)` and `(\d+)` over
      `[a, p)`, then the end of the line or a final newline. */
  ghost predicate TailFits(shape: Shape, line: string, e: nat) {
    match shape
    case Dotted =>
      exists a, b, c, p :: e < a && a + 2 <= b <= c < p <= |line| &&
        AllIn(line, e, a, Space) && AllIn(line, a, b, Dot) && AllIn(line, b, c, Space) && AllIn(line, c, p, Digit)
    case Plain =>
      exists a, p :: e < a < p <= |line| &&
        AllIn(line, e, a, Space) && AllIn(line, a, p, Digit) && (p == |line| || (p + 1 == |line| && line[p] == '\n'))
  }

  /** A run of class `k` from `i` to `j` is covered by the greedy run from `i`. */
  lemma {:induction false} SpanCoversRun(line: string, i: nat, j: nat, k: Class)
    requires i <= j <= |line| && AllIn(line, i, j, k)
    ensures Span(line, i, k) >= j
    decreases j - i
  {
    if i < j {
      SpanCoversRun(line, i + 1, j, k);
    }
  }

  /** The greedy runs of `RestAt` lose no fit: it succeeds exactly when the
      tail of the pattern fits in some way. */
  lemma RestAtIsTail(shape: Shape, line: string, e: nat)
    requires e <= |line|
    ensures RestAt(shape, line, e).Some? <==> TailFits(shape, line, e)
  {
    if shape == Dotted {
      DottedTail(line, e);
    } else {
      PlainTail(line, e);
    }
  }

  lemma DottedTail(line: string, e: nat)
    requires e <= |line|
    ensures RestAt(Dotted, line, e).Some? <==> TailFits(Dotted, line, e)
  {
    if RestAt(Dotted, line, e).Some? {
      var w1 := Span(line, e, Space);
      var d := Span(line, w1, Dot);
      var w2 := Span(line, d, Space);
      var p := Span(line, w2, Digit);
      assert e < w1 && w1 + 2 <= d <= w2 < p <= |line|;
      assert AllIn(line, e, w1, Space) && AllIn(line, w1, d, Dot) && AllIn(line, d, w2, Space) && AllIn(line, w2, p, Digit);
    }
    if TailFits(Dotted, line, e) {
      var a, b, c, p :| e < a && a + 2 <= b <= c < p <= |line| &&
        AllIn(line, e, a, Space) && AllIn(line, a, b, Dot) && AllIn(line, b, c, Space) && AllIn(line, c, p, Digit);
      DottedTailFound(line, e, a, b, c, p);
    }
  }

  /** The greedy runs stop exactly at the ends of a fitting dotted tail. */
  lemma DottedTailFound(line: string, e: nat, a: nat, b: nat, c: nat, p: nat)
    requires e < a && a + 2 <= b <= c < p <= |line|
    requires AllIn(line, e, a, Space) && AllIn(line, a, b, Dot) && AllIn(line, b, c, Space) && AllIn(line, c, p, Digit)
    ensures RestAt(Dotted, line, e).Some?
  {
    assert line[a] == '.';
    SpanIsMaximalRun(line, e, a, Space);
    assert line[b] != '.' by {
      if b < c { assert IsSpace(line[b]); } else { assert IsDigit(line[c]); }
    }
    SpanIsMaximalRun(line, a, b, Dot);
    assert IsDigit(line[c]);
    SpanIsMaximalRun(line, b, c, Space);
    SpanCoversRun(line, c, p, Digit);
  }

  lemma PlainTail(line: string, e: nat)
    requires e <= |line|
    ensures RestAt(Plain, line, e).Some? <==> TailFits(Plain, line, e)
  {
    var w1 := Span(line, e, Space);
    if RestAt(Plain, line, e).Some? {
      var p := Span(line, w1, Digit);
      assert e < w1 < p <= |line|;
      assert AllIn(line, e, w1, Space) && AllIn(line, w1, p, Digit);
    }
    if TailFits(Plain, line, e) {
      var a, p :| e < a < p <= |line| &&
        AllIn(line, e, a, Space) && AllIn(line, a, p, Digit) && (p == |line| || (p + 1 == |line| && line[p] == '\n'));
      assert IsDigit(line[a]);
      SpanIsMaximalRun(line, e, a, Space);
      SpanIsMaximalRun(line, a, p, Digit);
    }
  }

  /** The pattern fits the line with the number `line[..k1]`, the first `\s+`
      over `line[k1..s]`, the title `line[s..e]` and then the tail. */
  ghost predicate Decomposes(shape: Shape, line: string, k1: nat, s: nat, e: nat) {
    NumberPrefix(line, k1) && k1 < s && TitleOk(line, s, e) && AllIn(line, k1, s, Space) && TailFits(shape, line, e)
  }

  /** The part of `Decomposes` after the number group. */
  predicate Candidate(shape: Shape, line: string, k1: nat, s: nat, e: nat) {
    k1 < s && TitleOk(line, s, e) && AllIn(line, k1, s, Space) && RestAt(shape, line, e).Some?
  }

  /** The lazy title group: tries `line[s..e]`, `line[s..e+1]`, ... and stops
      at the first end after which the rest of the pattern fits
      (see `LazyTitleSpec`). */
  function LazyTitle(shape: Shape, line: string, k1: nat, s: nat, e: nat): (r: Option<LineMatch>)
    requires s < e <= |line| + 1
    ensures r.Some? ==> r.value.numEnd == k1 && r.value.titleStart == s && e <= r.value.titleEnd <= |line|
    ensures r.Some? ==> RestAt(shape, line, r.value.titleEnd) == Some((r.value.pageStart, r.value.pageEnd))
    decreases |line| + 1 - e
  {
    if e > |line| then None
    else if line[e - 1] == '\n' then None
    else
      var rest := RestAt(shape, line, e);
      if rest.Some? then Some(LineMatch(k1, s, e, rest.value.0, rest.value.1))
      else LazyTitle(shape, line, k1, s, e + 1)
  }

  /** The title `LazyTitle` picks holds no newline, and it is the shortest
      one after which the rest of the pattern fits; when it picks none, no
      title from `s` on admits the rest. */
  lemma {:induction false} LazyTitleSpec(shape: Shape, line: string, k1: nat, s: nat, e: nat)
    requires s < e <= |line| + 1
    requires forall i :: s <= i < e - 1 ==> line[i] != '\n'
    ensures var r := LazyTitle(shape, line, k1, s, e);
      r.Some? ==> TitleOk(line, s, r.value.titleEnd) && forall e': nat :: e <= e' < r.value.titleEnd ==> RestAt(shape, line, e').None?
    ensures var r := LazyTitle(shape, line, k1, s, e);
      r.None? ==> forall e': nat :: e <= e' && TitleOk(line, s, e') ==> RestAt(shape, line, e').None?
    decreases |line| + 1 - e
  {
    hide RestAt;
    if e > |line| {
    } else if line[e - 1] == '\n' {
      forall e': nat | e <= e' ensures !TitleOk(line, s, e') {
        if e' <= |line| {
          assert s <= e - 1 < e' && line[e - 1] == '\n';
        }
      }
    } else if RestAt(shape, line, e).Some? {
      assert TitleOk(line, s, e);
    } else {
      LazyTitleSpec(shape, line, k1, s, e + 1);
      var r := LazyTitle(shape, line, k1, s, e + 1);
      assert LazyTitle(shape, line, k1, s, e) == r;
      if r.Some? {
        forall e': nat | e <= e' < r.value.titleEnd ensures RestAt(shape, line, e').None? {
          if e' == e {
          }
        }
      } else {
        forall e': nat | e <= e' && TitleOk(line, s, e') ensures RestAt(shape, line, e').None? {
          if e' == e {
          }
        }
      }
    }
  }

  /** Backtracking over the first `\s+`: title starts `s`, `s-1`, ..., `k1+1`
      (see `TryTitleStartSpec`). */
  function TryTitleStart(shape: Shape, line: string, k1: nat, s: nat): (r: Option<LineMatch>)
    requires k1 < s <= |line|
    ensures r.Some? ==> r.value.numEnd == k1 && k1 < r.value.titleStart <= s
    ensures r.Some? ==> r.value.titleStart < r.value.titleEnd <= |line|
    ensures r.Some? ==> RestAt(shape, line, r.value.titleEnd) == Some((r.value.pageStart, r.value.pageEnd))
    decreases s
  {
    match LazyTitle(shape, line, k1, s, s + 1)
    case Some(m) => Some(m)
    case None => if s - 1 > k1 then TryTitleStart(shape, line, k1, s - 1) else None
  }

  /** Over a run of spaces `line[k1..s]`, `TryTitleStart` returns a way the
      rest of the pattern fits, and among all ways with a title start at most
      `s` the one with the latest start and, for it, the shortest title. */
  lemma {:induction false} TryTitleStartSpec(shape: Shape, line: string, k1: nat, s: nat)
    requires k1 < s <= |line|
    requires AllIn(line, k1, s, Space)
    ensures var r := TryTitleStart(shape, line, k1, s);
      r.Some? ==> Candidate(shape, line, k1, r.value.titleStart, r.value.titleEnd)
    ensures var r := TryTitleStart(shape, line, k1, s);
      r.Some? ==> forall s': nat, e': nat :: s' <= s && Candidate(shape, line, k1, s', e') ==>
        s' < r.value.titleStart || (s' == r.value.titleStart && r.value.titleEnd <= e')
    ensures var r := TryTitleStart(shape, line, k1, s);
      r.None? ==> forall s': nat, e': nat :: s' <= s ==> !Candidate(shape, line, k1, s', e')
    decreases s
  {
    hide RestAt, LazyTitle;
    LazyTitleSpec(shape, line, k1, s, s + 1);
    if LazyTitle(shape, line, k1, s, s + 1).None? && s - 1 > k1 {
      TryTitleStartSpec(shape, line, k1, s - 1);
    }
  }

  /** `re.match` of one shape against one line (see `MatchLineIsFirstMatch`). */
  function MatchLine(shape: Shape, line: string): (r: Option<LineMatch>)
    ensures r.Some? ==> SpansOk(line, r.value)
    ensures r.Some? ==> RestAt(shape, line, r.value.titleEnd) == Some((r.value.pageStart, r.value.pageEnd))
  {
    match NumberEnd(line)
    case None => None
    case Some(k1) =>
      var w := Span(line, k1, Space);
      if w == k1 then None else TryTitleStart(shape, line, k1, w)
  }

  /** `MatchLine` finds a match exactly when the pattern fits the line in some
      way, and then the one backtracking reaches first: the same number group,
      the latest title start, and for that start the shortest title. */
  lemma MatchLineIsFirstMatch(shape: Shape, line: string)
    ensures MatchLine(shape, line).Some? ==>
      var m := MatchLine(shape, line).value;
      Decomposes(shape, line, m.numEnd, m.titleStart, m.titleEnd)
    ensures MatchLine(shape, line).None? ==> forall k1: nat, s: nat, e: nat :: !Decomposes(shape, line, k1, s, e)
    ensures MatchLine(shape, line).Some? ==> forall k1: nat, s: nat, e: nat :: Decomposes(shape, line, k1, s, e) ==>
              var m := MatchLine(shape, line).value;
              k1 == m.numEnd && (s < m.titleStart || (s == m.titleStart && m.titleEnd <= e))
  {
    if NumberEnd(line).Some? {
      var k1 := NumberEnd(line).value;
      var w := Span(line, k1, Space);
      if w > k1 {
        TryTitleStartSpec(shape, line, k1, w);
      }
    }
    if MatchLine(shape, line).Some? {
      RestAtIsTail(shape, line, MatchLine(shape, line).value.titleEnd);
    }
    forall k1: nat, s: nat, e: nat | Decomposes(shape, line, k1, s, e)
      ensures MatchLine(shape, line).Some?
      ensures var m := MatchLine(shape, line).value;
              k1 == m.numEnd && (s < m.titleStart || (s == m.titleStart && m.titleEnd <= e))
    {
      RestAtIsTail(shape, line, e);
      assert Candidate(shape, line, k1, s, e);
      NumberIsGreedy(line, k1);
      var w := Span(line, k1, Space);
      assert s <= w;
    }
  }

  /** The number group holds at most one dot. */
  lemma NumberHasAtMostOneDot(line: string, k: nat)
    requires NumberPrefix(line, k)
    ensures CountChar(line[..k], '.') <= 1
  {
    var d :| 0 < d <= k && AllIn(line, 0, d, Digit) &&
      (d == k || (line[d] == '.' && d + 1 < k && AllIn(line, d + 1, k, Digit)));
    assert '.' !in line[..d];
    if d < k {
      assert '.' !in line[d + 1..k];
      assert line[..k] == line[..d] + [line[d]] + line[d + 1..k];
      CountCharAppend(line[..d] + [line[d]], line[d + 1..k], '.');
      CountCharAppend(line[..d], [line[d]], '.');
    } else {
      assert line[..k] == line[..d];
    }
  }

  lemma {:induction false} CountCharAppend(a: string, b: string, c: char)
    ensures CountChar(a + b, c) == CountChar(a, c) + CountChar(b, c)
    decreases |b|
  {
    if b != [] {
      var b' := b[..|b| - 1];
      assert (a + b)[..|a + b| - 1] == a + b';
      CountCharAppend(a, b', c);
    } else {
      assert a + b == a;
    }
  }
}
