/** The parts of Python's `str` and slicing that the chapter planner relies on,
    written out over `seq<char>`.  Character classes are ASCII: `\s` and
    `str.isspace` are the six C-locale spaces plus the four separator controls
    0x1C-0x1F; `\d` is '0'..'9'. */
module Strings {

  datatype Option<T> = None | Some(value: T)

  predicate IsSpace(c: char) {
    c == ' ' || c == '\t' || c == '\n' || c == '\r' || c == '\U{0B}' || c == '\U{0C}'
    || ('\U{1C}' <= c <= '\U{1F}')
  }

  predicate IsDigit(c: char) { '0' <= c <= '9' }

  /** The character classes the regular expressions and `split()` scan over. */
  datatype Class = Space | NonSpace | Digit | Dot

  predicate InClass(c: char, k: Class) {
    match k
    case Space => IsSpace(c)
    case NonSpace => !IsSpace(c)
    case Digit => IsDigit(c)
    case Dot => c == '.'
  }

  predicate AllIn(s: string, lo: int, hi: int, k: Class)
    requires 0 <= lo <= hi <= |s|
  {
    forall i :: lo <= i < hi ==> InClass(s[i], k)
  }

  /** End of the longest run of class `k` starting at `i` (a greedy `k*`). */
  function Span(s: string, i: nat, k: Class): (j: nat)
    requires i <= |s|
    ensures i <= j <= |s|
    ensures AllIn(s, i, j, k)
    ensures j < |s| ==> !InClass(s[j], k)
    decreases |s| - i
  {
    if i == |s| || !InClass(s[i], k) then i else Span(s, i + 1, k)
  }

  /** A run that ends where a character outside the class (or the end) starts
      is the greedy run: the only way to stop a greedy scan. */
  lemma {:induction false} SpanIsMaximalRun(s: string, i: nat, j: nat, k: Class)
    requires i <= j <= |s|
    requires AllIn(s, i, j, k)
    requires j < |s| ==> !InClass(s[j], k)
    ensures Span(s, i, k) == j
    decreases j - i
  {
    if i < j {
      SpanIsMaximalRun(s, i + 1, j, k);
    }
  }

  // ---------------------------------------------------------------- split('\n')

  /** `sep.join(parts)`. */
  function Join(parts: seq<string>, sep: char): string {
    if |parts| == 0 then ""
    else if |parts| == 1 then parts[0]
    else parts[0] + [sep] + Join(parts[1..], sep)
  }

  /** `s.split(sep)` for a one-character separator. */
  function Split(s: string, sep: char): seq<string>
    decreases |s|
  {
    if s == [] then [""]
    else
      var rest := Split(s[1..], sep);
      if s[0] == sep then [""] + rest
      else [[s[0]] + rest[0]] + rest[1..]
  }

  /** `split` never returns an empty list, no piece holds the separator, and
      joining the pieces with the separator gives the string back. */
  lemma {:induction false} SplitSpec(s: string, sep: char)
    ensures |Split(s, sep)| >= 1
    ensures forall i :: 0 <= i < |Split(s, sep)| ==> sep !in Split(s, sep)[i]
    ensures Join(Split(s, sep), sep) == s
    decreases |s|
  {
    if s != [] {
      var rest := Split(s[1..], sep);
      SplitSpec(s[1..], sep);
      if s[0] == sep {
        assert s == [sep] + s[1..];
      } else {
        var r := [[s[0]] + rest[0]] + rest[1..];
        assert r[1..] == rest[1..];
        assert s == [s[0]] + s[1..];
      }
    }
  }

  // ---------------------------------------------------------------- strip()

  /** Start of the trailing run of spaces of `s[lo..]`. */
  function TrailingStart(s: string, lo: nat, j: nat): (t: nat)
    requires lo <= j <= |s|
    requires AllIn(s, j, |s|, Space)
    ensures lo <= t <= j
    ensures AllIn(s, t, |s|, Space)
    ensures t > lo ==> !IsSpace(s[t - 1])
    decreases j
  {
    if j == lo || !IsSpace(s[j - 1]) then j else TrailingStart(s, lo, j - 1)
  }

  /** `s.strip()`. */
  function Strip(s: string): string {
    var a := Span(s, 0, Space);
    s[a..TrailingStart(s, a, |s|)]
  }

  /** `s.strip()` is a slice of `s` obtained by dropping only spaces on both
      sides, and it neither starts nor ends with a space. */
  lemma StripSpec(s: string)
    ensures exists a, b :: 0 <= a <= b <= |s| && Strip(s) == s[a..b] && AllIn(s, 0, a, Space) && AllIn(s, b, |s|, Space)
    ensures Strip(s) != [] ==> !IsSpace(Strip(s)[0]) && !IsSpace(Strip(s)[|Strip(s)| - 1])
  {
    var a := Span(s, 0, Space);
    var b := TrailingStart(s, a, |s|);
    assert b > a ==> s[a..b][0] == s[a];
  }

  // ---------------------------------------------------------------- split() and ' '.join

  predicate IsWord(w: string) {
    w != [] && forall i :: 0 <= i < |w| ==> !IsSpace(w[i])
  }

  /** `s.split()` with no argument: the maximal runs of non-space characters. */
  function Words(s: string): (r: seq<string>)
    ensures forall i :: 0 <= i < |r| ==> IsWord(r[i])
    decreases |s|
  {
    var a := Span(s, 0, Space);
    if a == |s| then []
    else
      var b := Span(s, a, NonSpace);
      [s[a..b]] + Words(s[b..])
  }

  /** `gaps[0] + words[0] + gaps[1] + ... + words[n - 1] + gaps[n]`. */
  function Interleave(gaps: seq<string>, words: seq<string>): string
    requires |gaps| == |words| + 1
    decreases |words|
  {
    if words == [] then gaps[0] else gaps[0] + words[0] + Interleave(gaps[1..], words[1..])
  }

  /** `s` is the `words`, in order, separated by the whitespace `gaps`: at
      least one space between two words, any number at either end. */
  predicate SplitsInto(s: string, gaps: seq<string>, words: seq<string>) {
    |gaps| == |words| + 1 &&
    (forall i :: 0 <= i < |gaps| ==> AllIn(gaps[i], 0, |gaps[i]|, Space)) &&
    (forall i :: 1 <= i < |words| ==> gaps[i] != []) &&
    (forall i :: 0 <= i < |words| ==> IsWord(words[i])) &&
    s == Interleave(gaps, words)
  }

  /** `s.split()` cuts `s` into its words and the whitespace between them. */
  lemma {:induction false} WordsSplit(s: string)
    ensures exists gaps :: SplitsInto(s, gaps, Words(s))
    decreases |s|
  {
    var a := Span(s, 0, Space);
    if a == |s| {
      assert AllIn(s, 0, |s|, Space);
      assert Words(s) == [];
      assert SplitsInto(s, [s], []);
    } else {
      var b := Span(s, a, NonSpace);
      var rest := s[b..];
      WordsSplit(rest);
      var gaps' :| SplitsInto(rest, gaps', Words(rest));
      if Words(rest) != [] {
        FirstGapNonEmpty(rest, gaps', Words(rest));
      }
      assert Words(s) == [s[a..b]] + Words(rest);
      SplitsIntoCons(s, a, b, gaps', Words(rest));
    }
  }

  /** Leading whitespace and a word in front of a cut text give a cut of the
      whole text. */
  lemma SplitsIntoCons(s: string, a: nat, b: nat, gaps: seq<string>, words: seq<string>)
    requires a < b <= |s| && AllIn(s, 0, a, Space) && AllIn(s, a, b, NonSpace)
    requires SplitsInto(s[b..], gaps, words)
    requires words != [] ==> gaps[0] != []
    ensures SplitsInto(s, [s[..a]] + gaps, [s[a..b]] + words)
  {
    var gs := [s[..a]] + gaps;
    var ws := [s[a..b]] + words;
    assert gs[1..] == gaps && ws[1..] == words;
    assert s == s[..a] + s[a..b] + s[b..];
    assert Interleave(gs, ws) == gs[0] + ws[0] + Interleave(gaps, words);
    assert AllIn(gs[0], 0, |gs[0]|, Space);
    assert IsWord(ws[0]);
    assert forall i :: 1 <= i < |gs| ==> gs[i] == gaps[i - 1];
    assert forall i :: 1 <= i < |ws| ==> ws[i] == words[i - 1];
  }

  /** Text that starts with a space and holds a word has a non-empty first gap. */
  lemma FirstGapNonEmpty(s: string, gaps: seq<string>, words: seq<string>)
    requires SplitsInto(s, gaps, words) && words != []
    requires s != [] && IsSpace(s[0])
    ensures gaps[0] != []
  {
    assert s == gaps[0] + words[0] + Interleave(gaps[1..], words[1..]);
  }

  /** Any way of cutting `s` into words and whitespace gaps is the one
      `s.split()` returns. */
  lemma {:induction false} WordsUnique(s: string, gaps: seq<string>, words: seq<string>)
    requires SplitsInto(s, gaps, words)
    ensures words == Words(s)
    decreases |words|
  {
    if words == [] {
      SpanIsMaximalRun(s, 0, |s|, Space);
    } else {
      var a := |gaps[0]|;
      var b := a + |words[0]|;
      FirstWordIsGreedy(s, gaps, words);
      WordsUnique(s[b..], gaps[1..], words[1..]);
      assert words == [words[0]] + words[1..];
    }
  }

  /** The first gap and word of a cut are the greedy runs `split()` takes,
      and the rest of the text is cut by the remaining gaps and words. */
  lemma FirstWordIsGreedy(s: string, gaps: seq<string>, words: seq<string>)
    requires SplitsInto(s, gaps, words) && words != []
    ensures var a := |gaps[0]|;
      var b := a + |words[0]|;
      b <= |s| && Span(s, 0, Space) == a && Span(s, a, NonSpace) == b &&
      s[a..b] == words[0] && SplitsInto(s[b..], gaps[1..], words[1..])
  {
    var rest := Interleave(gaps[1..], words[1..]);
    assert s == gaps[0] + words[0] + rest;
    if rest != [] {
      if words[1..] != [] {
        assert rest == gaps[1] + words[1] + Interleave(gaps[2..], words[2..]);
        assert rest[0] == gaps[1][0];
      } else {
        assert rest == gaps[1];
      }
    }
    assert SplitsInto(rest, gaps[1..], words[1..]) by {
      forall i | 1 <= i < |words[1..]| ensures gaps[1..][i] != [] {
        assert gaps[1..][i] == gaps[i + 1];
      }
    }
    GapThenWord(s, gaps[0], words[0], rest);
  }

  /** Whitespace, then a word, then the end or more whitespace: the greedy
      runs from 0 stop at the ends of the gap and of the word. */
  lemma GapThenWord(s: string, g: string, w: string, rest: string)
    requires s == g + w + rest && AllIn(g, 0, |g|, Space) && IsWord(w)
    requires rest == [] || IsSpace(rest[0])
    ensures Span(s, 0, Space) == |g| && Span(s, |g|, NonSpace) == |g| + |w|
    ensures s[|g|..|g| + |w|] == w && s[|g| + |w|..] == rest
  {
    assert AllIn(s, 0, |g|, Space) by {
      forall i | 0 <= i < |g| ensures IsSpace(s[i]) {
        assert s[i] == g[i];
      }
    }
    assert s[|g|] == w[0];
    SpanIsMaximalRun(s, 0, |g|, Space);
    assert AllIn(s, |g|, |g| + |w|, NonSpace) by {
      forall i | |g| <= i < |g| + |w| ensures !IsSpace(s[i]) {
        assert s[i] == w[i - |g|];
      }
    }
    if rest != [] {
      assert s[|g| + |w|] == rest[0];
    }
    SpanIsMaximalRun(s, |g|, |g| + |w|, NonSpace);
    assert s[|g|..|g| + |w|] == w && s[|g| + |w|..] == rest;
  }

  /** `' '.join(words)`. */
  function JoinSpace(words: seq<string>): string {
    Join(words, ' ')
  }

  /** `' '.join(s.split())`: runs of spaces collapsed to one blank, none at the ends. */
  function Normalize(s: string): string {
    JoinSpace(Words(s))
  }

  // ---------------------------------------------------------------- `in`, slicing

  /** `needle` occurs in `hay` starting at index `i`. */
  predicate OccursAt(hay: string, needle: string, i: nat) {
    i + |needle| <= |hay| && hay[i..i + |needle|] == needle
  }

  /** `needle in hay[i:]`, scanning start positions from `i` upwards. */
  function ContainsFrom(hay: string, needle: string, i: nat): bool
    decreases |hay| - i
  {
    if i + |needle| > |hay| then false
    else if hay[i..i + |needle|] == needle then true
    else ContainsFrom(hay, needle, i + 1)
  }

  /** `needle in hay` for strings. */
  function Contains(hay: string, needle: string): bool {
    ContainsFrom(hay, needle, 0)
  }

  lemma {:induction false} ContainsFromSpec(hay: string, needle: string, i: nat)
    ensures ContainsFrom(hay, needle, i) <==> exists j: nat :: i <= j && OccursAt(hay, needle, j)
    decreases |hay| - i
  {
    if i + |needle| > |hay| {
    } else if hay[i..i + |needle|] == needle {
      assert OccursAt(hay, needle, i);
    } else {
      ContainsFromSpec(hay, needle, i + 1);
    }
  }

  /** `needle in hay` holds exactly when some slice of `hay` equals `needle`;
      in particular the empty string is in every string. */
  lemma ContainsSpec(hay: string, needle: string)
    ensures Contains(hay, needle) <==> exists j: nat :: OccursAt(hay, needle, j)
    ensures needle == [] ==> Contains(hay, needle)
  {
    ContainsFromSpec(hay, needle, 0);
    if needle == [] {
      assert OccursAt(hay, needle, 0);
    }
  }

  /** `s[:n]` with `n >= 0`: Python clamps the bound to the length. */
  function Take<T>(s: seq<T>, n: nat): (r: seq<T>)
    ensures r <= s && |r| == if n < |s| then n else |s|
  {
    if n < |s| then s[..n] else s
  }

  /** `s[:n]` for any integer `n`: a negative bound counts from the end. */
  function PyPrefix<T>(s: seq<T>, n: int): (r: seq<T>)
    ensures r <= s
    ensures n >= 0 ==> |r| == if n < |s| then n else |s|
    ensures n < 0 ==> |r| == if |s| + n > 0 then |s| + n else 0
  {
    if n >= 0 then Take(s, n)
    else if |s| + n > 0 then s[..|s| + n]
    else []
  }

  lemma AppendAssoc<T>(x: seq<T>, y: seq<T>, z: seq<T>)
    ensures x + y + z == x + (y + z)
  {
  }

  function Max(a: int, b: int): int { if a < b then b else a }
  function Min(a: int, b: int): int { if a < b then a else b }

  // ---------------------------------------------------------------- count, replace, int

  /** `s.count(c)`: the number of positions of `s` holding `c`. */
  function CountChar(s: string, c: char): (n: nat)
    ensures n == |set i | 0 <= i < |s| && s[i] == c|
    ensures n <= |s|
    ensures n == 0 <==> c !in s
    decreases |s|
  {
    if s == [] then 0
    else
      var init := s[..|s| - 1];
      PositionsOfLast(s, c);
      assert s == init + [s[|s| - 1]];
      CountChar(init, c) + (if s[|s| - 1] == c then 1 else 0)
  }

  lemma PositionsOfLast(s: string, c: char)
    requires s != []
    ensures var init := s[..|s| - 1];
      (set i | 0 <= i < |s| && s[i] == c) ==
      (set i | 0 <= i < |init| && init[i] == c) + (if s[|s| - 1] == c then {|s| - 1} else {})
  {
  }

  /** `s.replace(a, b)` for single characters. */
  function ReplaceChar(s: string, a: char, b: char): (r: string)
    ensures |r| == |s|
    ensures forall i :: 0 <= i < |s| ==> r[i] == if s[i] == a then b else s[i]
    ensures a != b ==> a !in r
  {
    if s == [] then []
    else [if s[0] == a then b else s[0]] + ReplaceChar(s[1..], a, b)
  }

  function Pow10(k: nat): nat {
    if k == 0 then 1 else 10 * Pow10(k - 1)
  }

  /** `int(digits)` for a string of ASCII digits: a number below `10^len`. */
  function ParseInt(digits: string): (n: nat)
    requires forall i :: 0 <= i < |digits| ==> IsDigit(digits[i])
    ensures n < Pow10(|digits|)
    decreases |digits|
  {
    if digits == [] then 0
    else
      var last := digits[|digits| - 1];
      assert IsDigit(last);
      var m := ParseInt(digits[..|digits| - 1]);
      assert 10 * m + 9 < 10 * Pow10(|digits| - 1);
      10 * m + (last as int - '0' as int)
  }

  /** `str(n)`: the decimal digits of `n`, with no leading zero. */
  function Decimal(n: nat): (r: string)
    ensures r != [] && forall i :: 0 <= i < |r| ==> IsDigit(r[i])
    ensures r[0] == '0' <==> n == 0
  {
    if n < 10 then [('0' as int + n) as char]
    else Decimal(n / 10) + [('0' as int + n % 10) as char]
  }

  /** Read from the left, the first digit weighs `10^(len - 1)`; with
      `ParseInt("") == 0` (the bound for length 0) this fixes the value of
      every digit string, zero-padded ones included. */
  lemma {:induction false} ParseIntFirstDigit(digits: string)
    requires digits != [] && forall i :: 0 <= i < |digits| ==> IsDigit(digits[i])
    ensures ParseInt(digits) == (digits[0] as int - '0' as int) * Pow10(|digits| - 1) + ParseInt(digits[1..])
    decreases |digits|
  {
    var n := |digits|;
    var d0 := digits[0] as int - '0' as int;
    var last := digits[n - 1] as int - '0' as int;
    if n == 1 {
      assert digits[..0] == [] && digits[1..] == [];
    } else {
      var init := digits[..n - 1];
      ParseIntFirstDigit(init);
      assert init[1..] == digits[1..][..n - 2];
      assert ParseInt(digits[1..]) == 10 * ParseInt(init[1..]) + last;
      assert Pow10(n - 1) == 10 * Pow10(n - 2);
      calc {
        ParseInt(digits);
        10 * ParseInt(init) + last;
        10 * (d0 * Pow10(n - 2) + ParseInt(init[1..])) + last;
        { MulTen(d0, Pow10(n - 2)); }
        d0 * Pow10(n - 1) + ParseInt(digits[1..]);
      }
    }
  }

  lemma MulTen(a: int, b: int)
    ensures 10 * (a * b) == a * (10 * b)
  {
  }

  /** `int("0" + s) == int(s)`: leading zeros do not change the value. */
  lemma ParseIntLeadingZero(digits: string)
    requires forall i :: 0 <= i < |digits| ==> IsDigit(digits[i])
    ensures ParseInt("0" + digits) == ParseInt(digits)
  {
    var padded := "0" + digits;
    assert padded[0] == '0' && padded[1..] == digits;
    assert forall i :: 0 <= i < |padded| ==> IsDigit(padded[i]);
    ParseIntFirstDigit(padded);
    assert (padded[0] as int - '0' as int) == 0;
  }

  /** `int(str(n)) == n`. */
  lemma {:induction false} ParseIntDecimal(n: nat)
    ensures ParseInt(Decimal(n)) == n
  {
    if n >= 10 {
      ParseIntDecimal(n / 10);
      var d := Decimal(n);
      assert d[..|d| - 1] == Decimal(n / 10);
    }
  }
}
