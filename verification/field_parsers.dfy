/**
 * The field parsers of the crawler: the title splitter, the grade extractor,
 * the contact-hours counter and the tag stripper. Each regular expression of
 * the source is a left-to-right scanner over a fixed string and a position:
 * leftmost match first, `.*?` as short as possible, `.` never matching '\n',
 * `\d` and `[A-Z0-9,]` as ASCII classes and `\s` as `[\t\n\f\r ]`.
 */
module FieldParsers {
  import opened Wrappers
  import opened Strings
  import opened Strconv
  import opened Records

  /** The end of the longest run of characters in a class that starts at `i`. */
  function RunEnd(s: string, i: nat, inClass: char -> bool): (e: nat)
    requires i <= |s|
    ensures i <= e <= |s|
    ensures forall k :: i <= k < e ==> inClass(s[k])
    ensures e == |s| || !inClass(s[e])
    decreases |s| - i
  {
    if i < |s| && inClass(s[i]) then RunEnd(s, i + 1, inClass) else i
  }

  // ---------------------------------------------------------------------------
  // Deleting lazy spans: `<.*?>` (stripTags) and `\[.*?\]` (calculateHours)
  // ---------------------------------------------------------------------------

  /**
   * Where `.*?` followed by `close` stops when it starts at `k`: the first
   * `close` at or after `k`, provided no '\n' comes before it.
   */
  function SpanEnd(s: string, close: char, k: nat): (r: Option<nat>)
    ensures r.Some? ==> k < r.value + 1 <= |s|
    decreases |s| - k
  {
    if k >= |s| then None
    else if s[k] == close then Some(k)
    else if s[k] == '\n' then None
    else SpanEnd(s, close, k + 1)
  }

  /**
   * The span found from `k` ends at the nearest `close`, with no line break
   * before it; when none is found, every `close` has a line break before it.
   */
  lemma {:induction false} SpanEndIsNearestClose(s: string, close: char, k: nat)
    ensures SpanEnd(s, close, k).Some? ==>
      var e := SpanEnd(s, close, k).value;
      s[e] == close && forall m :: k <= m < e ==> s[m] != close && s[m] != '\n'
    ensures SpanEnd(s, close, k).None? ==>
      forall m :: k <= m < |s| && s[m] == close ==> exists n :: k <= n < m && s[n] == '\n'
    decreases |s| - k
  {
    if k < |s| && s[k] != close && s[k] != '\n' {
      SpanEndIsNearestClose(s, close, k + 1);
    }
  }

  /**
   * `ReplaceAllString(s[i..], "")` for the pattern `open.*?close`: every
   * leftmost `open`, together with everything up to the nearest `close` on the
   * same line, is deleted; an `open` with no such `close` is kept.
   */
  function RemoveSpans(s: string, open: char, close: char, i: nat): (r: string)
    requires i <= |s|
    ensures |r| <= |s| - i
    decreases |s| - i
  {
    if i == |s| then []
    else
      if s[i] == open && SpanEnd(s, close, i + 1).Some? then
        RemoveSpans(s, open, close, SpanEnd(s, close, i + 1).value + 1)
      else
        [s[i]] + RemoveSpans(s, open, close, i + 1)
  }

  /** Without an `open` there is nothing to delete. */
  lemma {:induction false} RemoveSpansWithoutOpen(s: string, open: char, close: char, i: nat)
    requires i <= |s| && open !in s[i..]
    ensures RemoveSpans(s, open, close, i) == s[i..]
    decreases |s| - i
  {
    if i < |s| {
      assert s[i..] == [s[i]] + s[i + 1..];
      RemoveSpansWithoutOpen(s, open, close, i + 1);
    }
  }

  /** Text whose every `open` starts no span is copied through unchanged, up to `j`. */
  lemma {:induction false} RemoveSpansCopiesPlainText(s: string, open: char, close: char, i: nat, j: nat)
    requires i <= j <= |s| && forall m :: i <= m < j && s[m] == open ==> SpanEnd(s, close, m + 1).None?
    ensures RemoveSpans(s, open, close, i) == s[i..j] + RemoveSpans(s, open, close, j)
    decreases j - i
  {
    if i < j {
      var rest := RemoveSpans(s, open, close, j);
      RemoveSpansCopiesPlainText(s, open, close, i + 1, j);
      assert RemoveSpans(s, open, close, i) == [s[i]] + (s[i + 1..j] + rest);
      assert s[i..j] == [s[i]] + s[i + 1..j];
    }
  }

  /** A `close` with neither another `close` nor a line break before it ends the span. */
  lemma {:induction false} SpanEndAt(s: string, close: char, k: nat, e: nat)
    requires k <= e < |s| && s[e] == close
    requires forall m :: k <= m < e ==> s[m] != close && s[m] != '\n'
    ensures SpanEnd(s, close, k) == Some(e)
    decreases e - k
  {
    if k < e {
      SpanEndAt(s, close, k + 1, e);
    }
  }

  /** Scanning a suffix finds the same close, shifted by where the suffix starts. */
  lemma {:induction false} SpanEndOfSuffix(s: string, close: char, k: nat, m: nat)
    requires k <= |s|
    ensures SpanEnd(s, close, k + m).None? <==> SpanEnd(s[k..], close, m).None?
    ensures SpanEnd(s, close, k + m).Some? ==>
      SpanEnd(s, close, k + m).value == k + SpanEnd(s[k..], close, m).value
    decreases |s| - k - m
  {
    if k + m < |s| {
      assert s[k..][m] == s[k + m];
      SpanEndOfSuffix(s, close, k, m + 1);
    }
  }

  /** Deleting spans from position `k + i` is deleting them from the suffix at `k`. */
  lemma {:induction false} RemoveSpansOfSuffix(s: string, open: char, close: char, k: nat, i: nat)
    requires k + i <= |s|
    ensures RemoveSpans(s, open, close, k + i) == RemoveSpans(s[k..], open, close, i)
    decreases |s| - k - i
  {
    if k + i < |s| {
      SpanEndOfSuffix(s, close, k, i + 1);
      var skips := s[k + i] == open && SpanEnd(s, close, k + i + 1).Some?;
      var next := if skips then SpanEnd(s[k..], close, i + 1).value + 1 else i + 1;
      RemoveSpansOfSuffix(s, open, close, k, next);
      if skips {
        RemoveSpansSkipStep(s, open, close, k, i, next - 1);
      } else {
        RemoveSpansCopyStep(s, open, close, k, i);
      }
    }
  }

  /** The step of `RemoveSpansOfSuffix` that deletes a span. */
  lemma {:induction false} RemoveSpansSkipStep(s: string, open: char, close: char, k: nat, i: nat, e: nat)
    requires k + i < |s| && s[k + i] == open
    requires SpanEnd(s[k..], close, i + 1) == Some(e) && SpanEnd(s, close, k + i + 1) == Some(k + e)
    requires RemoveSpans(s, open, close, k + (e + 1)) == RemoveSpans(s[k..], open, close, e + 1)
    ensures RemoveSpans(s, open, close, k + i) == RemoveSpans(s[k..], open, close, i)
  {
    assert s[k..][i] == s[k + i];
    assert RemoveSpans(s, open, close, k + i) == RemoveSpans(s, open, close, k + e + 1);
  }

  /** The step of `RemoveSpansOfSuffix` that copies a character. */
  lemma {:induction false} RemoveSpansCopyStep(s: string, open: char, close: char, k: nat, i: nat)
    requires k + i < |s| && !(s[k + i] == open && SpanEnd(s, close, k + i + 1).Some?)
    requires SpanEnd(s, close, k + i + 1).None? <==> SpanEnd(s[k..], close, i + 1).None?
    requires RemoveSpans(s, open, close, k + (i + 1)) == RemoveSpans(s[k..], open, close, i + 1)
    ensures RemoveSpans(s, open, close, k + i) == RemoveSpans(s[k..], open, close, i)
  {
    assert s[k..][i] == s[k + i];
  }

  /** A line break with no `close` before it stops the span from `k`. */
  lemma {:induction false} SpanEndBlocked(s: string, close: char, k: nat, q: nat)
    requires k <= q < |s| && s[q] == '\n' && forall m :: k <= m <= q ==> s[m] != close
    ensures SpanEnd(s, close, k).None?
    decreases q - k
  {
    if k < q && s[k] != '\n' {
      SpanEndBlocked(s, close, k + 1, q);
    }
  }

  /** Every `open` in `t` is left unclosed: a line break follows it in `t`, with no `close` up to it. */
  predicate OpensUnclosed(t: string, open: char, close: char) {
    forall p :: 0 <= p < |t| && t[p] == open ==>
      exists q :: p < q < |t| && t[q] == '\n' && close !in t[p + 1..q + 1]
  }

  /** Text without an `open` leaves none unclosed. */
  lemma {:induction false} NoOpenIsUnclosed(t: string, open: char, close: char)
    requires open !in t
    ensures OpensUnclosed(t, open, close)
  {
  }

  /**
   * The first span is deleted whole: the text before it, whose every `open` is
   * cut off by a line break, stays, and the rest is processed on its own.
   */
  lemma {:induction false} RemoveSpansDeletesFirstSpan(before: string, inside: string, after: string, open: char, close: char)
    requires OpensUnclosed(before, open, close) && close !in inside && '\n' !in inside
    ensures RemoveSpans(before + [open] + inside + [close] + after, open, close, 0)
         == before + RemoveSpans(after, open, close, 0)
  {
    var s := before + [open] + inside + [close] + after;
    var b := |before|;
    var e := b + 1 + |inside|;
    forall m | 0 <= m < b && s[m] == open
      ensures SpanEnd(s, close, m + 1).None?
    {
      assert s[m] == before[m];
      var q :| m < q < b && before[q] == '\n' && close !in before[m + 1..q + 1];
      forall k | m + 1 <= k <= q
        ensures s[k] != close
      {
        assert s[k] == before[m + 1..q + 1][k - m - 1];
      }
      SpanEndBlocked(s, close, m + 1, q);
    }
    RemoveSpansCopiesPlainText(s, open, close, 0, b);
    assert s[..b] == before;
    forall m | b + 1 <= m < e
      ensures s[m] != close && s[m] != '\n'
    {
      assert s[m] == inside[m - b - 1];
    }
    SpanEndAt(s, close, b + 1, e);
    RemoveSpansOfSuffix(s, open, close, e + 1, 0);
    assert s[e + 1..] == after;
  }

  /** No match of `open.*?close` is left in `t`. */
  predicate NoSpan(t: string, open: char, close: char) {
    forall p :: 0 <= p < |t| && t[p] == open ==> SpanEnd(t, close, p + 1).None?
  }

  lemma {:induction false} SpanEndShift(x: char, u: string, close: char, k: nat)
    ensures SpanEnd([x] + u, close, k + 1).None? <==> SpanEnd(u, close, k).None?
    decreases |u| - k
  {
    var t := [x] + u;
    if k < |u| {
      assert t[k + 1] == u[k];
      SpanEndShift(x, u, close, k + 1);
    }
  }

  lemma {:induction false} NoSpanCons(x: char, u: string, open: char, close: char)
    requires NoSpan(u, open, close)
    requires x == open ==> SpanEnd(u, close, 0).None?
    ensures NoSpan([x] + u, open, close)
  {
    var t := [x] + u;
    forall p | 0 <= p < |t| && t[p] == open
      ensures SpanEnd(t, close, p + 1).None?
    {
      SpanEndShift(x, u, close, p);
      if p > 0 {
        assert u[p - 1] == t[p];
      }
    }
  }

  /** Deleting spans never puts a `close` before the first line break. */
  lemma {:induction false} RemoveSpansKeepsNoClose(s: string, open: char, close: char, k: nat)
    requires open != close && open != '\n'
    requires k <= |s| && SpanEnd(s, close, k).None?
    ensures SpanEnd(RemoveSpans(s, open, close, k), close, 0).None?
    decreases |s| - k
  {
    if k < |s| {
      var u := RemoveSpans(s, open, close, k + 1);
      if s[k] != '\n' {
        RemoveSpansKeepsNoClose(s, open, close, k + 1);
      }
      SpanEndShift(s[k], u, close, 0);
    }
  }

  /** What `RemoveSpans` leaves holds no span it would delete. */
  lemma {:induction false} RemoveSpansLeavesNoSpan(s: string, open: char, close: char, i: nat)
    requires open != close && open != '\n'
    requires i <= |s|
    ensures NoSpan(RemoveSpans(s, open, close, i), open, close)
    decreases |s| - i
  {
    if i < |s| {
      if s[i] == open && SpanEnd(s, close, i + 1).Some? {
        RemoveSpansLeavesNoSpan(s, open, close, SpanEnd(s, close, i + 1).value + 1);
      } else {
        RemoveSpansLeavesNoSpan(s, open, close, i + 1);
        if s[i] == open {
          RemoveSpansKeepsNoClose(s, open, close, i + 1);
        }
        NoSpanCons(s[i], RemoveSpans(s, open, close, i + 1), open, close);
      }
    }
  }

  /** A string with no span in it is left as it is. */
  lemma {:induction false} RemoveSpansOfClean(t: string, open: char, close: char, i: nat)
    requires i <= |t| && NoSpan(t, open, close)
    ensures RemoveSpans(t, open, close, i) == t[i..]
    decreases |t| - i
  {
    if i < |t| {
      RemoveSpansOfClean(t, open, close, i + 1);
      assert t[i..] == [t[i]] + t[i + 1..];
    }
  }

  /** A span found in a piece of `t` is found in `t` too, at the same characters. */
  lemma {:induction false} SpanEndOfSlice(t: string, close: char, a: nat, b: nat, m: nat)
    requires a <= b <= |t|
    ensures SpanEnd(t[a..b], close, m).Some? ==> SpanEnd(t, close, a + m).Some?
    decreases b - a - m
  {
    if m < b - a {
      assert t[a..b][m] == t[a + m];
      SpanEndOfSlice(t, close, a, b, m + 1);
    }
  }

  /** A contiguous piece of a string without spans has none either. */
  lemma {:induction false} NoSpanOfSlice(t: string, open: char, close: char, a: nat, b: nat)
    requires a <= b <= |t| && NoSpan(t, open, close)
    ensures NoSpan(t[a..b], open, close)
  {
    forall p | 0 <= p < b - a && t[a..b][p] == open
      ensures SpanEnd(t[a..b], close, p + 1).None?
    {
      assert t[a + p] == open;
      SpanEndOfSlice(t, close, a, b, p + 1);
    }
  }

  /** Trimming white space cannot create a span. */
  lemma {:induction false} TrimSpaceKeepsNoSpan(t: string, open: char, close: char)
    requires NoSpan(t, open, close)
    ensures NoSpan(TrimSpace(t), open, close)
  {
    var a, b := TrimSpaceIsSlice(t);
    NoSpanOfSlice(t, open, close, a, b);
  }

  /** `stripTags`: deletes every `<...>` tag, each ending at its nearest `>`. */
  function StripTags(html: string): (text: string)
    ensures |text| <= |html|
  {
    RemoveSpans(html, '<', '>', 0)
  }

  /**
   * No tag survives `stripTags`, so stripping twice is stripping once; text
   * without a '<' comes back unchanged.
   */
  lemma {:induction false} StripTagsRemovesEveryTag(html: string)
    ensures NoSpan(StripTags(html), '<', '>')
    ensures StripTags(StripTags(html)) == StripTags(html)
    ensures '<' !in html ==> StripTags(html) == html
  {
    RemoveSpansLeavesNoSpan(html, '<', '>', 0);
    RemoveSpansOfClean(StripTags(html), '<', '>', 0);
    if '<' !in html {
      RemoveSpansWithoutOpen(html, '<', '>', 0);
    }
  }

  // The examples below take the input as a parameter equal to the literal, so
  // that the scanner is unfolded one asserted step at a time.

  lemma {:induction false} StripTagsSimpleTag(html: string)
    requires html == "<p>Hello</p>"
    ensures StripTags(html) == "Hello"
  {
    assert SpanEnd(html, '>', 1) == Some(2);
    assert SpanEnd(html, '>', 10) == Some(11);
    assert SpanEnd(html, '>', 9) == Some(11);
    assert RemoveSpans(html, '<', '>', 12) == "";
    assert RemoveSpans(html, '<', '>', 8) == "";
    assert RemoveSpans(html, '<', '>', 7) == "o";
    assert RemoveSpans(html, '<', '>', 6) == "lo";
    assert RemoveSpans(html, '<', '>', 5) == "llo";
    assert RemoveSpans(html, '<', '>', 4) == "ello";
    assert RemoveSpans(html, '<', '>', 3) == "Hello";
  }

  lemma {:induction false} StripTagsNestedTagsTail(html: string)
    requires html == "<div><span>World</span></div>"
    ensures RemoveSpans(html, '<', '>', 16) == ""
  {
    assert SpanEnd(html, '>', 21) == Some(22);
    assert SpanEnd(html, '>', 19) == Some(22);
    assert SpanEnd(html, '>', 17) == Some(22);
    assert SpanEnd(html, '>', 27) == Some(28);
    assert SpanEnd(html, '>', 25) == Some(28);
    assert RemoveSpans(html, '<', '>', 23) == "";
  }

  lemma {:induction false} StripTagsNestedTagsText(html: string)
    requires html == "<div><span>World</span></div>"
    ensures RemoveSpans(html, '<', '>', 11) == "World"
  {
    StripTagsNestedTagsTail(html);
    assert RemoveSpans(html, '<', '>', 14) == "ld";
    assert RemoveSpans(html, '<', '>', 12) == "orld";
  }

  lemma {:induction false} StripTagsNestedTags(html: string)
    requires html == "<div><span>World</span></div>"
    ensures StripTags(html) == "World"
  {
    StripTagsNestedTagsText(html);
    assert SpanEnd(html, '>', 3) == Some(4);
    assert SpanEnd(html, '>', 1) == Some(4);
    assert SpanEnd(html, '>', 9) == Some(10);
    assert SpanEnd(html, '>', 7) == Some(10);
    assert RemoveSpans(html, '<', '>', 5) == "World";
  }

  lemma {:induction false} StripTagsAttributes(html: string)
    requires html == "<a href=\"/path\">Link</a>"
    ensures StripTags(html) == "Link"
  {
    assert SpanEnd(html, '>', 14) == Some(15);
    assert SpanEnd(html, '>', 13) == Some(15);
    assert SpanEnd(html, '>', 12) == Some(15);
    assert SpanEnd(html, '>', 11) == Some(15);
    assert SpanEnd(html, '>', 10) == Some(15);
    assert SpanEnd(html, '>', 9) == Some(15);
    assert SpanEnd(html, '>', 8) == Some(15);
    assert SpanEnd(html, '>', 7) == Some(15);
    assert SpanEnd(html, '>', 6) == Some(15);
    assert SpanEnd(html, '>', 5) == Some(15);
    assert SpanEnd(html, '>', 4) == Some(15);
    assert SpanEnd(html, '>', 3) == Some(15);
    assert SpanEnd(html, '>', 2) == Some(15);
    assert SpanEnd(html, '>', 1) == Some(15);
    assert SpanEnd(html, '>', 22) == Some(23);
    assert SpanEnd(html, '>', 21) == Some(23);
    assert RemoveSpans(html, '<', '>', 24) == "";
    assert RemoveSpans(html, '<', '>', 20) == "";
    assert RemoveSpans(html, '<', '>', 19) == "k";
    assert RemoveSpans(html, '<', '>', 18) == "nk";
    assert RemoveSpans(html, '<', '>', 17) == "ink";
    assert RemoveSpans(html, '<', '>', 16) == "Link";
  }
  /**
   * A '<' cut off by a line break is kept, and a tag after it is still
   * deleted: "a<b\n<i>c" gives "a<b\nc".
   */
  lemma {:induction false} StripTagsKeepsUnclosedBeforeTag(before: string, after: string)
    requires before == "a<b\n" && after == "c"
    ensures StripTags(before + "<i>" + after) == "a<b\nc"
  {
    forall p | 0 <= p < |before| && before[p] == '<'
      ensures exists q :: p < q < |before| && before[q] == '\n' && '>' !in before[p + 1..q + 1]
    {
      assert p == 1 && before[2..4] == "b\n" && before[3] == '\n';
    }
    assert before + "<i>" + after == before + ['<'] + "i" + ['>'] + after;
    RemoveSpansDeletesFirstSpan(before, "i", after, '<', '>');
    RemoveSpansWithoutOpen(after, '<', '>', 0);
    assert after[0..] == after;
  }


  // ---------------------------------------------------------------------------
  // calculateHours: `\[.*?\]` deleted, then `\d+` matches counted
  // ---------------------------------------------------------------------------

  /** The literal whose presence means the schedule is unknown. */
  const NoData: string := "無資料"

  /**
   * The number of matches `FindAllString(s[i..], -1)` reports for `\d+`:
   * leftmost, greedy and non-overlapping, so one per maximal run of digits.
   */
  function CountDigitRuns(s: string, i: nat): (n: nat)
    requires i <= |s|
    ensures n <= |s| - i
    decreases |s| - i
  {
    if i == |s| then 0
    else if IsDigit(s[i]) then 1 + CountDigitRuns(s, RunEnd(s, i, IsDigit))
    else CountDigitRuns(s, i + 1)
  }

  /** Position `k` begins a maximal run of ASCII digits. */
  predicate IsRunStart(s: string, k: nat)
    requires k < |s|
  {
    IsDigit(s[k]) && (k == 0 || !IsDigit(s[k - 1]))
  }

  /** How many positions at or after `i` begin a run of digits. */
  function RunStarts(s: string, i: nat): nat
    requires i <= |s|
    decreases |s| - i
  {
    if i == |s| then 0 else (if IsRunStart(s, i) then 1 else 0) + RunStarts(s, i + 1)
  }

  lemma {:induction false} NoRunStartInsideRun(s: string, i: nat, e: nat)
    requires i < e <= |s|
    requires forall k :: i <= k < e ==> IsDigit(s[k])
    ensures RunStarts(s, i + 1) == RunStarts(s, e)
    decreases e - i
  {
    if i + 1 < e {
      NoRunStartInsideRun(s, i + 1, e);
    }
  }

  /**
   * Counting `\d+` matches from a position that is not inside a run counts
   * exactly the run starts from there on.
   */
  lemma {:induction false} CountDigitRunsCountsRunStarts(s: string, i: nat)
    requires i <= |s|
    requires i == 0 || i == |s| || !IsDigit(s[i - 1]) || !IsDigit(s[i])
    ensures CountDigitRuns(s, i) == RunStarts(s, i)
    decreases |s| - i
  {
    if i < |s| {
      if IsDigit(s[i]) {
        var e := RunEnd(s, i, IsDigit);
        CountDigitRunsCountsRunStarts(s, e);
        NoRunStartInsideRun(s, i, e);
      } else {
        CountDigitRunsCountsRunStarts(s, i + 1);
      }
    }
  }

  /** `calculateHours`: the number of class periods named in a schedule string. */
  function CalculateHours(timeStr: string): (hours: nat)
    ensures hours <= |timeStr|
  {
    if Contains(timeStr, NoData) then 0
    else CountDigitRuns(RemoveSpans(timeStr, '[', ']', 0), 0)
  }

  /**
   * A schedule mentioning "無資料" has no hours; otherwise the hours are the
   * maximal runs of ASCII digits left once every bracketed room is deleted.
   */
  lemma {:induction false} CalculateHoursCountsPeriods(timeStr: string)
    ensures Contains(timeStr, NoData) ==> CalculateHours(timeStr) == 0
    ensures !Contains(timeStr, NoData) ==>
      var cleaned := RemoveSpans(timeStr, '[', ']', 0);
      NoSpan(cleaned, '[', ']') && CalculateHours(timeStr) == RunStarts(cleaned, 0)
  {
    RemoveSpansLeavesNoSpan(timeStr, '[', ']', 0);
    CountDigitRunsCountsRunStarts(RemoveSpans(timeStr, '[', ']', 0), 0);
  }

  // ---------------------------------------------------------------------------
  // ParseGradeFromNotes: `\/\s*資工系\s*([A-Z0-9,]+)`
  // ---------------------------------------------------------------------------

  /** `\s` in Go's regular expressions: `[\t\n\f\r ]`. */
  predicate IsRegexSpace(c: char) {
    c == '\t' || c == '\n' || c == '\U{0C}' || c == '\r' || c == ' '
  }

  /** The captured class `[A-Z0-9,]`. */
  predicate IsGradeChar(c: char) {
    ('A' <= c <= 'Z') || ('0' <= c <= '9') || c == ','
  }

  /** A non-empty string of `[A-Z0-9,]`: what a successful capture looks like. */
  predicate IsGradeText(g: string) {
    g != [] && forall k :: 0 <= k < |g| ==> IsGradeChar(g[k])
  }

  /** The department marker the class token follows. */
  const GradeMarker: string := "資工系"

  /**
   * The declarative reading of the pattern: `s[i..e]` matches it, with the
   * marker at `j` and the capture `s[k..e]`.
   */
  ghost predicate GradeMatch(s: string, i: nat, j: nat, k: nat, e: nat) {
    && i < j <= |s| && s[i] == '/'
    && (forall m :: i < m < j ==> IsRegexSpace(s[m]))
    && OccursAt(s, GradeMarker, j)
    && j + |GradeMarker| <= k < e <= |s|
    && (forall m :: j + |GradeMarker| <= m < k ==> IsRegexSpace(s[m]))
    && (forall m :: k <= m < e ==> IsGradeChar(s[m]))
  }

  /**
   * The capture of a match that starts at `i`, if one does. The three parts
   * of the pattern use disjoint classes, so each greedy part simply runs to
   * its end and no backtracking can change the outcome.
   */
  function GradeAt(s: string, i: nat): (r: Option<string>)
    ensures r.Some? ==> IsGradeText(r.value)
  {
    if i < |s| && s[i] == '/' then
      var j := RunEnd(s, i + 1, IsRegexSpace);
      if OccursAt(s, GradeMarker, j) then
        var k := RunEnd(s, j + |GradeMarker|, IsRegexSpace);
        var e := RunEnd(s, k, IsGradeChar);
        if k < e then Some(s[k..e]) else None
      else None
    else None
  }

  /** `FindStringSubmatch` from position `i`: the capture of the leftmost match. */
  function FindGrade(s: string, i: nat): (r: Option<string>)
    requires i <= |s|
    ensures r.Some? ==> IsGradeText(r.value)
    decreases |s| - i
  {
    if i == |s| then None
    else if GradeAt(s, i).Some? then GradeAt(s, i)
    else FindGrade(s, i + 1)
  }

  /** `ParseGradeFromNotes`: the class token after "/ 資工系", or "未知". */
  function ParseGradeFromNotes(notes: string): (grade: string)
    ensures grade == Unknown || IsGradeText(grade)
  {
    match FindGrade(notes, 0)
    case Some(capture) => TrimSpace(capture)
    case None => Unknown
  }

  /** The sentinel is never mistaken for a class token. */
  lemma {:induction false} UnknownIsNotGradeText()
    ensures !IsGradeText(Unknown)
  {
    assert !IsGradeChar(Unknown[0]);
  }

  /** A run found by `RunEnd` is the only maximal run from `i`. */
  lemma {:induction false} RunEndIs(s: string, i: nat, inClass: char -> bool, e: nat)
    requires i <= e <= |s|
    requires forall k :: i <= k < e ==> inClass(s[k])
    requires e == |s| || !inClass(s[e])
    ensures RunEnd(s, i, inClass) == e
  {
  }

  /** What `GradeAt` captures is a match of the pattern, with the capture as long as possible. */
  lemma {:induction false} GradeAtIsMatch(s: string, i: nat)
    requires GradeAt(s, i).Some?
    ensures exists j: nat, k: nat, e: nat :: GradeMatch(s, i, j, k, e) && GradeAt(s, i).value == s[k..e]
                               && (e == |s| || !IsGradeChar(s[e]))
  {
    var j := RunEnd(s, i + 1, IsRegexSpace);
    var k := RunEnd(s, j + |GradeMarker|, IsRegexSpace);
    var e := RunEnd(s, k, IsGradeChar);
    assert GradeMatch(s, i, j, k, e);
  }

  /** The marker does not start with a space. */
  lemma {:induction false} MarkerIsNotSpace(s: string, j: nat)
    requires OccursAt(s, GradeMarker, j)
    ensures j < |s| && !IsRegexSpace(s[j])
  {
    assert s[j..j + |GradeMarker|][0] == s[j];
  }

  /** Where the pattern matches, the two runs of spaces end where the match says. */
  lemma {:induction false} MatchedSpaces(s: string, i: nat, j: nat, k: nat, e: nat)
    requires GradeMatch(s, i, j, k, e)
    ensures RunEnd(s, i + 1, IsRegexSpace) == j
    ensures RunEnd(s, j + |GradeMarker|, IsRegexSpace) == k
  {
    MarkerIsNotSpace(s, j);
    RunEndIs(s, i + 1, IsRegexSpace, j);
    RunEndIs(s, j + |GradeMarker|, IsRegexSpace, k);
  }

  /** Wherever the pattern matches, `GradeAt` captures at least the matched class token. */
  lemma {:induction false} MatchIsFoundByGradeAt(s: string, i: nat, j: nat, k: nat, e: nat)
    requires GradeMatch(s, i, j, k, e)
    ensures GradeAt(s, i).Some? && s[k..e] <= GradeAt(s, i).value
  {
    MatchedSpaces(s, i, j, k, e);
    var e' := RunEnd(s, k, IsGradeChar);
    assert e <= e';
    assert GradeAt(s, i) == Some(s[k..e']);
    assert s[k..e] == s[k..e'][..e - k];
  }

  /** A match whose class token cannot be extended is exactly what `GradeAt` captures. */
  lemma {:induction false} MaximalMatchIsCaptured(s: string, i: nat, j: nat, k: nat, e: nat)
    requires GradeMatch(s, i, j, k, e) && (e == |s| || !IsGradeChar(s[e]))
    ensures GradeAt(s, i) == Some(s[k..e])
  {
    MatchedSpaces(s, i, j, k, e);
    RunEndIs(s, k, IsGradeChar, e);
  }

  /** `FindGrade` finds nothing exactly when no position from `i` on starts a match. */
  lemma {:induction false} FindGradeMissesOnlyWithoutMatch(s: string, i: nat)
    requires i <= |s|
    ensures FindGrade(s, i).None? <==> forall p :: i <= p < |s| ==> GradeAt(s, p).None?
    decreases |s| - i
  {
    if i < |s| {
      if GradeAt(s, i).None? {
        FindGradeMissesOnlyWithoutMatch(s, i + 1);
        assert FindGrade(s, i) == FindGrade(s, i + 1);
      } else {
        assert FindGrade(s, i) == GradeAt(s, i);
      }
    }
  }

  /** `FindGrade` returns the capture at the leftmost position where `GradeAt` succeeds. */
  lemma {:induction false} FindGradeIsLeftmost(s: string, i: nat) returns (p: nat)
    requires i <= |s| && FindGrade(s, i).Some?
    ensures i <= p < |s| && GradeAt(s, p) == FindGrade(s, i)
    ensures forall m :: i <= m < p ==> GradeAt(s, m).None?
    decreases |s| - i
  {
    if GradeAt(s, i).Some? {
      p := i;
    } else {
      p := FindGradeIsLeftmost(s, i + 1);
    }
  }

  /** Positions without a '/' are skipped over by the scan. */
  lemma {:induction false} FindGradeSkips(s: string, i: nat, j: nat)
    requires i <= j <= |s|
    requires forall m :: i <= m < j ==> s[m] != '/'
    ensures FindGrade(s, i) == FindGrade(s, j)
    decreases j - i
  {
    if i < j {
      FindGradeSkips(s, i + 1, j);
    }
  }

  /** The scan stops at the first '/' when a match starts there. */
  lemma {:induction false} FirstSlashDecides(s: string, p: nat)
    requires p <= |s| && forall m :: 0 <= m < p ==> s[m] != '/'
    ensures p < |s| && GradeAt(s, p).Some? ==> FindGrade(s, 0) == GradeAt(s, p)
  {
    FindGradeSkips(s, 0, p);
  }

  /** A class token holds no white space, so trimming leaves it as it is. */
  lemma {:induction false} GradeTextIsTrimmed(g: string)
    requires IsGradeText(g)
    ensures TrimSpace(g) == g
  {
    assert IsGradeChar(g[0]) && IsGradeChar(g[|g| - 1]);
  }

  /** Wherever the pattern matches, the grade is not "未知". */
  lemma {:induction false} MatchGivesGrade(notes: string, i: nat, j: nat, k: nat, e: nat)
    requires GradeMatch(notes, i, j, k, e)
    ensures ParseGradeFromNotes(notes) != Unknown
  {
    MatchIsFoundByGradeAt(notes, i, j, k, e);
    FindGradeMissesOnlyWithoutMatch(notes, 0);
    UnknownIsNotGradeText();
  }

  /** A grade other than "未知" comes from a match of the pattern. */
  lemma {:induction false} GradeComesFromMatch(notes: string)
    requires ParseGradeFromNotes(notes) != Unknown
    ensures exists i: nat, j: nat, k: nat, e: nat :: GradeMatch(notes, i, j, k, e)
  {
    assert FindGrade(notes, 0).Some?;
    var p := FindGradeIsLeftmost(notes, 0);
    GradeAtIsMatch(notes, p);
  }

  /** Whatever the scan captures is the grade, as it is. */
  lemma {:induction false} ParseGradeIsCapture(notes: string)
    requires FindGrade(notes, 0).Some?
    ensures ParseGradeFromNotes(notes) == FindGrade(notes, 0).value
  {
    GradeTextIsTrimmed(FindGrade(notes, 0).value);
  }

  /** The grade is "未知" exactly when the pattern matches nowhere in the notes. */
  lemma {:induction false} ParseGradeUnknownIffNoMatch(notes: string)
    ensures ParseGradeFromNotes(notes) == Unknown <==>
      !exists i: nat, j: nat, k: nat, e: nat :: GradeMatch(notes, i, j, k, e)
  {
    if exists i: nat, j: nat, k: nat, e: nat :: GradeMatch(notes, i, j, k, e) {
      var i: nat, j: nat, k: nat, e: nat :| GradeMatch(notes, i, j, k, e);
      MatchGivesGrade(notes, i, j, k, e);
    }
    if ParseGradeFromNotes(notes) != Unknown {
      GradeComesFromMatch(notes);
    }
  }

  /**
   * A grade other than "未知" is the whole `[A-Z0-9,]` run captured at the
   * leftmost position where the pattern matches.
   */
  lemma {:induction false} ParseGradeIsLeftmostCapture(notes: string) returns (p: nat)
    requires ParseGradeFromNotes(notes) != Unknown
    ensures p < |notes| && GradeAt(notes, p) == Some(ParseGradeFromNotes(notes))
    ensures forall m :: 0 <= m < p ==> GradeAt(notes, m).None?
  {
    p := FindGradeIsLeftmost(notes, 0);
    GradeTextIsTrimmed(FindGrade(notes, 0).value);
  }

  /** A match needs a '/' at its start and the department marker after it. */
  lemma {:induction false} GradeAtNeedsSlashAndMarker(s: string, p: nat)
    ensures GradeAt(s, p).Some? ==> '/' in s && Contains(s, GradeMarker)
  {
    if GradeAt(s, p).Some? {
      var j := RunEnd(s, p + 1, IsRegexSpace);
      assert OccursAt(s, GradeMarker, j);
    }
  }

  /** Without the department marker, or without a '/', the grade is "未知". */
  lemma {:induction false} NoMarkerMeansUnknown(notes: string)
    requires !Contains(notes, GradeMarker) || '/' !in notes
    ensures ParseGradeFromNotes(notes) == Unknown
  {
    forall p | 0 <= p < |notes| ensures GradeAt(notes, p).None? {
      GradeAtNeedsSlashAndMarker(notes, p);
    }
    FindGradeMissesOnlyWithoutMatch(notes, 0);
  }

  // ---------------------------------------------------------------------------
  // Split_course_type_and_name
  // ---------------------------------------------------------------------------

  /**
   * `Split_course_type_and_name`: the text before the first '-' is the type;
   * the second '-'-separated piece, cut at its first space, is the name.
   */
  function SplitCourseTypeAndName(title: string): (r: (string, string))
    ensures '-' !in r.0 && |r.0| + |r.1| <= |title| + |Unknown|
    ensures '-' in title ==> |r.0| + 1 + |r.1| <= |title| && '-' !in r.1 && ' ' !in r.1
  {
    ContainsChar(title, '-');
    assert "-" == ['-'];
    if !Contains(title, "-") then (Unknown, title)
    else
      var parts := Split(title, "-");
      TitleTypePiece(title);
      TitleSecondPiece(title);
      FirstWordOfPiece(parts[1]);
      (parts[0], Split(parts[1], " ")[0])
  }

  /** The first piece of a split at a single character: the prefix before its first occurrence. */
  lemma {:induction false} SplitAtChar(s: string, c: char)
    ensures var p := Split(s, [c])[0];
      |p| <= |s| && s[..|p|] == p && c !in p && (|p| == |s| || s[|p|] == c)
    ensures |Split(s, [c])| >= 2 ==> c in s
  {
    SplitFirstPiece(s, [c]);
    var p := Split(s, [c])[0];
    ContainsChar(p, c);
    if |p| < |s| {
      assert s[|p|..|p| + 1] == [c];
    }
    if |Split(s, [c])| >= 2 {
      assert s[|p|] in s;
    }
  }

  /** The first '-'-separated piece of a title that holds a '-': the text before the first '-'. */
  lemma {:induction false} TitleTypePiece(title: string)
    requires '-' in title
    ensures var parts := Split(title, "-"); var k := |parts[0]|;
      |parts| >= 2 && k < |title| && title[..k] == parts[0] && title[k] == '-' && '-' !in parts[0]
  {
    ContainsChar(title, '-');
    SplitSecondPiece(title, "-");
    SplitAtChar(title, '-');
  }

  /** The second piece of a split at `c`: what follows the first `c`, up to the next one or the end. */
  lemma {:induction false} SecondPieceAtChar(s: string, c: char)
    requires c in s
    ensures |Split(s, [c])| >= 2
    ensures var parts := Split(s, [c]); var k := |parts[0]|; var piece := parts[1];
      && k + 1 + |piece| <= |s| && s[k + 1..k + 1 + |piece|] == piece && c !in piece
      && (k + 1 + |piece| == |s| || s[k + 1 + |piece|] == c)
  {
    ContainsChar(s, c);
    SplitSecondPiece(s, [c]);
    var parts := Split(s, [c]);
    var k := |parts[0]|;
    PieceOfSuffix(s, k + 1, c);
  }

  /** The first piece of the suffix of `s` from `a`, placed back in `s`. */
  lemma {:induction false} PieceOfSuffix(s: string, a: nat, c: char)
    requires a <= |s|
    ensures var piece := Split(s[a..], [c])[0];
      && a + |piece| <= |s| && s[a..a + |piece|] == piece && c !in piece
      && (a + |piece| == |s| || s[a + |piece|] == c)
  {
    var piece := Split(s[a..], [c])[0];
    SplitAtChar(s[a..], c);
    SliceOfSuffix(s, a, |piece|);
  }

  /** A slice of `s` read inside the suffix that starts where it does. */
  lemma {:induction false} SliceOfSuffix(s: string, a: nat, n: nat)
    requires a + n <= |s|
    ensures s[a..a + n] == s[a..][..n]
    ensures a + n < |s| ==> s[a + n] == s[a..][n]
  {
  }

  /** The second '-'-separated piece: what follows the first '-', up to the next one or the end. */
  lemma {:induction false} TitleSecondPiece(title: string)
    requires '-' in title
    ensures |Split(title, "-")| >= 2
    ensures var parts := Split(title, "-"); var k := |parts[0]|; var piece := parts[1];
      && k + 1 + |piece| <= |title| && title[k + 1..k + 1 + |piece|] == piece && '-' !in piece
      && (k + 1 + |piece| == |title| || title[k + 1 + |piece|] == '-')
  {
    assert "-" == ['-'];
    SecondPieceAtChar(title, '-');
  }

  /** The first word of a piece: the text before its first space. */
  lemma {:induction false} FirstWordOfPiece(piece: string)
    requires '-' !in piece
    ensures var name := Split(piece, " ")[0];
      |name| <= |piece| && piece[..|name|] == name && '-' !in name && ' ' !in name
      && (|name| == |piece| || piece[|name|] == ' ')
  {
    SplitAtChar(piece, ' ');
    var name := Split(piece, " ")[0];
    forall m | 0 <= m < |name| ensures name[m] != '-' {
      assert name[m] == piece[m];
    }
  }

  /** Without a '-' the title is the name and the type is "未知". */
  lemma {:induction false} SplitCourseTypeAndNameWithoutDash(title: string)
    requires '-' !in title
    ensures SplitCourseTypeAndName(title) == (Unknown, title)
  {
    ContainsChar(title, '-');
  }

  /**
   * With a '-', the type is everything before the first '-', and the name is
   * what follows it up to the next '-', the first space or the end of the title.
   */
  lemma {:induction false} SplitCourseTypeAndNameSplitsAtFirstDash(title: string)
    requires '-' in title
    ensures var (courseType, name) := SplitCourseTypeAndName(title);
      var start := |courseType| + 1;
      && start + |name| <= |title|
      && title[..|courseType|] == courseType && title[|courseType|] == '-' && '-' !in courseType
      && title[start..start + |name|] == name && '-' !in name && ' ' !in name
      && (start + |name| == |title| || title[start + |name|] == '-' || title[start + |name|] == ' ')
  {
    ContainsChar(title, '-');
    TitleTypePiece(title);
    TitleSecondPiece(title);
    var parts := Split(title, "-");
    var k := |parts[0]|;
    var piece := parts[1];
    FirstWordOfPiece(piece);
    var name := Split(piece, " ")[0];
    assert SplitCourseTypeAndName(title) == (parts[0], name);
    PrefixOfPiece(title, k + 1, piece, name);
  }

  /** A prefix `name` of the piece placed at `a` in `title` sits at `a` too, ending where the piece does or at a space. */
  lemma {:induction false} PrefixOfPiece(title: string, a: nat, piece: string, name: string)
    requires a + |piece| <= |title| && title[a..a + |piece|] == piece
    requires a + |piece| == |title| || title[a + |piece|] == '-'
    requires |name| <= |piece| && piece[..|name|] == name && (|name| == |piece| || piece[|name|] == ' ')
    ensures title[a..a + |name|] == name
    ensures a + |name| == |title| || title[a + |name|] == '-' || title[a + |name|] == ' '
  {
    assert title[a..a + |name|] == title[a..a + |piece|][..|name|];
    if |name| < |piece| {
      assert title[a + |name|] == piece[|name|];
    }
  }

  /** The type is the text before the first '-'. */
  lemma {:induction false} CourseTypeEndsAtFirstDash(title: string, k: nat)
    requires k < |title| && title[k] == '-' && forall m :: 0 <= m < k ==> title[m] != '-'
    ensures SplitCourseTypeAndName(title).0 == title[..k]
  {
    assert '-' in title;
    SplitCourseTypeAndNameSplitsAtFirstDash(title);
    var t := SplitCourseTypeAndName(title).0;
    forall m | 0 <= m < |t| ensures NotDash(title[m]) {
      assert title[m] == t[m];
    }
    RunEndIs(title, 0, NotDash, |t|);
    RunEndIs(title, 0, NotDash, k);
  }

  predicate NotDash(c: char) {
    c != '-'
  }

  /** Where the name sits in a title whose first '-' is at `k`. */
  lemma {:induction false} NameAfterFirstDash(title: string, k: nat)
    requires k < |title| && title[k] == '-' && forall m :: 0 <= m < k ==> title[m] != '-'
    ensures var n := SplitCourseTypeAndName(title).1;
      && k + 1 + |n| <= |title| && title[k + 1..k + 1 + |n|] == n
      && (forall m :: k + 1 <= m < k + 1 + |n| ==> title[m] != '-' && title[m] != ' ')
      && (k + 1 + |n| == |title| || title[k + 1 + |n|] == '-' || title[k + 1 + |n|] == ' ')
  {
    var n := SplitCourseTypeAndName(title).1;
    CourseTypeEndsAtFirstDash(title, k);
    SplitCourseTypeAndNameSplitsAtFirstDash(title);
    forall m | k + 1 <= m < k + 1 + |n|
      ensures title[m] != '-' && title[m] != ' '
    {
      assert title[m] == n[m - k - 1];
    }
  }

  /** The name is the text after the first '-' up to the next '-', space or end. */
  lemma {:induction false} CourseNameIsFirstWord(title: string, k: nat, e: nat)
    requires k < |title| && k + 1 <= e <= |title|
    requires title[k] == '-' && forall m :: 0 <= m < k ==> title[m] != '-'
    requires forall m :: k + 1 <= m < e ==> title[m] != '-' && title[m] != ' '
    requires e == |title| || title[e] == '-' || title[e] == ' '
    ensures SplitCourseTypeAndName(title).1 == title[k + 1..e]
  {
    NameAfterFirstDash(title, k);
    WordEndsAt(title, k + 1, e, SplitCourseTypeAndName(title).1);
  }

  /** Two runs of name characters from the same start that both end at a '-', a space or the end are equal. */
  lemma {:induction false} WordEndsAt(title: string, a: nat, e: nat, n: string)
    requires a <= e <= |title|
    requires forall m :: a <= m < e ==> title[m] != '-' && title[m] != ' '
    requires e == |title| || title[e] == '-' || title[e] == ' '
    requires a + |n| <= |title| && title[a..a + |n|] == n
    requires forall m :: a <= m < a + |n| ==> title[m] != '-' && title[m] != ' '
    requires a + |n| == |title| || title[a + |n|] == '-' || title[a + |n|] == ' '
    ensures n == title[a..e]
  {
    RunEndIs(title, a, InName, a + |n|);
    RunEndIs(title, a, InName, e);
  }

  /** The characters a course name runs over: anything but '-' and a space. */
  predicate InName(c: char) {
    c != '-' && c != ' '
  }

  /**
   * The split recovers a type and a name joined by '-', whatever follows the
   * name from a space or a further '-' on.
   */
  lemma {:induction false} SplitCourseTypeAndNameRecoversParts(courseType: string, name: string, rest: string)
    requires '-' !in courseType && '-' !in name && ' ' !in name
    requires rest == [] || rest[0] == ' ' || rest[0] == '-'
    ensures SplitCourseTypeAndName(courseType + "-" + name + rest) == (courseType, name)
  {
    var title := courseType + "-" + name + rest;
    var k := |courseType|;
    var e := k + 1 + |name|;
    forall m | 0 <= m < k ensures title[m] != '-' {
      assert title[m] == courseType[m];
    }
    forall m | k + 1 <= m < e ensures title[m] != '-' && title[m] != ' ' {
      assert title[m] == name[m - k - 1];
    }
    assert e < |title| ==> title[e] == rest[0];
    CourseTypeEndsAtFirstDash(title, k);
    CourseNameIsFirstWord(title, k, e);
    assert title[..k] == courseType && title[k + 1..e] == name;
  }

  // ---------------------------------------------------------------------------
  // The cases exercised by the repository's own tests
  // ---------------------------------------------------------------------------

  /** Three periods on one day. */
  lemma {:induction false} PeriodsOfOneDay(c: string)
    requires c == "星期二/6,7,8"
    ensures CountDigitRuns(c, 0) == 3
  {
    assert CountDigitRuns(c, 9) == 0;
    RunEndIs(c, 8, IsDigit, 9);
    assert CountDigitRuns(c, 8) == 1;
    assert CountDigitRuns(c, 7) == 1;
    RunEndIs(c, 6, IsDigit, 7);
    assert CountDigitRuns(c, 6) == 2;
    assert CountDigitRuns(c, 5) == 2;
    RunEndIs(c, 4, IsDigit, 5);
    assert CountDigitRuns(c, 4) == 3;
    assert CountDigitRuns(c, 3) == 3;
    assert CountDigitRuns(c, 2) == 3;
    assert CountDigitRuns(c, 1) == 3;
  }

  /** Two days, four periods in all. */
  lemma {:induction false} PeriodsOfTwoDays(c: string)
    requires c == "星期二/9,三/9 星期一/1,2"
    ensures CountDigitRuns(c, 0) == 4
  {
    assert CountDigitRuns(c, 17) == 0;
    RunEndIs(c, 16, IsDigit, 17);
    assert CountDigitRuns(c, 16) == 1;
    assert CountDigitRuns(c, 15) == 1;
    RunEndIs(c, 14, IsDigit, 15);
    assert CountDigitRuns(c, 14) == 2;
    assert CountDigitRuns(c, 13) == 2;
    assert CountDigitRuns(c, 12) == 2;
    assert CountDigitRuns(c, 11) == 2;
    assert CountDigitRuns(c, 10) == 2;
    assert CountDigitRuns(c, 9) == 2;
    RunEndIs(c, 8, IsDigit, 9);
    assert CountDigitRuns(c, 8) == 3;
    assert CountDigitRuns(c, 7) == 3;
    assert CountDigitRuns(c, 6) == 3;
    assert CountDigitRuns(c, 5) == 3;
    RunEndIs(c, 4, IsDigit, 5);
    assert CountDigitRuns(c, 4) == 4;
    assert CountDigitRuns(c, 3) == 4;
    assert CountDigitRuns(c, 2) == 4;
    assert CountDigitRuns(c, 1) == 4;
  }

  /** Three periods, no room given. */
  lemma {:induction false} PeriodsWithoutRoom(c: string)
    requires c == "一/1,2,3"
    ensures CountDigitRuns(c, 0) == 3
  {
    assert CountDigitRuns(c, 7) == 0;
    RunEndIs(c, 6, IsDigit, 7);
    assert CountDigitRuns(c, 6) == 1;
    assert CountDigitRuns(c, 5) == 1;
    RunEndIs(c, 4, IsDigit, 5);
    assert CountDigitRuns(c, 4) == 2;
    assert CountDigitRuns(c, 3) == 2;
    RunEndIs(c, 2, IsDigit, 3);
    assert CountDigitRuns(c, 2) == 3;
    assert CountDigitRuns(c, 1) == 3;
  }

  lemma {:induction false} HoursOfOneDay(periods: string, room: string)
    requires periods == "星期二/6,7,8" && room == "C118"
    ensures CalculateHours(periods + "[" + room + "]") == 3
  {
    var timeStr := periods + "[" + room + "]";
    assert '無' !in timeStr;
    NotContainedWithoutFirstChar(timeStr, NoData);
    assert timeStr == periods + ['['] + room + [']'] + "";
    NoOpenIsUnclosed(periods, '[', ']');
    RemoveSpansDeletesFirstSpan(periods, room, "", '[', ']');
    assert RemoveSpans(timeStr, '[', ']', 0) == periods + RemoveSpans("", '[', ']', 0);
    assert RemoveSpans(timeStr, '[', ']', 0) == periods;
    PeriodsOfOneDay(periods);
    assert CalculateHours(timeStr) == CountDigitRuns(periods, 0);
  }

  lemma {:induction false} HoursOfTwoDays(periods1: string, room1: string, periods2: string, room2: string)
    requires periods1 == "星期二/9,三/9" && room1 == "H307" && periods2 == " 星期一/1,2" && room2 == "H308"
    ensures CalculateHours(periods1 + "[" + room1 + "]" + periods2 + "[" + room2 + "]") == 4
  {
    var second := periods2 + ['['] + room2 + [']'] + "";
    var timeStr := periods1 + "[" + room1 + "]" + periods2 + "[" + room2 + "]";
    assert '無' !in timeStr;
    NotContainedWithoutFirstChar(timeStr, NoData);
    assert timeStr == periods1 + ['['] + room1 + [']'] + second;
    NoOpenIsUnclosed(periods1, '[', ']');
    RemoveSpansDeletesFirstSpan(periods1, room1, second, '[', ']');
    NoOpenIsUnclosed(periods2, '[', ']');
    RemoveSpansDeletesFirstSpan(periods2, room2, "", '[', ']');
    assert RemoveSpans(second, '[', ']', 0) == periods2 + RemoveSpans("", '[', ']', 0) == periods2;
    assert RemoveSpans(timeStr, '[', ']', 0) == periods1 + periods2;
    PeriodsOfTwoDays(periods1 + periods2);
    assert CalculateHours(timeStr) == CountDigitRuns(periods1 + periods2, 0);
  }

  lemma {:induction false} HoursWithoutRoom(timeStr: string)
    requires timeStr == "一/1,2,3"
    ensures CalculateHours(timeStr) == 3
  {
    NotContainedWithoutFirstChar(timeStr, NoData);
    RemoveSpansWithoutOpen(timeStr, '[', ']', 0);
    PeriodsWithoutRoom(timeStr);
  }

  lemma {:induction false} HoursOfRoomOnly(room: string)
    requires room == "ST436"
    ensures CalculateHours("[" + room + "]") == 0
  {
    var timeStr := "[" + room + "]";
    assert '無' !in timeStr;
    NotContainedWithoutFirstChar(timeStr, NoData);
    assert timeStr == [] + ['['] + room + [']'] + [];
    NoOpenIsUnclosed([], '[', ']');
    RemoveSpansDeletesFirstSpan([], room, [], '[', ']');
  }

  lemma {:induction false} HoursOfNoData(timeStr: string)
    requires timeStr == "無資料"
    ensures CalculateHours(timeStr) == 0
  {
    assert OccursAt(timeStr, NoData, 0);
  }

  lemma {:induction false} HoursOfEmptySchedule(timeStr: string)
    requires timeStr == ""
    ensures CalculateHours(timeStr) == 0
  {
  }

  /**
   * The shape of the notes in the class schedule: anything without a '/',
   * then "/", white space, "資工系", white space, the class token, and
   * anything that does not continue the token. The grade is that token
   * (e.g. "1A" in "28019 資訊工程學系  / 資工系1A<BR>", "2A,2B" in
   * "28240 資訊工程學系  / 資工系2A,2B<BR>2A、2B併班").
   */
  lemma {:induction false} GradeAfterMarker(head: string, gap1: string, gap2: string, token: string, tail: string)
    requires '/' !in head
    requires forall m :: 0 <= m < |gap1| ==> IsRegexSpace(gap1[m])
    requires forall m :: 0 <= m < |gap2| ==> IsRegexSpace(gap2[m])
    requires IsGradeText(token) && (tail == [] || !IsGradeChar(tail[0]))
    ensures ParseGradeFromNotes(head + "/" + gap1 + GradeMarker + gap2 + token + tail) == token
  {
    var notes := head + "/" + gap1 + GradeMarker + gap2 + token + tail;
    var i := |head|;
    var j := i + 1 + |gap1|;
    var k := j + |GradeMarker| + |gap2|;
    var e := k + |token|;
    assert notes[k..e] == token && GradeMatch(notes, i, j, k, e) by {
      assert notes[i] == '/';
      assert notes[j..j + |GradeMarker|] == GradeMarker;
      assert forall m :: i < m < j ==> notes[m] == gap1[m - i - 1];
      assert forall m :: j + |GradeMarker| <= m < k ==> notes[m] == gap2[m - j - |GradeMarker|];
    }
    assert e == |notes| || !IsGradeChar(notes[e]) by {
      assert e < |notes| ==> notes[e] == tail[0];
    }
    MaximalMatchIsCaptured(notes, i, j, k, e);
    assert forall m :: 0 <= m < i ==> notes[m] != '/' by {
      assert forall m :: 0 <= m < i ==> notes[m] == head[m];
    }
    FirstSlashDecides(notes, i);
    ParseGradeIsCapture(notes);
  }

  /**
   * A graduate class is listed under "資工碩" rather than "資工系": with no
   * other '/' in the notes the grade is "未知" (e.g. for
   * "68001 資訊工程學系  / 資工碩2-4<BR>").
   */
  lemma {:induction false} GraduateClassIsUnknown(head: string, tail: string)
    requires '/' !in head && '/' !in tail
    ensures ParseGradeFromNotes(head + "/ 資工碩" + tail) == Unknown
  {
    var notes := head + "/ 資工碩" + tail;
    var i := |head|;
    assert notes[i] == '/' && notes[i + 1] == ' ' && notes[i + 4] == '碩';
    assert forall m :: 0 <= m < i ==> notes[m] == head[m];
    assert forall m :: i + 5 <= m < |notes| ==> notes[m] == tail[m - i - 5];
    FindGradeSkips(notes, 0, i);
    RunEndIs(notes, i + 1, IsRegexSpace, i + 2);
    assert notes[i + 2..i + 5][2] != GradeMarker[2];
    FindGradeSkips(notes, i + 1, |notes|);
  }

  lemma {:induction false} GradeWithoutMarkerIsUnknown(notes: string)
    requires notes == "這是一個沒有班級資訊的備註"
    ensures ParseGradeFromNotes(notes) == Unknown
  {
    NoMarkerMeansUnknown(notes);
  }

  lemma {:induction false} TitleWithEnglishName(courseType: string, name: string, english: string)
    requires courseType == "選修" && name == "這是中文課程" && english == " course name"
    ensures SplitCourseTypeAndName(courseType + "-" + name + english) == ("選修", "這是中文課程")
  {
    SplitCourseTypeAndNameRecoversParts(courseType, name, english);
  }

  lemma {:induction false} TitleWithoutEnglishName(courseType: string, name: string)
    requires courseType == "必修" && name == "資料結構"
    ensures SplitCourseTypeAndName(courseType + "-" + name) == ("必修", "資料結構")
  {
    assert courseType + "-" + name == courseType + "-" + name + [];
    SplitCourseTypeAndNameRecoversParts(courseType, name, []);
  }

  lemma {:induction false} TitleWithoutSeparator(title: string)
    requires title == "專題討論"
    ensures SplitCourseTypeAndName(title) == (Unknown, "專題討論")
  {
    SplitCourseTypeAndNameWithoutDash(title);
  }

  lemma {:induction false} EmptyTitle(title: string)
    requires title == ""
    ensures SplitCourseTypeAndName(title) == (Unknown, "")
  {
    SplitCourseTypeAndNameWithoutDash(title);
  }
}
