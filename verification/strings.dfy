/**
 * The functions of Go's `strings` package that the pipeline calls, on strings
 * of Unicode code points (Go works on UTF-8 bytes; for valid text the two agree).
 */
module Strings {
  import opened Wrappers

  /** Go's `unicode.IsSpace`: the Latin-1 spaces and the White_Space property. */
  predicate IsSpace(c: char) {
    || c == '\t' || c == '\n' || c == '\U{0B}' || c == '\U{0C}' || c == '\r' || c == ' '
    || c == '\U{85}' || c == '\U{A0}' || c == '\U{1680}'
    || ('\U{2000}' <= c <= '\U{200A}')
    || c == '\U{2028}' || c == '\U{2029}' || c == '\U{202F}' || c == '\U{205F}' || c == '\U{3000}'
  }

  /** The first index at or after `i` that is not a space. */
  function SkipSpaces(s: string, i: nat): (j: nat)
    requires i <= |s|
    ensures i <= j <= |s|
    ensures forall k :: i <= k < j ==> IsSpace(s[k])
    ensures j < |s| ==> !IsSpace(s[j])
    decreases |s| - i
  {
    if i < |s| && IsSpace(s[i]) then SkipSpaces(s, i + 1) else i
  }

  /** The end of `s[lo..j]` once its trailing spaces are dropped. */
  function DropTrailingSpaces(s: string, lo: nat, j: nat): (e: nat)
    requires lo <= j <= |s|
    ensures lo <= e <= j
    ensures forall k :: e <= k < j ==> IsSpace(s[k])
    ensures e > lo ==> !IsSpace(s[e - 1])
    decreases j
  {
    if j > lo && IsSpace(s[j - 1]) then DropTrailingSpaces(s, lo, j - 1) else j
  }

  /** `strings.TrimSpace`: `s` without its leading and trailing white space. */
  function TrimSpace(s: string): (r: string)
    ensures exists a, b :: (0 <= a <= b <= |s| && r == s[a..b] &&
      (forall k :: 0 <= k < a ==> IsSpace(s[k])) && (forall k :: b <= k < |s| ==> IsSpace(s[k])))
    ensures |r| <= |s|
    ensures r == [] || (!IsSpace(r[0]) && !IsSpace(r[|r| - 1]))
    ensures s == [] || (!IsSpace(s[0]) && !IsSpace(s[|s| - 1])) ==> r == s
    ensures (forall k :: 0 <= k < |s| ==> IsSpace(s[k])) ==> r == []
  {
    var a := SkipSpaces(s, 0);
    var b := DropTrailingSpaces(s, a, |s|);
    assert forall k :: 0 <= k < a ==> IsSpace(s[k]);
    s[a..b]
  }

  /** Whether `sub` occurs in `s` at position `i`. */
  predicate OccursAt(s: string, sub: string, i: nat) {
    i + |sub| <= |s| && s[i..i + |sub|] == sub
  }

  /** The leftmost occurrence of `sub` in `s` at or after `i` (`strings.Index` from `i`). */
  function IndexFrom(s: string, sub: string, i: nat): (r: Option<nat>)
    ensures r.Some? ==> i <= r.value && OccursAt(s, sub, r.value)
    ensures r.Some? ==> forall k :: i <= k < r.value ==> !OccursAt(s, sub, k)
    ensures r.None? ==> forall k :: i <= k ==> !OccursAt(s, sub, k)
    decreases |s| - i
  {
    if i + |sub| > |s| then None
    else if s[i..i + |sub|] == sub then Some(i)
    else IndexFrom(s, sub, i + 1)
  }

  /** `strings.Contains` (and `strings.Index(s, sub) != -1`). */
  predicate Contains(s: string, sub: string) {
    IndexFrom(s, sub, 0).Some?
  }

  /** A one-character pattern occurs exactly when the character does. */
  lemma {:induction false} ContainsChar(s: string, c: char)
    ensures Contains(s, [c]) <==> c in s
  {
    if c in s {
      var k :| 0 <= k < |s| && s[k] == c;
      assert OccursAt(s, [c], k);
    }
    if Contains(s, [c]) {
      var k := IndexFrom(s, [c], 0).value;
      assert s[k..k + 1][0] == s[k];
    }
  }

  /** `strings.ReplaceAll(s[i..], pat, rep)`: non-overlapping occurrences, left to right. */
  function ReplaceAllFrom(s: string, pat: string, rep: string, i: nat): (r: string)
    requires pat != [] && i <= |s|
    decreases |s| - i
  {
    if i == |s| then []
    else if OccursAt(s, pat, i) then rep + ReplaceAllFrom(s, pat, rep, i + |pat|)
    else [s[i]] + ReplaceAllFrom(s, pat, rep, i + 1)
  }

  /** `strings.ReplaceAll`. */
  function ReplaceAll(s: string, pat: string, rep: string): (r: string)
    requires pat != []
    ensures !Contains(s, pat) ==> r == s
  {
    if Contains(s, pat) then ReplaceAllFrom(s, pat, rep, 0)
    else
      ReplaceAllFromNoMatch(s, pat, rep, 0);
      ReplaceAllFrom(s, pat, rep, 0)
  }

  /** Where `pat` no longer occurs, the rest of the text is copied. */
  lemma {:induction false} ReplaceAllFromNoMatch(s: string, pat: string, rep: string, i: nat)
    requires pat != [] && i <= |s|
    requires forall k :: i <= k ==> !OccursAt(s, pat, k)
    ensures ReplaceAllFrom(s, pat, rep, i) == s[i..]
    decreases |s| - i
  {
    if i < |s| {
      ReplaceAllFromNoMatch(s, pat, rep, i + 1);
      assert s[i..] == [s[i]] + s[i + 1..];
    }
  }

  /** Text before the first occurrence is copied, the occurrence replaced, and the scan goes on after it. */
  lemma {:induction false} ReplaceAllFromAt(s: string, pat: string, rep: string, i: nat, k: nat)
    requires pat != [] && i <= k && OccursAt(s, pat, k)
    requires forall m :: i <= m < k ==> !OccursAt(s, pat, m)
    ensures ReplaceAllFrom(s, pat, rep, i) == s[i..k] + rep + ReplaceAllFrom(s, pat, rep, k + |pat|)
    decreases k - i
  {
    var rest := ReplaceAllFrom(s, pat, rep, k + |pat|);
    if i < k {
      ReplaceAllFromAt(s, pat, rep, i + 1, k);
      CopyOneChar(s, pat, rep, i, i + 1);
      assert s[i..k] + rep + rest == [s[i]] + (s[i + 1..k] + rep + rest) by {
        assert s[i..k] == [s[i]] + s[i + 1..k];
      }
    } else {
      assert s[i..k] == [];
    }
  }

  /** A position where `pat` does not occur is copied. */
  lemma {:induction false} CopyOneChar(s: string, pat: string, rep: string, i: nat, j: nat)
    requires pat != [] && i < |s| && !OccursAt(s, pat, i) && j == i + 1
    ensures ReplaceAllFrom(s, pat, rep, i) == [s[i]] + ReplaceAllFrom(s, pat, rep, j)
  {
  }

  /** An occurrence of `pat` at `i` is replaced by `rep`. */
  lemma {:induction false} ReplaceOneOccurrence(s: string, pat: string, rep: string, i: nat, j: nat)
    requires pat != [] && OccursAt(s, pat, i) && j == i + |pat|
    ensures ReplaceAllFrom(s, pat, rep, i) == rep + ReplaceAllFrom(s, pat, rep, j)
  {
  }

  /** An occurrence in a suffix is an occurrence in the whole string, shifted. */
  lemma {:induction false} OccursInSuffix(s: string, pat: string, i: nat, m: nat)
    requires i <= |s|
    ensures OccursAt(s[i..], pat, m) <==> OccursAt(s, pat, i + m)
  {
    if i + m + |pat| <= |s| {
      assert s[i..][m..m + |pat|] == s[i + m..i + m + |pat|];
    }
  }

  /** Replacing from position `i` of `s` is replacing from position `i - n` of `s[n..]`. */
  lemma {:induction false} ReplaceAllFromShift(s: string, pat: string, rep: string, n: nat, i: nat)
    requires pat != [] && n <= i <= |s|
    ensures ReplaceAllFrom(s, pat, rep, i) == ReplaceAllFrom(s[n..], pat, rep, i - n)
    decreases |s| - i
  {
    if i < |s| {
      OccursInSuffix(s, pat, n, i - n);
      var occurs := OccursAt(s, pat, i);
      var next := if occurs then i + |pat| else i + 1;
      ReplaceAllFromShift(s, pat, rep, n, next);
      if occurs {
        ShiftAtOccurrence(s, pat, rep, n, i);
      } else {
        ShiftAtCopy(s, pat, rep, n, i);
      }
    }
  }

  /** The step of `ReplaceAllFromShift` at an occurrence. */
  lemma {:induction false} ShiftAtOccurrence(s: string, pat: string, rep: string, n: nat, i: nat)
    requires pat != [] && n <= i && OccursAt(s, pat, i) && OccursAt(s[n..], pat, i - n)
    requires ReplaceAllFrom(s, pat, rep, i + |pat|) == ReplaceAllFrom(s[n..], pat, rep, i + |pat| - n)
    ensures ReplaceAllFrom(s, pat, rep, i) == ReplaceAllFrom(s[n..], pat, rep, i - n)
  {
    ReplaceOneOccurrence(s, pat, rep, i, i + |pat|);
    ReplaceOneOccurrence(s[n..], pat, rep, i - n, i + |pat| - n);
  }

  /** The step of `ReplaceAllFromShift` at a copied character. */
  lemma {:induction false} ShiftAtCopy(s: string, pat: string, rep: string, n: nat, i: nat)
    requires pat != [] && n <= i < |s| && !OccursAt(s, pat, i) && !OccursAt(s[n..], pat, i - n)
    requires ReplaceAllFrom(s, pat, rep, i + 1) == ReplaceAllFrom(s[n..], pat, rep, i + 1 - n)
    ensures ReplaceAllFrom(s, pat, rep, i) == ReplaceAllFrom(s[n..], pat, rep, i - n)
  {
    CopyOneChar(s, pat, rep, i, i + 1);
    CopyOneChar(s[n..], pat, rep, i - n, i + 1 - n);
    assert s[n..][i - n] == s[i];
  }

  /** Splitting at the first occurrence and joining with `rep` puts `rep` where it was. */
  lemma {:induction false} JoinOfSplitAt(t: string, pat: string, rep: string, j: nat, after: string)
    requires pat != [] && j + |pat| <= |t| && IndexFrom(t, pat, 0) == Some(j) && after == t[j + |pat|..]
    ensures Join(Split(t, pat), rep) == t[..j] + rep + Join(Split(after, pat), rep)
  {
    SplitAtFirst(t, pat, j);
    var pieces := Split(after, pat);
    assert ([t[..j]] + pieces)[1..] == pieces;
  }

  /** `ReplaceAll` cuts `s` at every occurrence of `pat` and joins the pieces with `rep`. */
  lemma {:induction false} ReplaceAllIsJoinOfSplit(s: string, pat: string, rep: string)
    requires pat != []
    ensures ReplaceAll(s, pat, rep) == Join(Split(s, pat), rep)
    decreases |s|
  {
    if IndexFrom(s, pat, 0).None? {
      assert Split(s, pat) == [s];
    } else {
      var j := IndexFrom(s, pat, 0).value;
      var n := j + |pat|;
      ReplaceAllFromAt(s, pat, rep, 0, j);
      ReplaceAllFromShift(s, pat, rep, n, n);
      ReplaceAllIsJoinOfSplit(s[n..], pat, rep);
      JoinOfSplitAt(s, pat, rep, j, s[n..]);
      assert s[0..j] == s[..j];
    }
  }

  /** `strings.Join`: the parts with `sep` between each two of them. */
  function Join(parts: seq<string>, sep: string): string
    decreases |parts|
  {
    if parts == [] then ""
    else if |parts| == 1 then parts[0]
    else parts[0] + sep + Join(parts[1..], sep)
  }

  /** A character in neither the parts nor the separator is not in their join. */
  lemma {:induction false} JoinAvoidsChar(parts: seq<string>, sep: string, c: char)
    requires c !in sep && forall p :: p in parts ==> c !in p
    ensures c !in Join(parts, sep)
    decreases |parts|
  {
    if |parts| > 1 {
      assert parts[0] in parts;
      forall p | p in parts[1..] ensures c !in p {
        assert p in parts;
      }
      JoinAvoidsChar(parts[1..], sep, c);
    } else if |parts| == 1 {
      assert parts[0] in parts;
    }
  }

  /**
   * `strings.Split` for a non-empty separator: the pieces between the
   * occurrences of `sep`. Joining them back with `sep` gives `s` again.
   */
  function Split(s: string, sep: string): (parts: seq<string>)
    requires sep != []
    ensures |parts| >= 1
    ensures IndexFrom(s, sep, 0).None? ==> parts == [s]
    ensures IndexFrom(s, sep, 0).Some? ==> |parts| >= 2 && parts[0] == s[..IndexFrom(s, sep, 0).value]
    decreases |s|
  {
    match IndexFrom(s, sep, 0)
    case None => [s]
    case Some(k) => [s[..k]] + Split(s[k + |sep|..], sep)
  }

  /** Joining the pieces of a split with the separator gives back the string. */
  lemma {:induction false} SplitJoin(s: string, sep: string)
    requires sep != []
    ensures Join(Split(s, sep), sep) == s
    decreases |s|
  {
    match IndexFrom(s, sep, 0)
    case None =>
    case Some(k) =>
      SplitJoin(s[k + |sep|..], sep);
      assert s == s[..k] + sep + s[k + |sep|..];
  }

  /** No piece of a split contains the separator. */
  lemma {:induction false} SplitPiecesAvoidSep(s: string, sep: string)
    requires sep != []
    ensures forall p :: p in Split(s, sep) ==> !Contains(p, sep)
    decreases |s|
  {
    match IndexFrom(s, sep, 0)
    case None =>
    case Some(k) =>
      var head := s[..k];
      SplitPiecesAvoidSep(s[k + |sep|..], sep);
      forall j: nat ensures !OccursAt(head, sep, j) {
        if j + |sep| <= |head| {
          assert j < k && !OccursAt(s, sep, j);
          assert head[j..j + |sep|] == s[j..j + |sep|];
        }
      }
      assert !Contains(head, sep);
      assert Split(s, sep) == [head] + Split(s[k + |sep|..], sep);
  }

  /** The first piece of a split is the prefix of `s` up to the first separator, or all of `s`. */
  lemma {:induction false} SplitFirstPiece(s: string, sep: string)
    requires sep != []
    ensures var p := Split(s, sep)[0];
      |p| <= |s| && s[..|p|] == p && !Contains(p, sep) && (|p| == |s| || OccursAt(s, sep, |p|))
    ensures |Split(s, sep)| >= 2 ==> |Split(s, sep)[0]| < |s|
  {
    SplitPiecesAvoidSep(s, sep);
  }

  /** The second piece of a split is the first piece of what follows the first separator. */
  lemma {:induction false} SplitSecondPiece(s: string, sep: string)
    requires sep != [] && IndexFrom(s, sep, 0).Some?
    ensures var k := IndexFrom(s, sep, 0).value;
      && k + |sep| <= |s| && OccursAt(s, sep, k)
      && |Split(s, sep)| >= 2 && |Split(s, sep)[0]| == k
      && Split(s, sep)[1] == Split(s[k + |sep|..], sep)[0]
  {
    var k := IndexFrom(s, sep, 0).value;
    SplitAtFirst(s, sep, k);
  }

  /** Splitting cuts off the text before the first separator and goes on after it. */
  lemma {:induction false} SplitAtFirst(s: string, sep: string, k: nat)
    requires sep != [] && k + |sep| <= |s| && IndexFrom(s, sep, 0) == Some(k)
    ensures Split(s, sep) == [s[..k]] + Split(s[k + |sep|..], sep)
  {
  }

  /** A pattern whose first character is absent from `s` does not occur in it. */
  lemma {:induction false} NotContainedWithoutFirstChar(s: string, sub: string)
    requires sub != [] && sub[0] !in s
    ensures !Contains(s, sub)
  {
    forall k: nat ensures !OccursAt(s, sub, k) {
      if k + |sub| <= |s| {
        assert s[k..k + |sub|][0] == s[k];
      }
    }
  }

  /** What `TrimSpace` keeps is one contiguous piece of its input, found by the two scans. */
  lemma {:induction false} TrimSpaceIsSlice(s: string) returns (a: nat, b: nat)
    ensures a <= b <= |s| && TrimSpace(s) == s[a..b]
  {
    a := SkipSpaces(s, 0);
    b := DropTrailingSpaces(s, a, |s|);
  }

  /** The first occurrence from `i` on is found where it is when no earlier position holds its first character. */
  lemma {:induction false} IndexFromFirst(s: string, sub: string, i: nat, k: nat)
    requires sub != [] && i <= k && OccursAt(s, sub, k)
    requires forall m :: i <= m < k ==> s[m] != sub[0]
    ensures IndexFrom(s, sub, i) == Some(k)
    decreases k - i
  {
    if i < k && i + |sub| <= |s| {
      assert s[i..i + |sub|][0] == s[i];
      IndexFromFirst(s, sub, i + 1, k);
    }
  }

  /**
   * Splitting undoes joining with the same separator, as long as no part
   * contains the separator's first character.
   */
  lemma {:induction false} SplitUndoesJoin(parts: seq<string>, sep: string)
    requires sep != [] && parts != [] && forall p :: p in parts ==> sep[0] !in p
    ensures Split(Join(parts, sep), sep) == parts
    decreases |parts|
  {
    assert parts[0] in parts;
    if |parts| == 1 {
      NotContainedWithoutFirstChar(parts[0], sep);
    } else {
      var head := parts[0];
      var tail := Join(parts[1..], sep);
      var s := head + sep + tail;
      var k := |head|;
      assert Join(parts, sep) == s;
      assert s[k..k + |sep|] == sep;
      forall m | 0 <= m < k ensures s[m] != sep[0] {
        assert s[m] == head[m];
      }
      IndexFromFirst(s, sep, 0, k);
      assert s[..k] == head && s[k + |sep|..] == tail;
      forall p | p in parts[1..] ensures sep[0] !in p {
        assert p in parts;
      }
      SplitUndoesJoin(parts[1..], sep);
      SplitAtFirst(s, sep, k);
      assert parts == [head] + parts[1..];
    }
  }
}
