/** The Option type used for JavaScript values that may be `undefined` or `null`. */
module Wrappers {
  datatype Option<+T> = None | Some(value: T)
}

/**
 * The string operations the extension performs on editor lines and paths:
 * a literal substring test, `s.split(sep).pop()` and `s.trim()`.
 */
module Text {
  import opened Wrappers

  /** `sep` occurs in `s` starting at index `i`. */
  predicate OccursAt(s: string, sep: string, i: int)
  {
    0 <= i && i + |sep| <= |s| && s[i..i + |sep|] == sep
  }

  /** A literal substring test: `s.match(sep)` for a pattern free of regular-expression metacharacters. */
  predicate Contains(s: string, sep: string)
    ensures Contains(s, sep) <==> FindFrom(s, sep, 0).Some?
  {
    exists i :: 0 <= i <= |s| - |sep| && OccursAt(s, sep, i)
  }

  /** The leftmost occurrence of `sep` in `s` at or after index `k`, as a left-to-right scan finds it. */
  function FindFrom(s: string, sep: string, k: nat): (r: Option<nat>)
    ensures r.Some? ==> k <= r.value && OccursAt(s, sep, r.value)
    ensures r.Some? ==> forall i :: k <= i < r.value ==> !OccursAt(s, sep, i)
    ensures r.None? ==> forall i :: k <= i ==> !OccursAt(s, sep, i)
    decreases |s| - k
  {
    if k + |sep| > |s| then None
    else if OccursAt(s, sep, k) then Some(k)
    else FindFrom(s, sep, k + 1)
  }

  /** An occurrence in a slice is an occurrence in the whole string, shifted by the slice's start. */
  lemma SliceOccurrence(s: string, sep: string, a: int, b: int)
    requires 0 <= a <= b <= |s|
    ensures forall i :: OccursAt(s[a..b], sep, i) ==> OccursAt(s, sep, a + i)
  {
    forall i | OccursAt(s[a..b], sep, i) ensures OccursAt(s, sep, a + i) {
      var inSlice, inWhole := s[a..b][i..i + |sep|], s[a + i..a + i + |sep|];
      forall k | 0 <= k < |sep| ensures inSlice[k] == inWhole[k] {}
      assert inSlice == inWhole;
    }
  }

  /** A slice of `s` that starts at or after every occurrence of `sep` in `s` holds no `sep`. */
  lemma SliceAfterOccurrences(s: string, sep: string, a: int, b: int)
    requires 0 <= a <= b <= |s|
    requires forall i :: a <= i ==> !OccursAt(s, sep, i)
    ensures !Contains(s[a..b], sep)
  {
    SliceOccurrence(s, sep, a, b);
  }

  /** A slice of a string that does not contain `sep` does not contain it either. */
  lemma SliceKeepsAbsence(s: string, sep: string, a: int, b: int)
    requires 0 <= a <= b <= |s|
    requires !Contains(s, sep)
    ensures !Contains(s[a..b], sep)
  {
    SliceOccurrence(s, sep, a, b);
  }

  /**
   * Where the last piece of `s.split(sep)` starts, scanning from index `k`:
   * each separator found moves the start past it.
   */
  function LastPieceStart(s: string, sep: string, k: nat): (p: nat)
    requires |sep| > 0 && k <= |s|
    ensures k <= p <= |s|
    ensures forall i :: p <= i ==> !OccursAt(s, sep, i)
    decreases |s| - k
  {
    match FindFrom(s, sep, k)
    case None => k
    case Some(i) => LastPieceStart(s, sep, i + |sep|)
  }

  /**
   * The last piece starts where the scan started when no separator follows
   * it, and right after an occurrence of the separator otherwise.
   */
  lemma {:induction false} LastPieceFollowsSeparator(s: string, sep: string, k: nat)
    requires |sep| > 0 && k <= |s|
    ensures FindFrom(s, sep, k).None? ==> LastPieceStart(s, sep, k) == k
    ensures FindFrom(s, sep, k).Some? ==>
      var p := LastPieceStart(s, sep, k); k + |sep| <= p && OccursAt(s, sep, p - |sep|)
    decreases |s| - k
  {
    match FindFrom(s, sep, k)
    case None =>
    case Some(i) =>
      var next := i + |sep|;
      assert LastPieceStart(s, sep, k) == LastPieceStart(s, sep, next);
      LastPieceFollowsSeparator(s, sep, next);
      if FindFrom(s, sep, next).None? {
        assert OccursAt(s, sep, next - |sep|);
      }
  }

  /**
   * `s.split(sep).pop()`: the piece after the last separator found by a
   * left-to-right, non-overlapping scan, or the whole string when `sep` does
   * not occur.
   */
  function SplitLast(s: string, sep: string): (r: string)
    requires |sep| > 0
    ensures |r| <= |s| && r == s[|s| - |r|..]
  {
    s[LastPieceStart(s, sep, 0)..]
  }

  /**
   * `split(sep).pop()` yields a suffix free of `sep`; when `sep` occurs at all,
   * that suffix directly follows an occurrence of `sep`, so it is the text
   * after the last separator. These facts pin the piece down only for a
   * separator that cannot overlap itself, such as `.` and `extends`: on
   * `"aaa"` split by `"aa"` both `"a"` (the scan's answer) and `""` meet them.
   */
  lemma SplitLastIsTextAfterLastSeparator(s: string, sep: string)
    requires |sep| > 0
    ensures !Contains(SplitLast(s, sep), sep)
    ensures !Contains(s, sep) ==> SplitLast(s, sep) == s
    ensures Contains(s, sep) ==> OccursAt(s, sep, |s| - |SplitLast(s, sep)| - |sep|)
  {
    var p := LastPieceStart(s, sep, 0);
    SliceAfterOccurrences(s, sep, p, |s|);
    assert s[p..|s|] == SplitLast(s, sep);
    LastPieceFollowsSeparator(s, sep, 0);
  }

  /** With a one-character separator, `split(sep).pop()` undoes appending the separator and a separator-free tail. */
  lemma SplitLastAfterAppend(front: string, c: char, tail: string)
    requires !Contains(tail, [c])
    ensures SplitLast(front + [c] + tail, [c]) == tail
  {
    var s := front + [c] + tail;
    var p := LastPieceStart(s, [c], 0);
    assert OccursAt(s, [c], |front|);
    LastPieceFollowsSeparator(s, [c], 0);
    if p - 1 > |front| {
      assert s[p - 1] == tail[p - 1 - |front| - 1];
      assert OccursAt(tail, [c], p - 1 - |front| - 1);
    }
    assert s[|front| + 1..] == tail;
  }

  /** The characters JavaScript's `trim` removes: ECMAScript WhiteSpace and LineTerminator. */
  predicate IsWhitespace(c: char)
  {
    c == ' ' || c == '\t' || c == '\n' || c == '\r'
    || c as int == 0x0B || c as int == 0x0C || c as int == 0xA0 || c as int == 0xFEFF
    || c as int == 0x1680 || (0x2000 <= c as int <= 0x200A)
    || c as int == 0x2028 || c as int == 0x2029 || c as int == 0x202F
    || c as int == 0x205F || c as int == 0x3000
  }

  /** The first index at or after `i` that does not hold whitespace, or `|s|`. */
  function SkipLeading(s: string, i: nat): (r: nat)
    requires i <= |s|
    ensures i <= r <= |s|
    ensures forall j :: i <= j < r ==> IsWhitespace(s[j])
    ensures r < |s| ==> !IsWhitespace(s[r])
    decreases |s| - i
  {
    if i < |s| && IsWhitespace(s[i]) then SkipLeading(s, i + 1) else i
  }

  /** The end of `s[lo..j]` once the whitespace at its end is dropped. */
  function SkipTrailing(s: string, lo: nat, j: nat): (r: nat)
    requires lo <= j <= |s|
    ensures lo <= r <= j
    ensures forall m :: r <= m < j ==> IsWhitespace(s[m])
    ensures r > lo ==> !IsWhitespace(s[r - 1])
    decreases j
  {
    if j > lo && IsWhitespace(s[j - 1]) then SkipTrailing(s, lo, j - 1) else j
  }

  /** `r` is `s` with only whitespace removed before index `k` and after `k + |r|`. */
  predicate WhitespaceAround(s: string, r: string, k: int)
  {
    0 <= k && k + |r| <= |s| && s[k..k + |r|] == r
    && (forall i :: 0 <= i < k ==> IsWhitespace(s[i]))
    && (forall i :: k + |r| <= i < |s| ==> IsWhitespace(s[i]))
  }

  /** `s.trim()`: the string with leading and trailing whitespace removed. */
  function Trim(s: string): (r: string)
    ensures WhitespaceAround(s, r, SkipLeading(s, 0))
    ensures r == [] || (!IsWhitespace(r[0]) && !IsWhitespace(r[|r| - 1]))
  {
    var a := SkipLeading(s, 0);
    s[a..SkipTrailing(s, a, |s|)]
  }

  /** Trimming keeps a string free of `sep`. */
  lemma TrimKeepsAbsence(t: string, sep: string)
    requires !Contains(t, sep)
    ensures !Contains(Trim(t), sep)
  {
    var a := SkipLeading(t, 0);
    SliceKeepsAbsence(t, sep, a, SkipTrailing(t, a, |t|));
  }

  /** The trimmed text after the last separator holds no separator. */
  lemma TrimmedTailAfterLastSeparator(s: string, sep: string)
    requires |sep| > 0
    ensures Contains(s, sep) ==> OccursAt(s, sep, |s| - |SplitLast(s, sep)| - |sep|)
    ensures !Contains(SplitLast(s, sep), sep)
    ensures !Contains(Trim(SplitLast(s, sep)), sep)
  {
    SplitLastIsTextAfterLastSeparator(s, sep);
    TrimKeepsAbsence(SplitLast(s, sep), sep);
  }
}
