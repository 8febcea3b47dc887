/**
 * The Python `str` operations the plugin and its two scripts rely on, over
 * `string` (a sequence of Unicode code points, as a Python 3 `str` is).
 */
module Text {
  import opened Wrappers

  // ---------------------------------------------------------------------
  // Occurrences and search
  // ---------------------------------------------------------------------

  /** `p` occurs in `s` starting at index `i`. */
  predicate OccursAt(s: string, p: string, i: nat) {
    i + |p| <= |s| && s[i..i + |p|] == p
  }

  /** Python's `p in s`. */
  predicate Contains(s: string, p: string) {
    exists i: nat :: i <= |s| && OccursAt(s, p, i)
  }

  /** Python's `s.startswith(p)`. */
  predicate StartsWith(s: string, p: string) {
    p <= s
  }

  /** Python's `s.endswith(p)`. */
  predicate EndsWith(s: string, p: string) {
    |p| <= |s| && s[|s| - |p|..] == p
  }

  /** The leftmost occurrence of `p` in `s` at or after index `from`. */
  function FindFrom(s: string, p: string, from: nat): (r: Option<nat>)
    ensures r.Some? ==> from <= r.value && OccursAt(s, p, r.value)
    ensures r.Some? ==> forall j: nat :: from <= j < r.value ==> !OccursAt(s, p, j)
    ensures r.None? ==> forall j: nat :: from <= j ==> !OccursAt(s, p, j)
    decreases |s| - from
  {
    if |s| < from + |p| then None
    else if OccursAt(s, p, from) then Some(from)
    else FindFrom(s, p, from + 1)
  }

  /** Python's `s.find(p)`, with `None` standing for -1. */
  function Find(s: string, p: string): (r: Option<nat>)
    ensures r.Some? ==> OccursAt(s, p, r.value)
    ensures r.Some? ==> forall j: nat :: j < r.value ==> !OccursAt(s, p, j)
    ensures r.None? <==> !Contains(s, p)
  {
    FindFrom(s, p, 0)
  }

  /** An occurrence with none before it is what `find` returns. */
  lemma FindIs(s: string, p: string, i: nat)
    requires OccursAt(s, p, i)
    requires forall j: nat :: j < i ==> !OccursAt(s, p, j)
    ensures Find(s, p) == Some(i)
  {
    assert i <= |s|;
  }

  /** An occurrence inside a slice is an occurrence in the whole string. */
  lemma OccursInSlice(s: string, p: string, lo: nat, hi: nat, j: nat)
    requires lo <= hi <= |s| && OccursAt(s[lo..hi], p, j)
    ensures OccursAt(s, p, lo + j)
  {
    forall k | 0 <= k < |p|
      ensures s[lo + j..lo + j + |p|][k] == p[k]
    {
      assert s[lo..hi][j..j + |p|][k] == s[lo..hi][j + k] == s[lo + j + k];
    }
  }

  /** An occurrence of `x + y` is an occurrence of `x` followed by one of `y`. */
  lemma OccursSplit(s: string, x: string, y: string, i: nat)
    requires OccursAt(s, x + y, i)
    ensures OccursAt(s, x, i) && OccursAt(s, y, i + |x|)
  {
    SliceOf(s, i, x + y, 0, |x|);
    SliceOf(s, i, x + y, |x|, |x + y|);
    assert (x + y)[..|x|] == x;
    assert (x + y)[|x|..] == y;
  }

  /** An occurrence of a one-character string is that character. */
  lemma OccursChar(s: string, c: char, k: nat)
    requires OccursAt(s, [c], k)
    ensures k < |s| && s[k] == c
  {
    assert s[k..k + 1][0] == s[k];
  }

  /** A slice of a text that occurs at `i` is the same slice of `s`, shifted by `i`. */
  lemma SliceOf(s: string, i: nat, t: string, lo: nat, hi: nat)
    requires i + |t| <= |s| && s[i..i + |t|] == t && lo <= hi <= |t|
    ensures s[i + lo..i + hi] == t[lo..hi]
  {
    forall k | 0 <= k < hi - lo
      ensures s[i + lo..i + hi][k] == t[lo..hi][k]
    {
      assert s[i..i + |t|][lo + k] == s[i + lo + k];
    }
  }

  /** A non-empty slice is its first element followed by the rest. */
  lemma SliceCons(s: string, i: nat, k: nat)
    requires i < k <= |s|
    ensures s[i..k] == [s[i]] + s[i + 1..k]
  {
  }

  lemma ConsAssoc(c: char, a: string, b: string)
    ensures [c] + (a + b) == ([c] + a) + b
  {
  }

  // ---------------------------------------------------------------------
  // split, join, replace
  // ---------------------------------------------------------------------

  /** Python's `s.split(sep)` for a non-empty separator. */
  function Split(s: string, sep: string): (parts: seq<string>)
    requires sep != []
    ensures |parts| >= 1
    decreases |s|
  {
    match Find(s, sep)
    case None => [s]
    case Some(i) => [s[..i]] + Split(s[i + |sep|..], sep)
  }

  /** Python's `sep.join(parts)`. */
  function Join(parts: seq<string>, sep: string): string
  {
    if |parts| == 0 then ""
    else if |parts| == 1 then parts[0]
    else parts[0] + sep + Join(parts[1..], sep)
  }

  /** Joining the pieces of a split with the separator gives the string back. */
  lemma {:induction false} JoinSplit(s: string, sep: string)
    requires sep != []
    ensures Join(Split(s, sep), sep) == s
    decreases |s|
  {
    var f := Find(s, sep);
    if f.Some? {
      var i := f.value;
      var rest := s[i + |sep|..];
      JoinSplit(rest, sep);
      JoinSplitStep(s, sep, i);
      AroundOccurrence(s, sep, i);
    }
  }

  /** Unfolding `Split` at the first occurrence `i` of the separator. */
  lemma SplitStep(s: string, sep: string, i: nat)
    requires sep != [] && Find(s, sep) == Some(i)
    ensures Split(s, sep) == [s[..i]] + Split(s[i + |sep|..], sep)
  {
  }

  /** A string is the text before an occurrence, the occurrence, and the rest. */
  lemma AroundOccurrence(s: string, p: string, i: nat)
    requires OccursAt(s, p, i)
    ensures s == s[..i] + p + s[i + |p|..]
  {
    assert s == s[..i] + s[i..i + |p|] + s[i + |p|..];
  }

  /** One step of `JoinSplit`: the first piece, the separator, and the split of the rest. */
  lemma JoinSplitStep(s: string, sep: string, i: nat)
    requires sep != [] && Find(s, sep) == Some(i)
    ensures Join(Split(s, sep), sep) == s[..i] + sep + Join(Split(s[i + |sep|..], sep), sep)
  {
    SplitStep(s, sep, i);
    JoinCons(s[..i], Split(s[i + |sep|..], sep), sep);
  }

  lemma JoinCons(head: string, tail: seq<string>, sep: string)
    requires |tail| >= 1
    ensures Join([head] + tail, sep) == head + sep + Join(tail, sep)
  {
    assert ([head] + tail)[1..] == tail;
  }

  /** No piece of a split contains the separator. */
  lemma {:induction false} SplitPiecesLackSep(s: string, sep: string)
    requires sep != []
    ensures forall k :: 0 <= k < |Split(s, sep)| ==> !Contains(Split(s, sep)[k], sep)
    decreases |s|
  {
    match Find(s, sep)
    case None =>
    case Some(i) =>
      var rest := s[i + |sep|..];
      SplitPiecesLackSep(rest, sep);
      SplitStep(s, sep, i);
      BeforeFirstLacksSep(s, sep, i);
      PiecesOfCons(s[..i], Split(rest, sep), sep);
  }

  /** The text before the first occurrence does not contain the pattern. */
  lemma BeforeFirstLacksSep(s: string, sep: string, i: nat)
    requires sep != [] && Find(s, sep) == Some(i)
    ensures !Contains(s[..i], sep)
  {
    if Contains(s[..i], sep) {
      var j: nat :| j <= i && OccursAt(s[..i], sep, j);
      OccursInSlice(s, sep, 0, i, j);
    }
  }

  /** A piece without the separator in front of pieces without it. */
  lemma PiecesOfCons(head: string, tail: seq<string>, sep: string)
    requires !Contains(head, sep)
    requires forall k :: 0 <= k < |tail| ==> !Contains(tail[k], sep)
    ensures forall k :: 0 <= k < |[head] + tail| ==> !Contains(([head] + tail)[k], sep)
  {
  }

  /** An occurrence of a part is an occurrence in the joined text. */
  lemma {:induction false} JoinHasPart(parts: seq<string>, sep: string, k: nat)
    requires k < |parts|
    ensures Contains(Join(parts, sep), parts[k])
    decreases |parts|
  {
    var s := Join(parts, sep);
    assert OccursAt(parts[k], parts[k], 0);
    if |parts| == 1 {
      assert OccursAt(s, parts[k], 0);
    } else {
      var rest := Join(parts[1..], sep);
      if k == 0 {
        OccursPrefix(parts[0], sep + rest, parts[0], 0);
        assert s == parts[0] + (sep + rest);
        assert OccursAt(s, parts[k], 0);
      } else {
        JoinHasPart(parts[1..], sep, k - 1);
        var o: nat :| o <= |rest| && OccursAt(rest, parts[k], o);
        OccursShift(parts[0] + sep, rest, parts[k], o);
        assert parts[1..][k - 1] == parts[k];
        assert OccursAt(s, parts[k], |parts[0] + sep| + o);
      }
    }
  }

  /** Joining two non-empty runs of parts: the first run's join comes first. */
  lemma {:induction false} JoinAppend(a: seq<string>, b: seq<string>, sep: string)
    requires |b| >= 1
    ensures StartsWith(Join(a + b, sep), Join(a, sep))
    decreases |a|
  {
    if |a| == 1 {
      JoinCons(a[0], b, sep);
    } else if |a| > 1 {
      JoinAppend(a[1..], b, sep);
      assert (a + b)[1..] == a[1..] + b;
      JoinCons(a[0], a[1..] + b, sep);
      assert a == [a[0]] + a[1..];
      JoinCons(a[0], a[1..], sep);
    }
  }

  /** An occurrence in `a` is one in `a + b`. */
  lemma OccursPrefix(a: string, b: string, p: string, i: nat)
    requires OccursAt(a, p, i)
    ensures OccursAt(a + b, p, i)
  {
    assert (a + b)[..|a|] == a;
    OccursInSlice(a + b, p, 0, |a|, i);
  }

  /** An occurrence in `b` is one in `a + b`, shifted by `|a|`. */
  lemma OccursShift(a: string, b: string, p: string, i: nat)
    requires OccursAt(b, p, i)
    ensures OccursAt(a + b, p, |a| + i)
  {
    assert (a + b)[|a|..|a + b|] == b;
    OccursInSlice(a + b, p, |a|, |a + b|, i);
  }

  /** An occurrence inside an occurrence is an occurrence. */
  lemma OccursWithin(s: string, p: string, q: string, i: nat, j: nat)
    requires OccursAt(s, p, i) && OccursAt(p, q, j)
    ensures OccursAt(s, q, i + j)
  {
    OccursInSlice(s, q, i, i + |p|, j);
  }

  /** Python's `s.replace(pat, rep)` for a non-empty pattern: every
      non-overlapping occurrence of `pat`, scanning left to right. */
  function ReplaceAll(s: string, pat: string, rep: string): string
    requires pat != []
  {
    Join(Split(s, pat), rep)
  }

  /** What `replace` changes and what it keeps: the input and the result are
      the same pieces, glued by `pat` and by `rep` respectively, and no piece
      contains `pat`, so every occurrence is replaced and nothing else moves. */
  lemma ReplaceAllPieces(s: string, pat: string, rep: string)
    requires pat != []
    ensures s == Join(Split(s, pat), pat)
    ensures ReplaceAll(s, pat, rep) == Join(Split(s, pat), rep)
    ensures forall k :: 0 <= k < |Split(s, pat)| ==> !Contains(Split(s, pat)[k], pat)
  {
    JoinSplit(s, pat);
    SplitPiecesLackSep(s, pat);
  }

  /** `replace` of a pattern that does not occur changes nothing. */
  lemma ReplaceAllAbsent(s: string, pat: string, rep: string)
    requires pat != [] && !Contains(s, pat)
    ensures ReplaceAll(s, pat, rep) == s
  {
    assert Split(s, pat) == [s];
  }

  /** Unfolding `replace` at the first occurrence `i` of the pattern. */
  lemma ReplaceAllStep(s: string, pat: string, rep: string, i: nat)
    requires pat != [] && Find(s, pat) == Some(i)
    ensures ReplaceAll(s, pat, rep) == s[..i] + rep + ReplaceAll(s[i + |pat|..], pat, rep)
  {
    SplitStep(s, pat, i);
    JoinCons(s[..i], Split(s[i + |pat|..], pat), rep);
  }

  /** The first character after `replace` is the input's first character,
      or the replacement's when the input starts with the pattern. */
  lemma ReplaceAllHead(s: string, pat: string, rep: string)
    requires pat != [] && rep != [] && s != []
    ensures ReplaceAll(s, pat, rep) != []
    ensures ReplaceAll(s, pat, rep)[0] == s[0] || ReplaceAll(s, pat, rep)[0] == rep[0]
  {
    var f := Find(s, pat);
    if f.Some? {
      ReplaceAllStep(s, pat, rep, f.value);
    }
  }

  /** `re.sub(pat, rep, s, count=1)` for a literal pattern: only the leftmost
      occurrence is replaced. */
  function ReplaceFirst(s: string, pat: string, rep: string): string
  {
    match Find(s, pat)
    case None => s
    case Some(i) => s[..i] + rep + s[i + |pat|..]
  }

  /** Replacing the first `pat` by `pat + extra` inserts `extra` right after
      it: the text is kept around the insertion, removing `extra` gives it
      back, and `pat` first occurs where it did. */
  lemma InsertAfterFirst(s: string, pat: string, extra: string, i: nat)
    requires Find(s, pat) == Some(i)
    ensures ReplaceFirst(s, pat, pat + extra) == s[..i + |pat|] + extra + s[i + |pat|..]
    ensures var r := ReplaceFirst(s, pat, pat + extra);
      r[..i + |pat|] + r[i + |pat| + |extra|..] == s
    ensures Find(ReplaceFirst(s, pat, pat + extra), pat) == Some(i)
  {
    var r := ReplaceFirst(s, pat, pat + extra);
    ReplaceFirstInserts(s, pat, extra, i);
    InsertionParts(s, r, i + |pat|, extra);
    FirstStays(s, r, pat, i);
  }

  lemma ReplaceFirstInserts(s: string, pat: string, extra: string, i: nat)
    requires Find(s, pat) == Some(i)
    ensures ReplaceFirst(s, pat, pat + extra) == s[..i + |pat|] + extra + s[i + |pat|..]
  {
    AroundOccurrence(s, pat, i);
    assert s[..i + |pat|] == s[..i] + pat;
  }

  /** A text with `extra` inserted at `at`: the parts around it are the original's. */
  lemma InsertionParts(s: string, r: string, at: nat, extra: string)
    requires at <= |s| && r == s[..at] + extra + s[at..]
    ensures r[..at] == s[..at] && r[at + |extra|..] == s[at..]
    ensures r[..at] + r[at + |extra|..] == s
  {
    assert s[..at] + s[at..] == s;
  }

  /** Two texts that agree up to the end of the first `pat` have it at the same place. */
  lemma FirstStays(s: string, r: string, pat: string, i: nat)
    requires Find(s, pat) == Some(i)
    requires i + |pat| <= |r| && r[..i + |pat|] == s[..i + |pat|]
    ensures Find(r, pat) == Some(i)
  {
    var at := i + |pat|;
    forall j: nat | j <= i
      ensures OccursAt(r, pat, j) <==> OccursAt(s, pat, j)
    {
      SliceOfPrefix(r, at, j, j + |pat|);
      SliceOfPrefix(s, at, j, j + |pat|);
    }
    FindIs(r, pat, i);
  }

  /** A slice inside a prefix is that slice of the prefix. */
  lemma SliceOfPrefix(s: string, at: nat, lo: nat, hi: nat)
    requires lo <= hi <= at <= |s|
    ensures s[lo..hi] == s[..at][lo..hi]
  {
  }

  // ---------------------------------------------------------------------
  // Whitespace and case
  // ---------------------------------------------------------------------

  /** Python's `c.isspace()`: the characters `str.strip()` removes and
      that `\s` matches. */
  predicate IsSpace(c: char) {
    || ('\t' <= c <= '\r')
    || ('\U{1C}' <= c <= ' ')
    || c == '\U{85}' || c == '\U{A0}' || c == '\U{1680}'
    || ('\U{2000}' <= c <= '\U{200A}')
    || c == '\U{2028}' || c == '\U{2029}' || c == '\U{202F}' || c == '\U{205F}'
    || c == '\U{3000}'
  }

  /** Python's `s.lstrip()`. */
  function StripLeft(s: string): (r: string)
    ensures |r| <= |s| && r == s[|s| - |r|..]
    ensures forall k :: 0 <= k < |s| - |r| ==> IsSpace(s[k])
    ensures r == [] || !IsSpace(r[0])
  {
    if s != [] && IsSpace(s[0]) then
      var r := StripLeft(s[1..]);
      assert forall k :: 1 <= k < |s| - |r| ==> s[k] == s[1..][k - 1];
      r
    else s
  }

  /** Python's `s.rstrip()`. */
  function StripRight(s: string): (r: string)
    ensures |r| <= |s| && r == s[..|r|]
    ensures forall k :: |r| <= k < |s| ==> IsSpace(s[k])
    ensures r == [] || !IsSpace(r[|r| - 1])
  {
    if s != [] && IsSpace(s[|s| - 1]) then
      var r := StripRight(s[..|s| - 1]);
      assert forall k :: |r| <= k < |s| - 1 ==> s[k] == s[..|s| - 1][k];
      r
    else s
  }

  /** Python's `s.strip()`; `StripSlice` says what it keeps. */
  function Strip(s: string): (r: string)
    ensures |r| <= |s|
  {
    StripRight(StripLeft(s))
  }

  /** A prefix `r` of a suffix `left` of `s`, with only whitespace after it
      in `left`, is the slice of `s` at the suffix's start, with only
      whitespace after it in `s`. */
  lemma TrimmedSlice(s: string, left: string, r: string, i: nat)
    requires i == |s| - |left| && left == s[i..]
    requires |r| <= |left| && r == left[..|r|]
    requires forall k :: |r| <= k < |left| ==> IsSpace(left[k])
    ensures i + |r| <= |s| && r == s[i..i + |r|]
    ensures forall k :: i + |r| <= k < |s| ==> IsSpace(s[k])
  {
    forall k | i + |r| <= k < |s|
      ensures IsSpace(s[k])
    {
      assert s[k] == left[k - i];
    }
  }

  /** `s.strip()` is the slice of `s` that starts after the leading
      whitespace, and only whitespace lies before and after it. */
  lemma StripSlice(s: string, i: nat)
    requires i == |s| - |StripLeft(s)|
    ensures i + |Strip(s)| <= |s| && Strip(s) == s[i..i + |Strip(s)|]
    ensures forall k :: 0 <= k < i ==> IsSpace(s[k])
    ensures forall k :: i + |Strip(s)| <= k < |s| ==> IsSpace(s[k])
    ensures Strip(s) == [] || (!IsSpace(Strip(s)[0]) && !IsSpace(Strip(s)[|Strip(s)| - 1]))
  {
    TrimmedSlice(s, StripLeft(s), Strip(s), i);
  }

  /** `c.lower()` on an ASCII character. */
  function LowerChar(c: char): char
  {
    if 'A' <= c <= 'Z' then (c as int + 32) as char else c
  }

  /** `s.lower()` on a string of ASCII characters. */
  function LowerAscii(s: string): (r: string)
    ensures |r| == |s|
    ensures forall k :: 0 <= k < |s| ==> r[k] == LowerChar(s[k])
  {
    seq(|s|, k requires 0 <= k < |s| => LowerChar(s[k]))
  }

  // ---------------------------------------------------------------------
  // Decimal numbers: Python's int(...) and str(...)
  // ---------------------------------------------------------------------

  predicate IsDigit(c: char) {
    '0' <= c <= '9'
  }

  predicate AllDigits(s: string) {
    forall k :: 0 <= k < |s| ==> IsDigit(s[k])
  }

  function DigitValue(c: char): nat
    requires IsDigit(c)
  {
    c as int - '0' as int
  }

  function DigitChar(d: nat): char
    requires d < 10
  {
    ('0' as int + d) as char
  }

  /** Python's `int(s)` on a string of ASCII digits (leading zeros allowed). */
  function DigitsToNat(s: string): nat
    requires AllDigits(s)
  {
    if s == [] then 0 else 10 * DigitsToNat(s[..|s| - 1]) + DigitValue(s[|s| - 1])
  }

  /** Python's `str(n)` for a non-negative integer: decimal digits with no
      leading zero. */
  function NatToString(n: nat): (r: string)
    ensures r != [] && AllDigits(r)
    ensures r[0] == '0' <==> n == 0
  {
    if n < 10 then [DigitChar(n)] else NatToString(n / 10) + [DigitChar(n % 10)]
  }

  /** `int(str(n)) == n`. */
  lemma {:induction false} NatToStringRoundTrip(n: nat)
    ensures DigitsToNat(NatToString(n)) == n
  {
    if n >= 10 {
      NatToStringRoundTrip(n / 10);
      var s := NatToString(n);
      assert s[..|s| - 1] == NatToString(n / 10);
    }
  }
}
