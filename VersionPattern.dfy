/**
 * The regular expression both scripts use to find the plugin version in
 * metadata.txt: `version=(\d+)\.(\d+)\.(\d+)` (bump-version.py) and
 * `version=(\d+\.\d+\.\d+)` (package.py) match the same texts; they differ
 * only in how the digits are grouped, which the callers do themselves.
 * `re.search` returns the leftmost match, and each `\d+` is greedy.
 */
module VersionPattern {
  import opened Wrappers
  import opened Text

  const Key: string := "version="

  /** A match: where it starts and ends in the text, and its three digit groups. */
  datatype VersionMatch = VersionMatch(start: nat, end: nat, major: string, minor: string, patch: string)

  /** Length of the longest run of ASCII digits in `s` starting at `i` (a greedy `\d*`). */
  function DigitRun(s: string, i: nat): (n: nat)
    requires i <= |s|
    ensures i + n <= |s|
    ensures forall k :: i <= k < i + n ==> IsDigit(s[k])
    ensures i + n == |s| || !IsDigit(s[i + n])
    decreases |s| - i
  {
    if i < |s| && IsDigit(s[i]) then 1 + DigitRun(s, i + 1) else 0
  }

  /** The text a match covers. */
  function MatchedText(m: VersionMatch): string
  {
    Key + m.major + "." + m.minor + "." + m.patch
  }

  /** The match of the pattern anchored at index `i`, if there is one. */
  function MatchAt(s: string, i: nat): (r: Option<VersionMatch>)
    ensures r.Some? ==> r.value.start == i && i + |MatchedText(r.value)| == r.value.end <= |s|
    ensures r.Some? ==> r.value.major != [] && r.value.minor != [] && r.value.patch != []
    ensures r.Some? ==> AllDigits(r.value.major) && AllDigits(r.value.minor) && AllDigits(r.value.patch)
    ensures r.Some? ==> r.value.end == |s| || !IsDigit(s[r.value.end])
  {
    if !OccursAt(s, Key, i) then None
    else
      var a := i + |Key|;
      var n1 := DigitRun(s, a);
      if n1 == 0 || a + n1 == |s| || s[a + n1] != '.' then None
      else
        var b := a + n1 + 1;
        var n2 := DigitRun(s, b);
        if n2 == 0 || b + n2 == |s| || s[b + n2] != '.' then None
        else
          var c := b + n2 + 1;
          var n3 := DigitRun(s, c);
          if n3 == 0 then None
          else
            Some(VersionMatch(i, c + n3, s[a..a + n1], s[b..b + n2], s[c..c + n3]))
  }

  /** The leftmost match starting at or after `from`. */
  function SearchFrom(s: string, from: nat): (r: Option<VersionMatch>)
    ensures r.Some? ==> from <= r.value.start && MatchAt(s, r.value.start) == r
    ensures r.Some? ==> forall j: nat :: from <= j < r.value.start ==> MatchAt(s, j).None?
    ensures r.None? ==> forall j: nat :: from <= j ==> MatchAt(s, j).None?
    decreases |s| + 1 - from
  {
    if from > |s| then None
    else if MatchAt(s, from).Some? then MatchAt(s, from)
    else SearchFrom(s, from + 1)
  }

  /** `re.search(r'version=(\d+)\.(\d+)\.(\d+)', s)`: the leftmost match. */
  function Search(s: string): (r: Option<VersionMatch>)
    ensures r.Some? ==> MatchAt(s, r.value.start) == r
    ensures r.Some? ==> forall j: nat :: j < r.value.start ==> MatchAt(s, j).None?
    ensures r.None? ==> forall j: nat :: MatchAt(s, j).None?
  {
    SearchFrom(s, 0)
  }

  /** A greedy digit run stops exactly at the end of a digit string followed
      by a non-digit or by the end of the text. */
  lemma {:induction false} DigitRunOf(s: string, i: nat, ds: string)
    requires i + |ds| <= |s| && s[i..i + |ds|] == ds && AllDigits(ds)
    requires i + |ds| == |s| || !IsDigit(s[i + |ds|])
    ensures DigitRun(s, i) == |ds|
    decreases |ds|
  {
    if ds != [] {
      assert s[i] == ds[0];
      assert s[i + 1..i + |ds|] == ds[1..];
      DigitRunOf(s, i + 1, ds[1..]);
    }
  }

  /** A match covers exactly its text: `version=`, the groups and the two dots. */
  lemma MatchCovers(s: string, i: nat)
    requires MatchAt(s, i).Some?
    ensures s[i..MatchAt(s, i).value.end] == MatchedText(MatchAt(s, i).value)
  {
    var m := MatchAt(s, i).value;
    MatchParts(s, i);
    CoverPieces(s, i, Key, m.major, m.minor, m.patch, m.end);
  }

  /** Where the pieces of a match lie in the text. */
  lemma MatchParts(s: string, i: nat)
    requires MatchAt(s, i).Some?
    ensures var m := MatchAt(s, i).value;
      s[i..i + |Key|] == Key && DottedAt(s, i + |Key|, m.end, m.major, m.minor, m.patch)
  {
  }

  /** Three groups with a dot after each of the first two lie in `s` from
      `a` up to `e`. */
  predicate DottedAt(s: string, a: nat, e: nat, major: string, minor: string, patch: string) {
    var b := a + |major| + 1;
    var c := b + |minor| + 1;
    && c + |patch| == e <= |s|
    && s[a..a + |major|] == major && s[a + |major|] == '.'
    && s[b..b + |minor|] == minor && s[b + |minor|] == '.'
    && s[c..e] == patch
  }

  /** Text made of a key, three groups and two dots, piece by piece. */
  lemma CoverPieces(s: string, i: nat, key: string, major: string, minor: string, patch: string, e: nat)
    requires i + |key| <= |s| && s[i..i + |key|] == key && DottedAt(s, i + |key|, e, major, minor, patch)
    ensures s[i..e] == key + major + "." + minor + "." + patch
  {
    var a := i + |key|;
    var b := a + |major| + 1;
    var c := b + |minor| + 1;
    assert s[a + |major|..b] == ".";
    assert s[b + |minor|..c] == ".";
    ConcatSlices(s, i, a, a + |major|, key, major);
    ConcatSlices(s, i, a + |major|, b, key + major, ".");
    ConcatSlices(s, i, b, b + |minor|, key + major + ".", minor);
    ConcatSlices(s, i, b + |minor|, c, key + major + "." + minor, ".");
    ConcatSlices(s, i, c, e, key + major + "." + minor + ".", patch);
  }

  /** Two adjacent slices with known contents. */
  lemma ConcatSlices(s: string, lo: nat, mid: nat, hi: nat, x: string, y: string)
    requires lo <= mid <= hi <= |s| && s[lo..mid] == x && s[mid..hi] == y
    ensures s[lo..hi] == x + y
  {
    SliceConcat(s, lo, mid, hi);
  }

  /** A slice is its two halves. */
  lemma SliceConcat(s: string, lo: nat, mid: nat, hi: nat)
    requires lo <= mid <= hi <= |s|
    ensures s[lo..hi] == s[lo..mid] + s[mid..hi]
  {
  }

  /** Text of the form `version=A.B.C`, with A, B, C non-empty digit
      strings and no digit right after C, matches with exactly those groups. */
  lemma MatchAtText(s: string, i: nat, major: string, minor: string, patch: string)
    requires major != [] && minor != [] && patch != []
    requires AllDigits(major) && AllDigits(minor) && AllDigits(patch)
    requires var t := Key + major + "." + minor + "." + patch;
      i + |t| <= |s| && s[i..i + |t|] == t && (i + |t| == |s| || !IsDigit(s[i + |t|]))
    ensures MatchAt(s, i) == Some(VersionMatch(i, i + |Key| + |major| + |minor| + |patch| + 2, major, minor, patch))
  {
    var a := i + |Key|;
    var e := a + |major| + |minor| + |patch| + 2;
    MatchAtPrefix(s, i, major, minor, patch);
    var m := MatchAt(s, i).value;
    MatchParts(s, i);
    VersionTextPieces(s, i, Key, major, minor, patch);
    GroupsAgree(s, a, m.end, e, m.major, m.minor, m.patch, major, minor, patch);
  }

  /** Two readings of three dotted digit groups from the same index, each
      followed by a non-digit or the end of the text, are the same. */
  lemma GroupsAgree(s: string, a: nat, e1: nat, e2: nat, major1: string, minor1: string, patch1: string,
                    major2: string, minor2: string, patch2: string)
    requires AllDigits(major1) && AllDigits(minor1) && AllDigits(patch1)
    requires DottedAt(s, a, e1, major1, minor1, patch1) && (e1 == |s| || !IsDigit(s[e1]))
    requires AllDigits(major2) && AllDigits(minor2) && AllDigits(patch2)
    requires DottedAt(s, a, e2, major2, minor2, patch2) && (e2 == |s| || !IsDigit(s[e2]))
    ensures major1 == major2 && minor1 == minor2 && patch1 == patch2 && e1 == e2
  {
    SameGroup(s, a, major1, major2);
    var b := a + |major1| + 1;
    SameGroup(s, b, minor1, minor2);
    var c := b + |minor1| + 1;
    SameGroup(s, c, patch1, patch2);
  }

  /** Two digit groups read from the same index, each followed by a
      non-digit or the end of the text, are the same group. */
  lemma SameGroup(s: string, x: nat, g1: string, g2: string)
    requires AllDigits(g1) && x + |g1| <= |s| && s[x..x + |g1|] == g1 && (x + |g1| == |s| || !IsDigit(s[x + |g1|]))
    requires AllDigits(g2) && x + |g2| <= |s| && s[x..x + |g2|] == g2 && (x + |g2| == |s| || !IsDigit(s[x + |g2|]))
    ensures g1 == g2
  {
    DigitsUnique(s, x, |g1|, |g2|);
  }

  /** Two digit runs from the same index that both stop at a non-digit (or
      at the end of the text) have the same length. */
  lemma DigitsUnique(s: string, x: nat, n1: nat, n2: nat)
    requires x + n1 <= |s| && AllDigits(s[x..x + n1]) && (x + n1 == |s| || !IsDigit(s[x + n1]))
    requires x + n2 <= |s| && AllDigits(s[x..x + n2]) && (x + n2 == |s| || !IsDigit(s[x + n2]))
    ensures n1 == n2
  {
  }

  /** Where each piece of `key` followed by `A.B.C` sits when that text
      occurs at `i`. */
  lemma VersionTextPieces(s: string, i: nat, key: string, major: string, minor: string, patch: string)
    requires var t := key + major + "." + minor + "." + patch;
      i + |t| <= |s| && s[i..i + |t|] == t
    ensures OccursAt(s, key, i)
    ensures DottedAt(s, i + |key|, i + |key| + |major| + |minor| + |patch| + 2, major, minor, patch)
  {
    var y := key + major + "." + minor;
    var x := y + ".";
    var w := key + major + ".";
    var v := key + major;
    OccursSplit(s, x, patch, i);
    OccursSplit(s, y, ".", i);
    OccursSplit(s, w, minor, i);
    OccursSplit(s, v, ".", i);
    OccursSplit(s, key, major, i);
    OccursChar(s, '.', i + |v|);
    OccursChar(s, '.', i + |y|);
  }

  /** The leftmost match is the match at `p` when one starts there and none before. */
  lemma SearchFindsFirst(s: string, p: nat)
    requires MatchAt(s, p).Some?
    requires forall j: nat :: j < p ==> MatchAt(s, j).None?
    ensures Search(s) == MatchAt(s, p)
  {
  }

  /** An occurrence of `version=A.B.C` with non-empty digit groups starts a
      match (possibly with a longer last group). */
  lemma MatchAtPrefix(s: string, i: nat, major: string, minor: string, patch: string)
    requires major != [] && minor != [] && patch != []
    requires AllDigits(major) && AllDigits(minor) && AllDigits(patch)
    requires var t := Key + major + "." + minor + "." + patch;
      i + |t| <= |s| && s[i..i + |t|] == t
    ensures MatchAt(s, i).Some?
  {
    var a := i + |Key|;
    var b := a + |major| + 1;
    var c := b + |minor| + 1;
    VersionTextPieces(s, i, Key, major, minor, patch);
    DigitRunOf(s, a, major);
    DigitRunOf(s, b, minor);
    assert s[c] == s[c..c + |patch|][0];
    MatchFromRuns(s, i, |major|, |minor|);
  }

  /** The match, in terms of where the first two digit runs stop. */
  lemma MatchFromRuns(s: string, i: nat, n1: nat, n2: nat)
    requires OccursAt(s, Key, i)
    requires var a := i + |Key|;
      var c := a + n1 + 1 + n2 + 1;
      && c < |s| && n1 > 0 && n2 > 0
      && DigitRun(s, a) == n1 && s[a + n1] == '.'
      && DigitRun(s, a + n1 + 1) == n2 && s[a + n1 + 1 + n2] == '.'
      && IsDigit(s[c])
    ensures MatchAt(s, i).Some?
  {
  }

  /** A `v` appears in the text of a match only as its first character. */
  lemma OnlyLeadingV(m: VersionMatch, k: nat)
    requires AllDigits(m.major) && AllDigits(m.minor) && AllDigits(m.patch)
    requires 1 <= k < |MatchedText(m)|
    ensures MatchedText(m)[k] != 'v'
  {
    var t := MatchedText(m);
    var a := |Key|;
    var b := a + |m.major| + 1;
    var c := b + |m.minor| + 1;
    if k < a {
      assert t[k] == Key[k];
    } else if k < a + |m.major| {
      assert t[k] == m.major[k - a];
    } else if k == a + |m.major| {
    } else if k < b + |m.minor| {
      assert t[k] == m.minor[k - b];
    } else if k == b + |m.minor| {
    } else {
      assert t[k] == m.patch[k - c];
    }
  }

  /** A text that agrees with another before a `v` at `p` has no match
      before `p` where the other has none: such a match would end by `p`,
      and its text would start a match in the other text too. */
  lemma NoEarlierMatch(u: string, s: string, p: nat, j: nat)
    requires j < p < |u| && p <= |s| && u[..p] == s[..p] && u[p] == 'v'
    requires MatchAt(s, j).None?
    ensures MatchAt(u, j).None?
  {
    if MatchAt(u, j).Some? {
      var m := MatchAt(u, j).value;
      MatchCovers(u, j);
      var t := MatchedText(m);
      if m.end > p {
        assert u[p] == u[j..m.end][p - j] == t[p - j];
        OnlyLeadingV(m, p - j);
      }
      AgreeBefore(u, s, p, j, m.end);
      MatchAtPrefix(s, j, m.major, m.minor, m.patch);
    }
  }

  /** Two texts that agree before `p` agree on every slice that ends by `p`. */
  lemma AgreeBefore(u: string, s: string, p: nat, j: nat, e: nat)
    requires j <= e <= p <= |u| && p <= |s| && u[..p] == s[..p]
    ensures s[j..e] == u[j..e]
  {
    forall k | 0 <= k < e - j
      ensures s[j..e][k] == u[j..e][k]
    {
      assert s[j + k] == s[..p][j + k] == u[..p][j + k] == u[j + k];
    }
  }
}
