/**
 * The release script bump-version.py: read the plugin version from
 * metadata.txt, increment it by the rules of Semantic Versioning 2.0.0
 * (items 6 to 8), and rewrite metadata.txt, `__init__.py` and the
 * changelog. File reads and writes are replaced by the file contents
 * (`None` for a missing file) and the rewritten texts; `sys.exit` becomes
 * an error result.
 */
module BumpVersion {
  import opened Wrappers
  import opened Text
  import VersionPattern

  // ---------------------------------------------------------------------
  // Versions
  // ---------------------------------------------------------------------

  /** The `(major, minor, patch)` tuple. */
  datatype Version = Version(major: nat, minor: nat, patch: nat)

  /** Python's ordering of the tuples: lexicographic. */
  predicate Less(a: Version, b: Version) {
    || a.major < b.major
    || (a.major == b.major && a.minor < b.minor)
    || (a.major == b.major && a.minor == b.minor && a.patch < b.patch)
  }

  /** Why the script stops with `sys.exit(1)`. */
  datatype Failure =
    | Usage                       // wrong arguments on the command line
    | MetadataMissing             // no metadata.txt
    | VersionNotFound             // no `version=X.Y.Z` in metadata.txt
    | BadBumpType(kind: string)   // a bump type other than major, minor, patch

  /** `version_to_string`: "major.minor.patch". */
  function VersionToString(v: Version): string
  {
    NatToString(v.major) + "." + NatToString(v.minor) + "." + NatToString(v.patch)
  }

  /** Python's `str(version)` of the tuple: "(major, minor, patch)". */
  function TupleToString(v: Version): string
  {
    "(" + NatToString(v.major) + ", " + NatToString(v.minor) + ", " + NatToString(v.patch) + ")"
  }

  /** `read_current_version` on the contents of metadata.txt: the three
      integers of the first `version=X.Y.Z`. */
  function ReadCurrentVersion(metadata: Option<string>): Result<Version, Failure>
  {
    match metadata
    case None => Err(MetadataMissing)
    case Some(text) =>
      match VersionPattern.Search(text)
      case None => Err(VersionNotFound)
      case Some(m) => Ok(Version(DigitsToNat(m.major), DigitsToNat(m.minor), DigitsToNat(m.patch)))
  }

  /** `bump_version`. */
  function Bump(v: Version, kind: string): Result<Version, Failure>
  {
    if kind == "major" then Ok(Version(v.major + 1, 0, 0))
    else if kind == "minor" then Ok(Version(v.major, v.minor + 1, 0))
    else if kind == "patch" then Ok(Version(v.major, v.minor, v.patch + 1))
    else Err(BadBumpType(kind))
  }

  predicate IsBumpKind(kind: string) {
    kind == "major" || kind == "minor" || kind == "patch"
  }

  /** The components a bump of this kind resets are zero in `w`. */
  predicate ResetBelow(w: Version, kind: string) {
    && (kind == "major" ==> w.minor == 0 && w.patch == 0)
    && (kind == "minor" ==> w.patch == 0)
  }

  /** Semantic Versioning, items 6 to 8: a bump of kind `major`, `minor` or
      `patch` always moves the version strictly up, and to the least version
      above the old one whose reset components are zero, so no release is
      skipped. Any other kind is rejected as a bad bump type. */
  lemma BumpIsNextRelease(v: Version, kind: string)
    ensures Bump(v, kind).Ok? <==> IsBumpKind(kind)
    ensures Bump(v, kind).Err? ==> Bump(v, kind).error == BadBumpType(kind)
    ensures IsBumpKind(kind) ==> Less(v, Bump(v, kind).value) && ResetBelow(Bump(v, kind).value, kind)
    ensures IsBumpKind(kind) ==> forall w :: Less(v, w) && ResetBelow(w, kind) ==> !Less(w, Bump(v, kind).value)
  {
  }

  // ---------------------------------------------------------------------
  // Reading back what was written
  // ---------------------------------------------------------------------

  /** A version written with `version_to_string` after `version=` is read
      back by `read_current_version`, whatever non-digit text follows. */
  lemma ReadVersionRoundTrip(v: Version, rest: string)
    requires rest == [] || !IsDigit(rest[0])
    ensures ReadCurrentVersion(Some(VersionPattern.Key + VersionToString(v) + rest)) == Ok(v)
  {
    var s := VersionPattern.Key + VersionToString(v) + rest;
    assert s[0..|VersionPattern.Key + VersionToString(v)|] == VersionPattern.Key + VersionToString(v);
    VersionAt(s, 0, v);
    VersionPattern.SearchFindsFirst(s, 0);
  }

  /** Where `version=` plus `version_to_string(v)` occurs, not followed by a
      digit, a match starts whose groups are the integers of `v`. */
  lemma VersionAt(s: string, p: nat, v: Version)
    requires OccursAt(s, VersionPattern.Key + VersionToString(v), p)
    requires var e := p + |VersionPattern.Key + VersionToString(v)|; e == |s| || !IsDigit(s[e])
    ensures VersionPattern.MatchAt(s, p).Some?
    ensures var m := VersionPattern.MatchAt(s, p).value;
      Version(DigitsToNat(m.major), DigitsToNat(m.minor), DigitsToNat(m.patch)) == v
  {
    var major, minor, patch := NatToString(v.major), NatToString(v.minor), NatToString(v.patch);
    assert VersionPattern.Key + VersionToString(v) == VersionPattern.Key + major + "." + minor + "." + patch;
    VersionPattern.MatchAtText(s, p, major, minor, patch);
    NatToStringRoundTrip(v.major);
    NatToStringRoundTrip(v.minor);
    NatToStringRoundTrip(v.patch);
  }

  // ---------------------------------------------------------------------
  // metadata.txt
  // ---------------------------------------------------------------------

  /** `update_metadata`: every `version=<old>` becomes `version=<new>`. */
  function UpdateMetadata(content: string, oldVersion: Version, newVersion: Version): string
  {
    ReplaceAll(content, VersionPattern.Key + VersionToString(oldVersion), VersionPattern.Key + VersionToString(newVersion))
  }

  /** Every occurrence of `version=<old>` is replaced and nothing else
      changes: the old and new texts are the same pieces, glued by the old
      and by the new assignment, and no piece contains the old assignment. */
  lemma UpdateMetadataChangesOnlyVersion(content: string, oldVersion: Version, newVersion: Version)
    ensures var pieces := Split(content, VersionPattern.Key + VersionToString(oldVersion));
      && content == Join(pieces, VersionPattern.Key + VersionToString(oldVersion))
      && UpdateMetadata(content, oldVersion, newVersion) == Join(pieces, VersionPattern.Key + VersionToString(newVersion))
      && forall k :: 0 <= k < |pieces| ==> !Contains(pieces[k], VersionPattern.Key + VersionToString(oldVersion))
  {
    ReplaceAllPieces(content, VersionPattern.Key + VersionToString(oldVersion), VersionPattern.Key + VersionToString(newVersion));
  }

  /** The first `version=X.Y.Z` is written the way `version_to_string`
      writes it: no leading zeros. */
  predicate Canonical(m: VersionPattern.VersionMatch) {
    && AllDigits(m.major) && NatToString(DigitsToNat(m.major)) == m.major
    && AllDigits(m.minor) && NatToString(DigitsToNat(m.minor)) == m.minor
    && AllDigits(m.patch) && NatToString(DigitsToNat(m.patch)) == m.patch
  }

  /** A bump is read back: when the version in metadata.txt is written
      without leading zeros, `read_current_version` after `update_metadata`
      returns the new version, whatever else the file holds. */
  lemma BumpThenRead(text: string, newVersion: Version)
    requires VersionPattern.Search(text).Some? && Canonical(VersionPattern.Search(text).value)
    ensures ReadCurrentVersion(Some(text)).Ok?
    ensures ReadCurrentVersion(Some(UpdateMetadata(text, ReadCurrentVersion(Some(text)).value, newVersion))) == Ok(newVersion)
  {
    var m := VersionPattern.Search(text).value;
    FirstOldAssignment(text);
    OldKeyIsMatch(text);
    var kOld := VersionPattern.MatchedText(m);
    assert UpdateMetadata(text, ReadCurrentVersion(Some(text)).value, newVersion)
        == ReplaceAll(text, kOld, VersionPattern.Key + VersionToString(newVersion));
    RewriteReadsBack(text, m.start, kOld, newVersion);
  }

  /** Replacing a `kOld` whose first occurrence is at `p`, where no match
      starts before `p` and no digit follows, by `version=<new>` leaves
      `<new>` as the version read. */
  lemma RewriteReadsBack(text: string, p: nat, kOld: string, newVersion: Version)
    requires kOld != [] && Find(text, kOld) == Some(p)
    requires p + |kOld| == |text| || !IsDigit(text[p + |kOld|])
    requires forall j: nat :: j < p ==> VersionPattern.MatchAt(text, j).None?
    ensures ReadCurrentVersion(Some(ReplaceAll(text, kOld, VersionPattern.Key + VersionToString(newVersion)))) == Ok(newVersion)
  {
    var kNew := VersionPattern.Key + VersionToString(newVersion);
    assert kNew[0] == 'v';
    RewriteShape(text, kOld, kNew, p);
    ReadAfterRewrite(text, p, newVersion, ReplaceAll(text[p + |kOld|..], kOld, kNew));
  }

  /** `replace` where the first occurrence of `kOld` is at `p` and no digit
      follows it, by a `kNew` that does not start with a digit: the text
      before `p` is kept, `kNew` comes next, and no digit follows that
      either. */
  lemma RewriteShape(text: string, kOld: string, kNew: string, p: nat)
    requires kOld != [] && kNew != [] && !IsDigit(kNew[0])
    requires Find(text, kOld) == Some(p) && (p + |kOld| == |text| || !IsDigit(text[p + |kOld|]))
    ensures var tail := ReplaceAll(text[p + |kOld|..], kOld, kNew);
      && ReplaceAll(text, kOld, kNew) == text[..p] + kNew + tail
      && (tail == [] || !IsDigit(tail[0]))
  {
    ReplaceAllStep(text, kOld, kNew, p);
    var rest := text[p + |kOld|..];
    if rest != [] {
      assert rest[0] == text[p + |kOld|];
      ReplaceAllHead(rest, kOld, kNew);
    }
  }

  /** The text of the leftmost match first occurs where that match starts,
      no match starts before it and no digit follows it. */
  lemma FirstOldAssignment(text: string)
    requires VersionPattern.Search(text).Some?
    ensures var m := VersionPattern.Search(text).value;
      var kOld := VersionPattern.MatchedText(m);
      && kOld != [] && Find(text, kOld) == Some(m.start)
      && (m.start + |kOld| == |text| || !IsDigit(text[m.start + |kOld|]))
      && forall j: nat :: j < m.start ==> VersionPattern.MatchAt(text, j).None?
  {
    var m := VersionPattern.Search(text).value;
    VersionPattern.MatchCovers(text, m.start);
    NoOccurrenceBefore(text, m);
    FindIs(text, VersionPattern.MatchedText(m), m.start);
  }

  /** For a version written without leading zeros, `version=` and
      `version_to_string` of the version read give back the matched text. */
  lemma OldKeyIsMatch(text: string)
    requires VersionPattern.Search(text).Some? && Canonical(VersionPattern.Search(text).value)
    ensures ReadCurrentVersion(Some(text)).Ok?
    ensures VersionPattern.Key + VersionToString(ReadCurrentVersion(Some(text)).value)
         == VersionPattern.MatchedText(VersionPattern.Search(text).value)
  {
    CanonicalText(VersionPattern.Search(text).value);
  }

  /** A canonical match's text is `version=` followed by `version_to_string` of its value. */
  lemma CanonicalText(m: VersionPattern.VersionMatch)
    requires Canonical(m)
    ensures VersionPattern.Key + VersionToString(Version(DigitsToNat(m.major), DigitsToNat(m.minor), DigitsToNat(m.patch)))
         == VersionPattern.MatchedText(m)
  {
  }

  /** What `update_metadata` evidently means: the version text that was read
      (the leftmost match) becomes `version=<new>`, however its digits are
      written. A text without a match is kept. */
  function UpdateMetadataIntended(content: string, newVersion: Version): string
  {
    match VersionPattern.Search(content)
    case None => content
    case Some(m) => ReplaceAll(content, VersionPattern.MatchedText(m), VersionPattern.Key + VersionToString(newVersion))
  }

  /** The intended update is read back as the new version whenever a version
      was read, with or without leading zeros. */
  lemma IntendedBumpThenRead(text: string, newVersion: Version)
    requires VersionPattern.Search(text).Some?
    ensures ReadCurrentVersion(Some(UpdateMetadataIntended(text, newVersion))) == Ok(newVersion)
  {
    var m := VersionPattern.Search(text).value;
    FirstOldAssignment(text);
    RewriteReadsBack(text, m.start, VersionPattern.MatchedText(m), newVersion);
  }

  /** A metadata.txt whose version has a leading zero. */
  const LeadingZeroText: string := "version=01.2.3"

  /** As written, a version with a leading zero is read but never rewritten:
      `version=01.2.3` reads as 1.2.3, `update_metadata` then looks for
      `version=1.2.3`, which does not occur, and a patch bump leaves the text
      as it was; the intended update gives 1.2.4. */
  lemma LeadingZeroNotRewritten()
    ensures ReadCurrentVersion(Some(LeadingZeroText)) == Ok(Version(1, 2, 3))
    ensures UpdateMetadata(LeadingZeroText, Version(1, 2, 3), Version(1, 2, 4)) == LeadingZeroText
    ensures ReadCurrentVersion(Some(UpdateMetadataIntended(LeadingZeroText, Version(1, 2, 4)))) == Ok(Version(1, 2, 4))
  {
    LeadingZeroRead();
    var oldKey := VersionPattern.Key + VersionToString(Version(1, 2, 3));
    StripsLeadingZero();
    ReplaceAllAbsent(LeadingZeroText, oldKey, VersionPattern.Key + VersionToString(Version(1, 2, 4)));
    IntendedBumpThenRead(LeadingZeroText, Version(1, 2, 4));
  }

  /** `version=01.2.3` reads as 1.2.3. */
  lemma LeadingZeroRead()
    ensures ReadCurrentVersion(Some(LeadingZeroText)) == Ok(Version(1, 2, 3))
  {
    var major, minor, patch := "01", "2", "3";
    assert LeadingZeroText == VersionPattern.Key + major + "." + minor + "." + patch;
    assert AllDigits(major) && AllDigits(minor) && AllDigits(patch);
    ReadWholeText(LeadingZeroText, major, minor, patch);
    assert DigitsToNat(major) == 1 && DigitsToNat(minor) == 2 && DigitsToNat(patch) == 3;
  }

  /** A text that is exactly `version=A.B.C` reads as the integers of its groups. */
  lemma ReadWholeText(s: string, major: string, minor: string, patch: string)
    requires major != [] && minor != [] && patch != []
    requires AllDigits(major) && AllDigits(minor) && AllDigits(patch)
    requires s == VersionPattern.Key + major + "." + minor + "." + patch
    ensures ReadCurrentVersion(Some(s)) == Ok(Version(DigitsToNat(major), DigitsToNat(minor), DigitsToNat(patch)))
  {
    assert s[0..|s|] == s;
    VersionPattern.MatchAtText(s, 0, major, minor, patch);
    VersionPattern.SearchFindsFirst(s, 0);
  }

  /** `version_to_string((1, 2, 3))` has no leading zero, so `version=1.2.3`
      does not occur in `version=01.2.3`. */
  lemma StripsLeadingZero()
    ensures !Contains(LeadingZeroText, VersionPattern.Key + VersionToString(Version(1, 2, 3)))
  {
    var s := LeadingZeroText;
    var oldKey := VersionPattern.Key + VersionToString(Version(1, 2, 3));
    assert VersionToString(Version(1, 2, 3)) == "1.2.3";
    assert |oldKey| == 13 && oldKey[0] == 'v' && oldKey[8] == '1';
    assert |s| == 14 && s[1] == 'e' && s[8] == '0';
    forall i: nat | i <= |s|
      ensures !OccursAt(s, oldKey, i)
    {
      if i == 0 {
        assert s[i..i + |oldKey|][8] != oldKey[8];
      } else if i == 1 {
        assert s[i..i + |oldKey|][0] != oldKey[0];
      }
    }
  }

  /** The text of the leftmost match does not occur before it: wherever it
      occurred, a match would start. */
  lemma NoOccurrenceBefore(text: string, m: VersionPattern.VersionMatch)
    requires VersionPattern.Search(text) == Some(m)
    ensures forall j: nat :: j < m.start ==> !OccursAt(text, VersionPattern.MatchedText(m), j)
  {
    forall j: nat | j < m.start
      ensures !OccursAt(text, VersionPattern.MatchedText(m), j)
    {
      if OccursAt(text, VersionPattern.MatchedText(m), j) {
        VersionPattern.MatchAtPrefix(text, j, m.major, m.minor, m.patch);
      }
    }
  }

  /** A text that keeps everything before `p` and has `version=<new>` there,
      followed by a non-digit, reads as the new version when no match
      started before `p`. */
  lemma ReadAfterRewrite(text: string, p: nat, newVersion: Version, tail: string)
    requires p <= |text|
    requires forall j: nat :: j < p ==> VersionPattern.MatchAt(text, j).None?
    requires tail == [] || !IsDigit(tail[0])
    ensures ReadCurrentVersion(Some(text[..p] + (VersionPattern.Key + VersionToString(newVersion)) + tail)) == Ok(newVersion)
  {
    var kNew := VersionPattern.Key + VersionToString(newVersion);
    var u := text[..p] + kNew + tail;
    assert u[p..p + |kNew|] == kNew;
    assert u[..p] == text[..p];
    VersionAt(u, p, newVersion);
    NoMatchBefore(u, text, p);
    VersionPattern.SearchFindsFirst(u, p);
  }

  /** No match starts before `p` in a text that agrees with `text` before
      a `v` at `p`, when none starts there in `text`. */
  lemma NoMatchBefore(u: string, text: string, p: nat)
    requires p < |u| && p <= |text| && u[..p] == text[..p] && u[p] == 'v'
    requires forall j: nat :: j < p ==> VersionPattern.MatchAt(text, j).None?
    ensures forall j: nat :: j < p ==> VersionPattern.MatchAt(u, j).None?
  {
    forall j: nat | j < p
      ensures VersionPattern.MatchAt(u, j).None?
    {
      VersionPattern.NoEarlierMatch(u, text, p, j);
    }
  }

  // ---------------------------------------------------------------------
  // __init__.py: rewriting an existing __version__
  // ---------------------------------------------------------------------

  const VersionName: string := "__version__"

  predicate IsQuote(c: char) {
    c == '"' || c == '\''
  }

  predicate IsVersionChar(c: char) {
    IsDigit(c) || c == '.'
  }

  /** The end of a match of `__version__\s*=\s*["\'][\d.]+["\']` anchored
      at `i`, if there is one. */
  function AssignmentMatchAt(s: string, i: nat): (r: Option<nat>)
    ensures r.Some? ==> i + |VersionName| < r.value <= |s| && OccursAt(s, VersionName, i)
    ensures r.Some? ==> IsQuote(s[r.value - 1])
  {
    if !OccursAt(s, VersionName, i) then None else RestFrom(s, i + |VersionName|, BeforeEquals)
  }

  /** Which part of `\s*=\s*["\'][\d.]+["\']` the matcher is in. */
  datatype RestStage =
    | BeforeEquals      // in the first `\s*`, or at the `=`
    | AfterEquals       // in the second `\s*`, or at the opening quote
    | FirstVersionChar  // at the first character of `[\d.]+`
    | VersionChars      // in the rest of `[\d.]+`, or at the closing quote

  /** The end of a match of the part of the pattern after the name, read
      from index `j` in the given stage. The match is read one character at
      a time: a greedy run never has to give back a character, because `\s`
      holds neither `=` nor a quote and `[\d.]` holds no quote, so the
      character after each run decides alone whether the pattern goes on. */
  function RestFrom(s: string, j: nat, stage: RestStage): (r: Option<nat>)
    requires j <= |s|
    ensures r.Some? ==> j < r.value <= |s| && IsQuote(s[r.value - 1])
    decreases |s| - j
  {
    if j == |s| then None
    else
      match stage
      case BeforeEquals =>
        if IsSpace(s[j]) then RestFrom(s, j + 1, BeforeEquals)
        else if s[j] == '=' then RestFrom(s, j + 1, AfterEquals)
        else None
      case AfterEquals =>
        if IsSpace(s[j]) then RestFrom(s, j + 1, AfterEquals)
        else if IsQuote(s[j]) then RestFrom(s, j + 1, FirstVersionChar)
        else None
      case FirstVersionChar =>
        if IsVersionChar(s[j]) then RestFrom(s, j + 1, VersionChars) else None
      case VersionChars =>
        if IsVersionChar(s[j]) then RestFrom(s, j + 1, VersionChars)
        else if IsQuote(s[j]) then Some(j + 1)
        else None
  }

  /** `re.sub` of that pattern by `rep` on `s[i..]`: scanning left to right,
      every match is replaced and the scan resumes after it. */
  function SubAssignmentsFrom(s: string, i: nat, rep: string): string
    requires i <= |s|
    decreases |s| - i
  {
    if i == |s| then ""
    else
      match AssignmentMatchAt(s, i)
      case Some(e) => rep + SubAssignmentsFrom(s, e, rep)
      case None => [s[i]] + SubAssignmentsFrom(s, i + 1, rep)
  }

  /** The replacement text `__version__ = "<new>"`. */
  function AssignmentLine(v: Version): string
  {
    VersionName + " = \"" + VersionToString(v) + "\""
  }

  /** Where no match starts, `re.sub` copies the text unchanged. */
  lemma {:induction false} SubWithoutMatch(s: string, i: nat, k: nat, rep: string)
    requires i <= k <= |s|
    requires forall j :: i <= j < k ==> AssignmentMatchAt(s, j).None?
    ensures SubAssignmentsFrom(s, i, rep) == s[i..k] + SubAssignmentsFrom(s, k, rep)
    decreases k - i
  {
    if i < k {
      SubCopies(s, i, rep);
      SubWithoutMatch(s, i + 1, k, rep);
      SliceCons(s, i, k);
      ConsAssoc(s[i], s[i + 1..k], SubAssignmentsFrom(s, k, rep));
    }
  }

  /** One step of the scan where a match starts: it is replaced. */
  lemma SubReplaces(s: string, i: nat, e: nat, rep: string)
    requires i < |s| && AssignmentMatchAt(s, i) == Some(e)
    ensures SubAssignmentsFrom(s, i, rep) == rep + SubAssignmentsFrom(s, e, rep)
  {
  }

  /** One step of the scan where no match starts: the character is copied. */
  lemma SubCopies(s: string, i: nat, rep: string)
    requires i < |s| && AssignmentMatchAt(s, i).None?
    ensures SubAssignmentsFrom(s, i, rep) == [s[i]] + SubAssignmentsFrom(s, i + 1, rep)
  {
  }

  /** An assignment `__version__ <sp> = <sp> <q> <digits and dots> <q>`. */
  function Assignment(space1: string, space2: string, open: char, digits: string, close: char): string
  {
    VersionName + AssignmentRest(space1, space2, open, digits, close)
  }

  /** What follows the name in an assignment. */
  function AssignmentRest(space1: string, space2: string, open: char, digits: string, close: char): string
  {
    space1 + "=" + space2 + [open] + digits + [close]
  }

  predicate AllSpace(s: string) {
    forall k :: 0 <= k < |s| ==> IsSpace(s[k])
  }

  predicate AllVersionChars(s: string) {
    forall k :: 0 <= k < |s| ==> IsVersionChar(s[k])
  }

  /** The matcher passes over a run of whitespace in either `\s*`. */
  lemma {:induction false} SkipSpaces(s: string, j: nat, sp: string, stage: RestStage)
    requires stage == BeforeEquals || stage == AfterEquals
    requires OccursAt(s, sp, j) && AllSpace(sp)
    ensures RestFrom(s, j, stage) == RestFrom(s, j + |sp|, stage)
    decreases |sp|
  {
    if sp != [] {
      assert s[j] == sp[0];
      assert s[j + 1..j + |sp|] == sp[1..];
      SkipSpaces(s, j + 1, sp[1..], stage);
    }
  }

  /** The matcher passes over a run of digits and dots in `[\d.]+`. */
  lemma {:induction false} SkipVersionChars(s: string, j: nat, ds: string)
    requires OccursAt(s, ds, j) && AllVersionChars(ds)
    ensures RestFrom(s, j, VersionChars) == RestFrom(s, j + |ds|, VersionChars)
    decreases |ds|
  {
    if ds != [] {
      assert s[j] == ds[0];
      assert s[j + 1..j + |ds|] == ds[1..];
      SkipVersionChars(s, j + 1, ds[1..]);
    }
  }

  /** An assignment occurring at `i` is matched exactly, whatever follows it. */
  lemma AssignmentMatched(s: string, i: nat, space1: string, space2: string, open: char, digits: string, close: char)
    requires AllSpace(space1) && AllSpace(space2) && AllVersionChars(digits) && digits != []
    requires IsQuote(open) && IsQuote(close)
    requires OccursAt(s, Assignment(space1, space2, open, digits, close), i)
    ensures AssignmentMatchAt(s, i) == Some(i + |Assignment(space1, space2, open, digits, close)|)
  {
    var r := AssignmentRest(space1, space2, open, digits, close);
    OccursSplit(s, VersionName, r, i);
    RestMatched(s, i + |VersionName|, space1, space2, open, digits, close);
  }

  /** What follows the name, occurring at `a`, is matched exactly. */
  lemma RestMatched(s: string, a: nat, space1: string, space2: string, open: char, digits: string, close: char)
    requires AllSpace(space1) && AllSpace(space2) && AllVersionChars(digits) && digits != []
    requires IsQuote(open) && IsQuote(close)
    requires OccursAt(s, AssignmentRest(space1, space2, open, digits, close), a)
    ensures RestFrom(s, a, BeforeEquals) == Some(a + |AssignmentRest(space1, space2, open, digits, close)|)
  {
    RestPieces(s, a, space1, space2, open, digits, close);
    RestFromPieces(s, a, space1, space2, digits);
  }

  /** The part after the name, from where its pieces sit. */
  lemma RestFromPieces(s: string, a: nat, space1: string, space2: string, digits: string)
    requires SpacesBefore(s, a, space1, '=')
    requires SpacesBeforeQuote(s, a + |space1| + 1, space2)
    requires VersionCharsBeforeQuote(s, a + |space1| + |space2| + 2, digits)
    ensures RestFrom(s, a, BeforeEquals) == Some(a + |space1| + |space2| + |digits| + 3)
  {
    EqualsMatched(s, a, space1);
    QuoteDigitsMatched(s, a + |space1| + 1, space2, digits);
  }

  /** The second `\s*`, the quotes and the version between them, occurring at `j`. */
  lemma QuoteDigitsMatched(s: string, j: nat, sp: string, digits: string)
    requires SpacesBeforeQuote(s, j, sp)
    requires VersionCharsBeforeQuote(s, j + |sp| + 1, digits)
    ensures RestFrom(s, j, AfterEquals) == Some(j + |sp| + |digits| + 2)
  {
    QuoteMatched(s, j, sp);
    DigitsMatched(s, j + |sp| + 1, digits);
  }

  /** `sp` is whitespace, occurs at `j` and is followed by `c`. */
  predicate SpacesBefore(s: string, j: nat, sp: string, c: char) {
    AllSpace(sp) && OccursAt(s, sp, j) && j + |sp| < |s| && s[j + |sp|] == c
  }

  /** `sp` is whitespace, occurs at `j` and is followed by a quote. */
  predicate SpacesBeforeQuote(s: string, j: nat, sp: string) {
    AllSpace(sp) && OccursAt(s, sp, j) && j + |sp| < |s| && IsQuote(s[j + |sp|])
  }

  /** `ds` is a non-empty run of digits and dots, occurs at `j` and is followed by a quote. */
  predicate VersionCharsBeforeQuote(s: string, j: nat, ds: string) {
    AllVersionChars(ds) && ds != [] && OccursAt(s, ds, j) && j + |ds| < |s| && IsQuote(s[j + |ds|])
  }

  /** The first `\s*` and the `=`, occurring at `j`, are matched exactly. */
  lemma EqualsMatched(s: string, j: nat, sp: string)
    requires SpacesBefore(s, j, sp, '=')
    ensures RestFrom(s, j, BeforeEquals) == RestFrom(s, j + |sp| + 1, AfterEquals)
  {
    SkipSpaces(s, j, sp, BeforeEquals);
  }

  /** The second `\s*` and the opening quote, occurring at `j`, are matched exactly. */
  lemma QuoteMatched(s: string, j: nat, sp: string)
    requires SpacesBeforeQuote(s, j, sp)
    ensures RestFrom(s, j, AfterEquals) == RestFrom(s, j + |sp| + 1, FirstVersionChar)
  {
    SkipSpaces(s, j, sp, AfterEquals);
  }

  /** `[\d.]+` and the closing quote, occurring at `j`, are matched exactly. */
  lemma DigitsMatched(s: string, j: nat, digits: string)
    requires VersionCharsBeforeQuote(s, j, digits)
    ensures RestFrom(s, j, FirstVersionChar) == Some(j + |digits| + 1)
  {
    assert s[j] == digits[0];
    assert RestFrom(s, j, FirstVersionChar) == RestFrom(s, j + 1, VersionChars);
    assert s[j + 1..j + |digits|] == digits[1..];
    SkipVersionChars(s, j + 1, digits[1..]);
  }

  /** Where each piece of what follows the name sits when it occurs at `a`. */
  lemma RestPieces(s: string, a: nat, space1: string, space2: string, open: char, digits: string, close: char)
    requires OccursAt(s, AssignmentRest(space1, space2, open, digits, close), a)
    ensures var e := a + |space1|;
      var q := e + 1 + |space2|;
      && OccursAt(s, space1, a) && s[e] == '='
      && OccursAt(s, space2, e + 1) && s[q] == open
      && OccursAt(s, digits, q + 1) && q + 1 + |digits| < |s| && s[q + 1 + |digits|] == close
      && |AssignmentRest(space1, space2, open, digits, close)| == |space1| + |space2| + |digits| + 3
  {
    var w := space1 + "=";
    var z := w + space2;
    var y := z + [open];
    var x := y + digits;
    OccursSplit(s, x, [close], a);
    OccursSplit(s, y, digits, a);
    OccursSplit(s, z, [open], a);
    OccursSplit(s, w, space2, a);
    OccursSplit(s, space1, "=", a);
    OccursChar(s, close, a + |x|);
    OccursChar(s, open, a + |z|);
    OccursChar(s, '=', a + |space1|);
  }

  /** A file with a single `__version__` assignment gets exactly that
      assignment rewritten to `__version__ = "<new>"`; the text around it
      is kept. */
  lemma SubSingleAssignment(before: string, space1: string, space2: string, open: char, digits: string, close: char,
                            after: string, newVersion: Version)
    requires AllSpace(space1) && AllSpace(space2) && AllVersionChars(digits) && digits != []
    requires IsQuote(open) && IsQuote(close)
    requires var s := before + Assignment(space1, space2, open, digits, close) + after;
      forall j :: 0 <= j < |s| && j != |before| ==> AssignmentMatchAt(s, j).None?
    ensures SubAssignmentsFrom(before + Assignment(space1, space2, open, digits, close) + after, 0, AssignmentLine(newVersion))
         == before + AssignmentLine(newVersion) + after
  {
    var t := Assignment(space1, space2, open, digits, close);
    var s := before + t + after;
    assert s[|before|..|before| + |t|] == t;
    AssignmentMatched(s, |before|, space1, space2, open, digits, close);
    SubOneMatch(s, |before|, |before| + |t|, AssignmentLine(newVersion));
    assert s[..|before|] == before;
    assert s[|before| + |t|..] == after;
  }

  /** When exactly one match starts in `s`, at `i` and ending at `e`, `re.sub`
      replaces it and copies the rest. */
  lemma SubOneMatch(s: string, i: nat, e: nat, rep: string)
    requires i < e <= |s| && AssignmentMatchAt(s, i) == Some(e)
    requires forall j :: 0 <= j < |s| && j != i ==> AssignmentMatchAt(s, j).None?
    ensures SubAssignmentsFrom(s, 0, rep) == s[..i] + rep + s[e..]
  {
    SubWithoutMatch(s, 0, i, rep);
    SubReplaces(s, i, e, rep);
    SubWithoutMatch(s, e, |s|, rep);
    assert SubAssignmentsFrom(s, |s|, rep) == [];
    Splice(s, i, e, rep, SubAssignmentsFrom(s, 0, rep), SubAssignmentsFrom(s, e, rep), SubAssignmentsFrom(s, |s|, rep));
  }

  /** The pieces of a scan that copies, replaces once, then copies to the end
      make up the spliced text. */
  lemma Splice(s: string, i: nat, e: nat, rep: string, whole: string, rest: string, end: string)
    requires i <= e <= |s| && end == []
    requires whole == s[0..i] + (rep + rest) && rest == s[e..|s|] + end
    ensures whole == s[..i] + rep + s[e..]
  {
    assert s[0..i] == s[..i] && s[e..|s|] == s[e..];
  }

  // ---------------------------------------------------------------------
  // __init__.py: inserting a __version__ where there is none
  // ---------------------------------------------------------------------

  const TripleQuote: string := "\"\"\""

  /** The test of the insertion loop: a line that is neither blank, nor a
      comment, nor holds a docstring delimiter. */
  predicate IsCodeLine(line: string) {
    Strip(line) != [] && !StartsWith(Strip(line), "#") && !Contains(line, TripleQuote)
  }

  /** The first line at or after `from` that passes `test`. */
  function FirstWhere(lines: seq<string>, from: nat, test: string -> bool): (r: Option<nat>)
    requires from <= |lines|
    ensures r.Some? ==> from <= r.value < |lines| && test(lines[r.value])
    ensures r.Some? ==> forall j :: from <= j < r.value ==> !test(lines[j])
    ensures r.None? ==> forall j :: from <= j < |lines| ==> !test(lines[j])
    decreases |lines| - from
  {
    if from == |lines| then None
    else if test(lines[from]) then Some(from)
    else FirstWhere(lines, from + 1, test)
  }

  /** A line that passes `test` with none passing between `from` and it is
      the one found. */
  lemma FirstWhereIs(lines: seq<string>, from: nat, test: string -> bool, k: nat)
    requires from <= k < |lines| && test(lines[k])
    requires forall j :: from <= j < k ==> !test(lines[j])
    ensures FirstWhere(lines, from, test) == Some(k)
  {
  }

  /** The first line at or after `from` that passes the test of the loop. */
  function FirstCodeLine(lines: seq<string>, from: nat): (r: Option<nat>)
    requires from <= |lines|
  {
    FirstWhere(lines, from, IsCodeLine)
  }

  /** The index the script inserts at: the first line passing the test, or 0. */
  function InsertIndexAsWritten(lines: seq<string>): (idx: nat)
    ensures idx == 0 || (idx < |lines| && IsCodeLine(lines[idx]))
    ensures forall j :: 0 <= j < idx ==> !IsCodeLine(lines[j])
    ensures (exists j :: 0 <= j < |lines| && IsCodeLine(lines[j])) ==> idx < |lines| && IsCodeLine(lines[idx])
  {
    match FirstCodeLine(lines, 0)
    case None => 0
    case Some(i) => i
  }

  /** The insertion loop as written: it stops at the first line that passes
      the test, and keeps 0 when no line does. */
  method FindInsertIndexAsWritten(lines: seq<string>) returns (idx: nat)
    ensures idx == InsertIndexAsWritten(lines)
  {
    idx := 0;
    var i := 0;
    while i < |lines|
      invariant i <= |lines|
      invariant FirstCodeLine(lines, 0) == FirstCodeLine(lines, i)
    {
      if IsCodeLine(lines[i]) {
        assert FirstCodeLine(lines, i) == Some(i);
        idx := i;
        return;
      }
      assert FirstCodeLine(lines, i) == FirstCodeLine(lines, i + 1);
      i := i + 1;
    }
    assert FirstCodeLine(lines, i) == None;
  }

  /** Python's `line.count('"""')`. */
  function DelimiterCount(line: string): nat
  {
    |Split(line, TripleQuote)| - 1
  }

  /** The docstring delimiters in a sequence of lines. */
  function Delimiters(lines: seq<string>): nat
  {
    if lines == [] then 0 else Delimiters(lines[..|lines| - 1]) + DelimiterCount(lines[|lines| - 1])
  }

  /** Line `j` is code that does not sit inside a docstring: an even number
      of delimiters comes before it. */
  predicate CodeOutsideDocstring(lines: seq<string>, j: nat)
    requires j < |lines|
  {
    IsCodeLine(lines[j]) && Delimiters(lines[..j]) % 2 == 0
  }

  /** The first code line outside a docstring at or after `from`. */
  function FirstCodeOutside(lines: seq<string>, from: nat): (r: Option<nat>)
    requires from <= |lines|
    ensures r.Some? ==> from <= r.value < |lines| && CodeOutsideDocstring(lines, r.value)
    ensures r.Some? ==> forall j :: from <= j < r.value ==> !CodeOutsideDocstring(lines, j)
    ensures r.None? ==> forall j :: from <= j < |lines| ==> !CodeOutsideDocstring(lines, j)
    decreases |lines| - from
  {
    if from == |lines| then None
    else if CodeOutsideDocstring(lines, from) then Some(from)
    else FirstCodeOutside(lines, from + 1)
  }

  /** The index the insertion evidently means: after the leading comments
      and docstring, at the first code line outside a docstring, or 0. */
  function InsertIndex(lines: seq<string>): (idx: nat)
    ensures idx == 0 || (idx < |lines| && CodeOutsideDocstring(lines, idx))
    ensures forall j :: 0 <= j < idx ==> !CodeOutsideDocstring(lines, j)
    ensures (exists j :: 0 <= j < |lines| && CodeOutsideDocstring(lines, j)) ==>
      idx < |lines| && CodeOutsideDocstring(lines, idx)
  {
    match FirstCodeOutside(lines, 0)
    case None => 0
    case Some(i) => i
  }

  /** The insertion loop, counting the docstring delimiters it passes. */
  method FindInsertIndex(lines: seq<string>) returns (idx: nat)
    ensures idx == InsertIndex(lines)
  {
    idx := 0;
    var seen := 0;
    var i := 0;
    while i < |lines|
      invariant i <= |lines|
      invariant seen == Delimiters(lines[..i])
      invariant FirstCodeOutside(lines, 0) == FirstCodeOutside(lines, i)
    {
      OutsideStep(lines, i);
      if IsCodeLine(lines[i]) && seen % 2 == 0 {
        idx := i;
        return;
      }
      seen := seen + DelimiterCount(lines[i]);
      i := i + 1;
    }
  }

  /** One step of the loop: line `i` is found or the search moves on, and
      its delimiters join the count. */
  lemma OutsideStep(lines: seq<string>, i: nat)
    requires i < |lines|
    ensures Delimiters(lines[..i + 1]) == Delimiters(lines[..i]) + DelimiterCount(lines[i])
    ensures FirstCodeOutside(lines, i)
      == if CodeOutsideDocstring(lines, i) then Some(i) else FirstCodeOutside(lines, i + 1)
  {
    DelimitersStep(lines, i);
  }

  /** A line holding no double quote. */
  predicate NoQuote(line: string) {
    forall k :: 0 <= k < |line| ==> line[k] != '"'
  }

  /** A line of text with no quote, no comment sign and no surrounding space. */
  predicate PlainText(line: string) {
    line != [] && !IsSpace(line[0]) && !IsSpace(line[|line| - 1]) && line[0] != '#' && NoQuote(line)
  }

  /** The shape of the repository's `__init__.py` without its version lines:
      a comment, a module docstring spread over three lines, a blank line and
      the first statement (`# -*- coding: utf-8 -*-`, `"""`, `GIS SHP Loader`,
      `"""`, ``, `def classFactory(iface):`, abridged). */
  function DocumentedModule(comment: string, title: string, statement: string): seq<string>
  {
    [comment, TripleQuote, title, TripleQuote, "", statement]
  }

  /** What the line tests see in such a module, with `code` the test for a
      code line: a comment, a delimiter, a code line, a delimiter, a blank
      line and a code line, with no other delimiters. */
  predicate ModuleShape(lines: seq<string>, code: string -> bool) {
    && |lines| == 6
    && !code(lines[0]) && DelimiterCount(lines[0]) == 0
    && !code(lines[1]) && lines[1] == TripleQuote
    && code(lines[2]) && DelimiterCount(lines[2]) == 0
    && lines[3] == TripleQuote
    && !code(lines[4]) && DelimiterCount(lines[4]) == 0
    && code(lines[5])
  }

  /** The module built from a comment, a title and a statement has that shape. */
  lemma DocumentedModuleShape(comment: string, title: string, statement: string)
    requires comment != [] && comment[0] == '#' && NoQuote(comment)
    requires PlainText(title) && PlainText(statement)
    ensures ModuleShape(DocumentedModule(comment, title, statement), IsCodeLine)
  {
    var lines := DocumentedModule(comment, title, statement);
    assert |lines| == 6 && lines[0] == comment && lines[1] == TripleQuote && lines[2] == title;
    assert lines[3] == TripleQuote && lines[4] == "" && lines[5] == statement;
    HeaderLines(comment, title);
    TailLines(statement);
  }

  /** The comment and the delimiter are not code; the title is. */
  lemma HeaderLines(comment: string, title: string)
    requires comment != [] && comment[0] == '#' && NoQuote(comment)
    requires PlainText(title)
    ensures !IsCodeLine(comment) && DelimiterCount(comment) == 0
    ensures !IsCodeLine(TripleQuote) && DelimiterCount(TripleQuote) == 1
    ensures IsCodeLine(title) && DelimiterCount(title) == 0
  {
    CommentLine(comment);
    DelimiterLine(TripleQuote);
    PlainCodeLine(title);
  }

  /** The blank line is not code; the statement is. */
  lemma TailLines(statement: string)
    requires PlainText(statement)
    ensures !IsCodeLine("") && DelimiterCount("") == 0
    ensures IsCodeLine(statement)
  {
    BlankLine("");
    PlainCodeLine(statement);
  }

  /** As written, the loop stops at the first line of the module docstring's
      text, so the new assignment lands inside the docstring. */
  lemma AsWrittenInsertsInsideDocstring(comment: string, title: string, statement: string)
    requires comment != [] && comment[0] == '#' && NoQuote(comment)
    requires PlainText(title) && PlainText(statement)
    ensures InsertIndexAsWritten(DocumentedModule(comment, title, statement)) == 2
    ensures Delimiters(DocumentedModule(comment, title, statement)[..2]) % 2 == 1
  {
    DocumentedModuleShape(comment, title, statement);
    AsWrittenIndexOfShape(DocumentedModule(comment, title, statement));
  }

  /** On a module of that shape the loop as written stops at line 2, after
      an odd number of delimiters. */
  lemma AsWrittenIndexOfShape(lines: seq<string>)
    requires ModuleShape(lines, IsCodeLine)
    ensures InsertIndexAsWritten(lines) == 2
    ensures Delimiters(lines[..2]) % 2 == 1
  {
    FirstOfShape(lines, IsCodeLine);
  }

  /** Whatever the test, line 2 is the first of such a module to pass it,
      and an odd number of delimiters comes before it. */
  lemma FirstOfShape(lines: seq<string>, code: string -> bool)
    requires ModuleShape(lines, code)
    ensures FirstWhere(lines, 0, code) == Some(2)
    ensures Delimiters(lines[..2]) % 2 == 1
  {
    FirstWhereIs(lines, 0, code, 2);
    DelimitersOfPrefix(lines, code, 2);
  }

  /** Counting delimiters, the insertion lands on the first statement after
      the docstring. */
  lemma InsertIndexSkipsDocstring(comment: string, title: string, statement: string)
    requires comment != [] && comment[0] == '#' && NoQuote(comment)
    requires PlainText(title) && PlainText(statement)
    ensures InsertIndex(DocumentedModule(comment, title, statement)) == 5
  {
    DocumentedModuleShape(comment, title, statement);
    IndexOfShape(DocumentedModule(comment, title, statement));
  }

  /** On a module of that shape the corrected index is line 5: line 2 is
      inside the docstring and lines 0, 1, 3 and 4 are not code. */
  lemma IndexOfShape(lines: seq<string>)
    requires ModuleShape(lines, IsCodeLine)
    ensures InsertIndex(lines) == 5
  {
    DelimitersOfPrefix(lines, IsCodeLine, 2);
    DelimitersOfPrefix(lines, IsCodeLine, 5);
    assert FirstCodeOutside(lines, 5) == Some(5);
    assert FirstCodeOutside(lines, 4) == Some(5);
    assert FirstCodeOutside(lines, 3) == Some(5);
    assert FirstCodeOutside(lines, 2) == Some(5);
    assert FirstCodeOutside(lines, 1) == Some(5);
    assert FirstCodeOutside(lines, 0) == Some(5);
  }

  /** The delimiters before line 2 and line 5 of such a module, whatever
      the test for code lines. */
  lemma DelimitersOfPrefix(lines: seq<string>, code: string -> bool, n: nat)
    requires ModuleShape(lines, code) && (n == 2 || n == 5)
    ensures Delimiters(lines[..n]) == if n == 5 then 2 else 1
  {
    OneDelimiter();
    assert lines[..0] == [];
    DelimitersStep(lines, 0);
    DelimitersStep(lines, 1);
    DelimitersStep(lines, 2);
    DelimitersStep(lines, 3);
    DelimitersStep(lines, 4);
  }

  /** The delimiters of one more line. */
  lemma DelimitersStep(lines: seq<string>, i: nat)
    requires i < |lines|
    ensures Delimiters(lines[..i + 1]) == Delimiters(lines[..i]) + DelimiterCount(lines[i])
  {
    assert lines[..i + 1][..i] == lines[..i];
  }

  /** A line of text with no quote, no comment sign and no surrounding
      space is code and holds no delimiter. */
  lemma PlainCodeLine(line: string)
    requires PlainText(line)
    ensures IsCodeLine(line) && DelimiterCount(line) == 0
  {
    Unstripped(line);
    NoDelimiter(line);
    NotComment(line);
  }

  /** A line that begins and ends with a visible character is its own strip. */
  lemma Unstripped(line: string)
    requires line != [] && !IsSpace(line[0]) && !IsSpace(line[|line| - 1])
    ensures Strip(line) == line
  {
  }

  /** A line starting with `#` is a comment, not code. */
  lemma CommentLine(line: string)
    requires line != [] && line[0] == '#' && NoQuote(line)
    ensures !IsCodeLine(line) && DelimiterCount(line) == 0
  {
    assert Strip(line)[0] == '#';
    NoDelimiter(line);
  }

  /** An empty line is not code. */
  lemma BlankLine(line: string)
    requires line == []
    ensures !IsCodeLine(line) && DelimiterCount(line) == 0
  {
    NoDelimiter(line);
  }

  /** A line without a double quote holds no docstring delimiter. */
  lemma NoDelimiter(line: string)
    requires NoQuote(line)
    ensures !Contains(line, TripleQuote) && DelimiterCount(line) == 0
  {
    forall i: nat | i <= |line|
      ensures !OccursAt(line, TripleQuote, i)
    {
      if i + 3 <= |line| {
        assert line[i..i + 3][0] == line[i];
      }
    }
  }

  /** A line whose first character is not `#` does not start with it. */
  lemma NotComment(line: string)
    requires line != [] && line[0] != '#'
    ensures !StartsWith(line, "#")
  {
  }

  /** A line that is just a delimiter holds one and is not code. */
  lemma DelimiterLine(line: string)
    requires line == TripleQuote
    ensures Contains(line, TripleQuote) && DelimiterCount(line) == 1 && !IsCodeLine(line)
  {
    OneDelimiter();
    assert OccursAt(line, TripleQuote, 0);
  }

  /** `'"""'.count('"""')` is 1. */
  lemma OneDelimiter()
    ensures DelimiterCount(TripleQuote) == 1
  {
    assert OccursAt(TripleQuote, TripleQuote, 0);
    assert Find(TripleQuote, TripleQuote) == Some(0);
    assert Split(TripleQuote[3..], TripleQuote) == [[]];
  }

  // ---------------------------------------------------------------------
  // __init__.py: the whole update
  // ---------------------------------------------------------------------

  /** The two lines the script inserts; the first carries a blank line before it. */
  function VersionLines(v: Version): seq<string>
  {
    ["\n" + AssignmentLine(v), "__version_info__ = " + TupleToString(v) + "\n"]
  }

  /** The lines of `__init__.py` with the two version lines inserted at
      `idx`, joined again. */
  function InsertedAt(lines: seq<string>, idx: nat, v: Version): string
    requires idx <= |lines|
  {
    Join(lines[..idx] + VersionLines(v) + lines[idx..], "\n")
  }

  /** The new text of `__init__.py` the script writes: an existing
      `__version__` assignment is rewritten; otherwise the two version lines
      are inserted at the index of the loop as written. */
  function UpdatedInit(content: string, v: Version): string
  {
    if Contains(content, VersionName) then SubAssignmentsFrom(content, 0, AssignmentLine(v))
    else
      var lines := Split(content, "\n");
      InsertedAt(lines, InsertIndexAsWritten(lines), v)
  }

  /** The new text the insertion evidently means: the version lines go after
      the leading comments and the module docstring. */
  function UpdatedInitIntended(content: string, v: Version): string
  {
    if Contains(content, VersionName) then SubAssignmentsFrom(content, 0, AssignmentLine(v))
    else
      var lines := Split(content, "\n");
      InsertedAt(lines, InsertIndex(lines), v)
  }

  /** `update_init_file`: `None` (False, nothing written) when the file is
      missing, otherwise its new text. */
  method UpdateInitFile(content: Option<string>, v: Version) returns (r: Option<string>)
    ensures content.None? ==> r.None?
    ensures content.Some? ==> r == Some(UpdatedInit(content.value, v))
  {
    if content.None? {
      return None;
    }
    var text := content.value;
    if Contains(text, VersionName) {
      return Some(SubAssignmentsFrom(text, 0, AssignmentLine(v)));
    }
    var lines := Split(text, "\n");
    var idx := FindInsertIndexAsWritten(lines);
    var inserted := VersionLines(v);
    var once := lines[..idx] + [inserted[0]] + lines[idx..];
    var twice := once[..idx + 1] + [inserted[1]] + once[idx + 1..];
    InsertTwice(lines, idx, inserted[0], inserted[1]);
    assert twice == lines[..idx] + inserted + lines[idx..];
    return Some(Join(twice, "\n"));
  }

  /** `lines.insert(i, a)` then `lines.insert(i + 1, b)` put `a, b` at `i`. */
  lemma InsertTwice<T>(xs: seq<T>, i: nat, a: T, b: T)
    requires i <= |xs|
    ensures var once := xs[..i] + [a] + xs[i..];
      once[..i + 1] + [b] + once[i + 1..] == xs[..i] + [a, b] + xs[i..]
  {
    var once := xs[..i] + [a] + xs[i..];
    assert once[..i + 1] == xs[..i] + [a];
    assert once[i + 1..] == xs[i..];
  }

  /** The inserted assignment is the one the rewriting pattern matches. */
  lemma AssignmentLineIsAssignment(v: Version)
    ensures AssignmentLine(v) == Assignment(" ", " ", '"', VersionToString(v), '"')
    ensures AllVersionChars(VersionToString(v)) && VersionToString(v) != []
  {
    var a, b, c := NatToString(v.major), NatToString(v.minor), NatToString(v.patch);
    var s := VersionToString(v);
    assert s == a + "." + b + "." + c;
    forall k | 0 <= k < |s|
      ensures IsVersionChar(s[k])
    {
      if k < |a| {
        assert s[k] == a[k];
      } else if k == |a| {
      } else if k < |a| + 1 + |b| {
        assert s[k] == b[k - |a| - 1];
      } else if k == |a| + 1 + |b| {
      } else {
        assert s[k] == c[k - |a| - |b| - 2];
      }
    }
  }

  /** Where `__init__.py` has no `__version__`, the update leaves one that
      the rewriting pattern matches, so a later bump rewrites it instead of
      inserting a second one. */
  lemma InsertedVersionIsRewritable(content: string, v: Version)
    requires !Contains(content, VersionName)
    ensures exists i: nat :: OccursAt(UpdatedInit(content, v), AssignmentLine(v), i)
                         && AssignmentMatchAt(UpdatedInit(content, v), i) == Some(i + |AssignmentLine(v)|)
    ensures Contains(UpdatedInit(content, v), VersionName)
  {
    var lines := Split(content, "\n");
    var idx := InsertIndexAsWritten(lines);
    var parts := lines[..idx] + VersionLines(v) + lines[idx..];
    assert UpdatedInit(content, v) == Join(parts, "\n");
    assert parts[idx] == "\n" + AssignmentLine(v);
    RewritableInJoin(parts, idx, v);
  }

  /** A joined text with the line `\n__version__ = "<v>"` among its parts
      holds an assignment the rewriting pattern matches. */
  lemma RewritableInJoin(parts: seq<string>, k: nat, v: Version)
    requires k < |parts| && parts[k] == "\n" + AssignmentLine(v)
    ensures exists i: nat :: OccursAt(Join(parts, "\n"), AssignmentLine(v), i)
                         && AssignmentMatchAt(Join(parts, "\n"), i) == Some(i + |AssignmentLine(v)|)
    ensures Contains(Join(parts, "\n"), VersionName)
  {
    var r := Join(parts, "\n");
    JoinHasPart(parts, "\n", k);
    var o: nat :| o <= |r| && OccursAt(r, parts[k], o);
    InsertedLineAt(r, o, v);
  }

  /** Where the inserted line occurs, the assignment after its line break is matched. */
  lemma InsertedLineAt(r: string, o: nat, v: Version)
    requires OccursAt(r, "\n" + AssignmentLine(v), o)
    ensures OccursAt(r, AssignmentLine(v), o + 1)
    ensures AssignmentMatchAt(r, o + 1) == Some(o + 1 + |AssignmentLine(v)|)
    ensures Contains(r, VersionName)
  {
    OccursSplit(r, "\n", AssignmentLine(v), o);
    LineMatched(r, o + 1, v);
    LineHasName(r, o + 1, v);
  }

  /** Wherever `__version__ = "<v>"` occurs, the text contains `__version__`. */
  lemma LineHasName(r: string, i: nat, v: Version)
    requires OccursAt(r, AssignmentLine(v), i)
    ensures Contains(r, VersionName)
  {
    LineNamesVersion(v);
    OccursWithin(r, AssignmentLine(v), VersionName, i, 0);
  }

  /** Wherever `__version__ = "<v>"` occurs, the rewriting pattern matches it exactly. */
  lemma LineMatched(s: string, i: nat, v: Version)
    requires OccursAt(s, AssignmentLine(v), i)
    ensures AssignmentMatchAt(s, i) == Some(i + |AssignmentLine(v)|)
  {
    AssignmentLineIsAssignment(v);
    AssignmentMatched(s, i, " ", " ", '"', VersionToString(v), '"');
  }

  lemma LineNamesVersion(v: Version)
    ensures OccursAt(AssignmentLine(v), VersionName, 0)
  {
    assert AssignmentLine(v)[..|VersionName|] == VersionName;
  }

  /** The script's insertion keeps every line before the insertion point as
      the start of the file, and none of those passes the loop's test. */
  lemma InsertionKeepsHeader(content: string, v: Version)
    requires !Contains(content, VersionName)
    ensures var lines := Split(content, "\n");
      && StartsWith(UpdatedInit(content, v), Join(lines[..InsertIndexAsWritten(lines)], "\n"))
      && forall j :: 0 <= j < InsertIndexAsWritten(lines) ==> !IsCodeLine(lines[j])
  {
    var lines := Split(content, "\n");
    HeaderKept(lines, InsertIndexAsWritten(lines), v);
  }

  /** The intended insertion keeps every line before the insertion point,
      and none of those is code outside a docstring. */
  lemma InsertionKeepsHeaderIntended(content: string, v: Version)
    requires !Contains(content, VersionName)
    ensures var lines := Split(content, "\n");
      && StartsWith(UpdatedInitIntended(content, v), Join(lines[..InsertIndex(lines)], "\n"))
      && forall j :: 0 <= j < InsertIndex(lines) ==> !CodeOutsideDocstring(lines, j)
  {
    var lines := Split(content, "\n");
    HeaderKept(lines, InsertIndex(lines), v);
  }

  /** Inserting at `idx` keeps the lines before it as the start of the text. */
  lemma HeaderKept(lines: seq<string>, idx: nat, v: Version)
    requires idx <= |lines|
    ensures StartsWith(InsertedAt(lines, idx, v), Join(lines[..idx], "\n"))
  {
    var head, tail := lines[..idx], VersionLines(v) + lines[idx..];
    assert head + VersionLines(v) + lines[idx..] == head + tail;
    JoinAppend(head, tail, "\n");
  }

  // ---------------------------------------------------------------------
  // CHANGELOG.md
  // ---------------------------------------------------------------------

  const Unreleased: string := "## [Unreleased]"

  /** The date `strftime('%Y-%m-%d')` writes: digits and dashes. */
  predicate IsDateText(today: string) {
    forall k :: 0 <= k < |today| ==> IsDigit(today[k]) || today[k] == '-'
  }

  /** The section written for a new version. */
  function NewSection(v: Version, today: string): string
  {
    "\n\n## [" + VersionToString(v) + "] - " + today + "\n### Changed\n- 버전 업데이트\n"
  }

  /** `update_changelog`: `None` (False, nothing written) when the file is
      missing or has no `## [Unreleased]` header; otherwise the new section is
      written right after the first such header. The replacement holds no
      backslash, so `re.sub` inserts it literally. */
  function UpdatedChangelog(content: Option<string>, v: Version, today: string): (r: Option<string>)
    requires IsDateText(today)
    ensures r.Some? <==> content.Some? && Contains(content.value, Unreleased)
  {
    match content
    case None => None
    case Some(text) =>
      if Contains(text, Unreleased) then Some(ReplaceFirst(text, Unreleased, Unreleased + NewSection(v, today)))
      else None
  }

  /** The new section sits directly under the first `## [Unreleased]` header,
      the rest of the changelog is kept around it, and that header is still
      the first one, so the next release goes above this one. */
  lemma ChangelogSectionUnderHeader(text: string, v: Version, today: string)
    requires IsDateText(today) && Contains(text, Unreleased)
    ensures var i := Find(text, Unreleased).value;
      var r := UpdatedChangelog(Some(text), v, today).value;
      var at := i + |Unreleased|;
      && r == text[..at] + NewSection(v, today) + text[at..]
      && r[..at] + r[at + |NewSection(v, today)|..] == text
      && Find(r, Unreleased) == Some(i)
  {
    InsertAfterFirst(text, Unreleased, NewSection(v, today), Find(text, Unreleased).value);
  }

  // ---------------------------------------------------------------------
  // main
  // ---------------------------------------------------------------------

  /** The three files the script reads and rewrites; `None` for a missing one. */
  datatype Files = Files(metadata: Option<string>, init: Option<string>, changelog: Option<string>)

  /** The exit status and the files as the run leaves them. */
  datatype Outcome = Outcome(exitCode: int, files: Files)

  /** `len(sys.argv) == 2 and sys.argv[1] in ['major', 'minor', 'patch']`. */
  predicate ValidArguments(argv: seq<string>) {
    |argv| == 2 && IsBumpKind(argv[1])
  }

  /** `confirm.lower() == 'y'`. */
  predicate Confirmed(answer: string) {
    answer == "y" || answer == "Y"
  }

  /** `main`: check the arguments, read and bump the version, ask for
      confirmation, then rewrite the three files. `answer` is what `input`
      returns and `today` the date `datetime.now()` gives. */
  method BumpRelease(argv: seq<string>, answer: string, files: Files, today: string) returns (out: Outcome)
    requires IsDateText(today)
    ensures !ValidArguments(argv) ==> out == Outcome(1, files)
    ensures ValidArguments(argv) && ReadCurrentVersion(files.metadata).Err? ==> out == Outcome(1, files)
    ensures ValidArguments(argv) && ReadCurrentVersion(files.metadata).Ok? && !Confirmed(answer) ==> out == Outcome(0, files)
    ensures ValidArguments(argv) && ReadCurrentVersion(files.metadata).Ok? && Confirmed(answer) ==>
      var oldVersion := ReadCurrentVersion(files.metadata).value;
      var newVersion := Bump(oldVersion, argv[1]).value;
      && Bump(oldVersion, argv[1]).Ok?
      && out.exitCode == 0
      && out.files.metadata == Some(UpdateMetadata(files.metadata.value, oldVersion, newVersion))
      && out.files.init == (if files.init.None? then None else Some(UpdatedInit(files.init.value, newVersion)))
      && out.files.changelog == (if UpdatedChangelog(files.changelog, newVersion, today).Some?
                                 then UpdatedChangelog(files.changelog, newVersion, today) else files.changelog)
  {
    if !ValidArguments(argv) {
      return Outcome(1, files);
    }
    var kind := argv[1];
    var read := ReadCurrentVersion(files.metadata);
    if read.Err? {
      return Outcome(1, files);
    }
    var oldVersion := read.value;
    var bumped := Bump(oldVersion, kind);
    if bumped.Err? {
      return Outcome(1, files);
    }
    var newVersion := bumped.value;
    if !Confirmed(answer) {
      return Outcome(0, files);
    }
    var metadata := Some(UpdateMetadata(files.metadata.value, oldVersion, newVersion));
    var init := UpdateInitFile(files.init, newVersion);
    if init.None? {
      init := files.init;
    }
    var changelog := UpdatedChangelog(files.changelog, newVersion, today);
    if changelog.None? {
      changelog := files.changelog;
    }
    return Outcome(0, Files(metadata, init, changelog));
  }

  /** A confirmed release leaves metadata.txt reading as the bumped version,
      provided its version was written without leading zeros. */
  lemma ReleaseReadsBack(argv: seq<string>, files: Files)
    requires ValidArguments(argv) && files.metadata.Some?
    requires VersionPattern.Search(files.metadata.value).Some?
    requires Canonical(VersionPattern.Search(files.metadata.value).value)
    ensures ReadCurrentVersion(files.metadata).Ok?
    ensures var oldVersion := ReadCurrentVersion(files.metadata).value;
      var newVersion := Bump(oldVersion, argv[1]).value;
      && Bump(oldVersion, argv[1]).Ok? && Less(oldVersion, newVersion)
      && ReadCurrentVersion(Some(UpdateMetadata(files.metadata.value, oldVersion, newVersion))) == Ok(newVersion)
  {
    var oldVersion := ReadCurrentVersion(files.metadata).value;
    BumpIsNextRelease(oldVersion, argv[1]);
    BumpThenRead(files.metadata.value, Bump(oldVersion, argv[1]).value);
  }
}
