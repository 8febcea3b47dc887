/**
 * The packaging script package.py: it reads the plugin's name and version
 * from metadata.txt, picks the files to ship, drops those that match an
 * exclude pattern, and names the archive entries `<plugin name>/<file>`;
 * then it checks that the archive holds the two files QGIS needs.
 *
 * The working directory is a `Workspace`: which paths exist, the text of
 * metadata.txt, and what the three `glob` calls return. Writing the archive
 * is replaced by the list of entry names it would receive.
 */
module Package {
  import opened Wrappers
  import opened Text
  import VersionPattern
  import BumpVersion

  // ---------------------------------------------------------------------
  // The working directory
  // ---------------------------------------------------------------------

  /** What the script sees of its directory: `Path(p).exists()`, the text
      of metadata.txt, and the results of the globs `*.ui`,
      `resources.qrc`, and the PNG and SVG images under `resources`, as
      strings. */
  datatype Workspace = Workspace(
    pathExists: string -> bool,
    metadata: string,
    uiFiles: seq<string>,
    qrcFiles: seq<string>,
    pngFiles: seq<string>,
    svgFiles: seq<string>)

  const MetadataFile: string := "metadata.txt"

  /** metadata.txt's text, or `None` when it does not exist. */
  function MetadataText(w: Workspace): Option<string>
  {
    if w.pathExists(MetadataFile) then Some(w.metadata) else None
  }

  // ---------------------------------------------------------------------
  // get_version
  // ---------------------------------------------------------------------

  const Unknown: string := "unknown"

  /** `get_version`: the text of the first `version=X.Y.Z`, without the
      key, or "unknown". */
  function GetVersion(metadata: Option<string>): string
  {
    match metadata
    case None => Unknown
    case Some(text) =>
      match VersionPattern.Search(text)
      case None => Unknown
      case Some(m) => m.major + "." + m.minor + "." + m.patch
  }

  /** The version is the regular expression's group: the text of the
      leftmost match after `version=`. */
  lemma GetVersionIsGroup(text: string)
    requires VersionPattern.Search(text).Some?
    ensures var m := VersionPattern.Search(text).value;
      GetVersion(Some(text)) == text[m.start + |VersionPattern.Key|..m.end]
  {
    var m := VersionPattern.Search(text).value;
    VersionPattern.MatchCovers(text, m.start);
    GroupAfterKey(text, m.start, m.end, VersionPattern.Key, m.major, m.minor, m.patch);
  }

  /** What follows `key` in a slice reading `key` and a dotted triple. */
  lemma GroupAfterKey(s: string, i: nat, e: nat, key: string, major: string, minor: string, patch: string)
    requires i <= e <= |s| && s[i..e] == key + major + "." + minor + "." + patch
    ensures s[i + |key|..e] == major + "." + minor + "." + patch
  {
    var g := major + "." + minor + "." + patch;
    assert key + major + "." + minor + "." + patch == key + g;
    assert s[i + |key|..e] == s[i..e][|key|..];
  }

  /** The two scripts agree on metadata.txt: package.py says "unknown"
      exactly when bump-version.py finds no version, and for a version
      written without leading zeros package.py's text is bump-version.py's
      `version_to_string` of what it reads. */
  lemma VersionsAgree(metadata: Option<string>)
    ensures GetVersion(metadata) == Unknown <==> BumpVersion.ReadCurrentVersion(metadata).Err?
    ensures metadata.Some? && VersionPattern.Search(metadata.value).Some?
        && BumpVersion.Canonical(VersionPattern.Search(metadata.value).value)
      ==> GetVersion(metadata) == BumpVersion.VersionToString(BumpVersion.ReadCurrentVersion(metadata).value)
  {
    if metadata.Some? && VersionPattern.Search(metadata.value).Some? {
      var m := VersionPattern.Search(metadata.value).value;
      var r := GetVersion(metadata);
      assert r[0] == m.major[0];
      assert IsDigit(r[0]);
      if BumpVersion.Canonical(m) {
        BumpVersion.CanonicalText(m);
        var v := BumpVersion.ReadCurrentVersion(metadata).value;
        var k := |VersionPattern.Key|;
        assert (VersionPattern.Key + BumpVersion.VersionToString(v))[k..] == BumpVersion.VersionToString(v);
        assert VersionPattern.MatchedText(m)[k..] == r;
      }
    }
  }

  // ---------------------------------------------------------------------
  // get_plugin_name
  // ---------------------------------------------------------------------

  const NameKey: string := "name="

  /** The name used when metadata.txt or its `name=` line is missing. */
  const DefaultName: string := "gis_shp_loader"

  /** Where the line holding index `j` ends: the first `\n` at or after `j`,
      or the end of the text (a greedy `.*`, which stops at a newline). */
  function LineEnd(s: string, j: nat): (e: nat)
    requires j <= |s|
    ensures j <= e <= |s|
    ensures forall k :: j <= k < e ==> s[k] != '\n'
    ensures e == |s| || s[e] == '\n'
    decreases |s| - j
  {
    if j == |s| || s[j] == '\n' then j else LineEnd(s, j + 1)
  }

  /** `name=(.+)` anchored at `i`: the key, then at least one character
      other than a newline. */
  predicate NameMatchAt(s: string, i: nat) {
    OccursAt(s, NameKey, i) && i + |NameKey| < |s| && s[i + |NameKey|] != '\n'
  }

  /** The leftmost match of `name=(.+)` at or after `from`. */
  function NameSearchFrom(s: string, from: nat): (r: Option<nat>)
    ensures r.Some? ==> from <= r.value && NameMatchAt(s, r.value)
    ensures r.Some? ==> forall j: nat :: from <= j < r.value ==> !NameMatchAt(s, j)
    ensures r.None? ==> forall j: nat :: from <= j ==> !NameMatchAt(s, j)
    decreases |s| + 1 - from
  {
    if from > |s| then None
    else if NameMatchAt(s, from) then Some(from)
    else NameSearchFrom(s, from + 1)
  }

  /** The group of the leftmost match: the rest of its line. */
  function NameGroup(s: string, i: nat): string
    requires NameMatchAt(s, i)
  {
    s[i + |NameKey|..LineEnd(s, i + |NameKey|)]
  }

  /** A character `[a-zA-Z0-9_]` keeps. */
  predicate IsWordChar(c: char) {
    ('a' <= c <= 'z') || ('A' <= c <= 'Z') || ('0' <= c <= '9') || c == '_'
  }

  /** A character of a sanitised name. */
  predicate IsNameChar(c: char) {
    ('a' <= c <= 'z') || ('0' <= c <= '9') || c == '_'
  }

  /** `re.sub(r'[^a-zA-Z0-9_]', '_', name).lower()`. */
  function Sanitize(name: string): (r: string)
    ensures |r| == |name|
    ensures forall k :: 0 <= k < |r| ==> IsNameChar(r[k])
  {
    LowerAscii(seq(|name|, k requires 0 <= k < |name| => if IsWordChar(name[k]) then name[k] else '_'))
  }

  /** `get_plugin_name`. */
  function GetPluginName(metadata: Option<string>): string
  {
    match metadata
    case None => DefaultName
    case Some(text) =>
      match NameSearchFrom(text, 0)
      case None => DefaultName
      case Some(i) => Sanitize(Strip(NameGroup(text, i)))
  }

  /** The plugin name holds only `[a-z0-9_]`; read from a `name=` line it is
      as long as that line's value once stripped, and it falls back to
      `gis_shp_loader` when metadata.txt or its `name=` line is missing. */
  lemma PluginNameShape(metadata: Option<string>)
    ensures forall k :: 0 <= k < |GetPluginName(metadata)| ==> IsNameChar(GetPluginName(metadata)[k])
    ensures metadata.None? ==> GetPluginName(metadata) == DefaultName
    ensures metadata.Some? && NameSearchFrom(metadata.value, 0).None? ==> GetPluginName(metadata) == DefaultName
    ensures metadata.Some? && NameSearchFrom(metadata.value, 0).Some? ==>
      |GetPluginName(metadata)| == |Strip(NameGroup(metadata.value, NameSearchFrom(metadata.value, 0).value))|
  {
    assert forall k :: 0 <= k < |DefaultName| ==> IsNameChar(DefaultName[k]);
  }

  /** Sanitising works character by character: lower-case letters, digits
      and `_` are kept, an ASCII capital becomes its lower-case letter, and
      every other character (a space, say) becomes `_`. */
  lemma SanitizeChars(name: string, k: nat)
    requires k < |name|
    ensures IsNameChar(name[k]) ==> Sanitize(name)[k] == name[k]
    ensures 'A' <= name[k] <= 'Z' ==> Sanitize(name)[k] as int == name[k] as int + 32
    ensures !IsWordChar(name[k]) ==> Sanitize(name)[k] == '_'
  {
  }

  /** A display name with capitals and a space becomes a folder name. */
  lemma SanitizeExample()
    ensures Sanitize("GIS Loader") == "gis_loader"
  {
    var name := "GIS Loader";
    forall k | 0 <= k < |name|
      ensures Sanitize(name)[k] == "gis_loader"[k]
    {
      SanitizeChars(name, k);
    }
  }

  /** Sanitising changes nothing in a name made of `[a-z0-9_]`. */
  lemma SanitizeKeepsNames(name: string)
    requires forall k :: 0 <= k < |name| ==> IsNameChar(name[k])
    ensures Sanitize(name) == name
  {
  }

  /** Stripping changes nothing in a text without whitespace at either end. */
  lemma StripKeeps(s: string)
    requires s == [] || (!IsSpace(s[0]) && !IsSpace(s[|s| - 1]))
    ensures Strip(s) == s
  {
  }

  /** A plugin name written back as `name=<plugin name>` is read back
      unchanged: the name is a fixed point of `get_plugin_name`. */
  lemma PluginNameRoundTrip(name: string, rest: string)
    requires name != [] && forall k :: 0 <= k < |name| ==> IsNameChar(name[k])
    requires rest == [] || rest[0] == '\n'
    ensures GetPluginName(Some(NameKey + name + rest)) == name
  {
    NameLineGroup(NameKey + name + rest, name, rest);
    StripKeeps(name);
    SanitizeKeepsNames(name);
  }

  /** A text starting with `name=<name>` and a line break (or its end)
      matches at 0 with group `name`. */
  lemma NameLineGroup(s: string, name: string, rest: string)
    requires s == NameKey + name + rest && name != []
    requires forall k :: 0 <= k < |name| ==> name[k] != '\n'
    requires rest == [] || rest[0] == '\n'
    ensures NameSearchFrom(s, 0) == Some(0) && NameGroup(s, 0) == name
  {
    assert s[..|NameKey|] == NameKey;
    assert s[|NameKey|] == name[0];
    forall k | |NameKey| <= k < |NameKey| + |name|
      ensures s[k] != '\n'
    {
      assert s[k] == name[k - |NameKey|];
    }
    if rest != [] {
      assert s[|NameKey| + |name|] == rest[0];
    }
    LineEndIs(s, |NameKey|, |NameKey| + |name|);
    assert s[|NameKey|..|NameKey| + |name|] == name;
  }

  /** The line holding `j` ends at the first line break from `j` on. */
  lemma {:induction false} LineEndIs(s: string, j: nat, e: nat)
    requires j <= e <= |s| && (e == |s| || s[e] == '\n')
    requires forall k :: j <= k < e ==> s[k] != '\n'
    ensures LineEnd(s, j) == e
    decreases e - j
  {
    if j < e {
      LineEndIs(s, j + 1, e);
    }
  }

  // ---------------------------------------------------------------------
  // get_files_to_include
  // ---------------------------------------------------------------------

  /** The files QGIS needs; packaging stops when one is missing. */
  const RequiredFiles: seq<string> := ["__init__.py", "metadata.txt"]

  /** The files shipped when they exist, in this order. */
  const OptionalFiles: seq<string> :=
    ["gis_shp_loader.py", "gis_shp_loader_dialog.py", "icon.png", "README.md", "LICENSE", "CHANGELOG.md"]

  /** The files of `fs` that exist, in their order. */
  function Existing(fs: seq<string>, pathExists: string -> bool): (r: seq<string>)
    ensures |r| <= |fs|
    ensures forall f :: f in r <==> f in fs && pathExists(f)
  {
    if fs == [] then []
    else Existing(fs[..|fs| - 1], pathExists) + (if pathExists(fs[|fs| - 1]) then [fs[|fs| - 1]] else [])
  }

  /** Keeping the existing files commutes with concatenation: the declared
      order is kept. */
  lemma {:induction false} ExistingAppend(a: seq<string>, b: seq<string>, pathExists: string -> bool)
    ensures Existing(a + b, pathExists) == Existing(a, pathExists) + Existing(b, pathExists)
    decreases |b|
  {
    if b == [] {
      assert a + b == a;
    } else {
      assert (a + b)[..|a + b| - 1] == a + b[..|b| - 1];
      ExistingAppend(a, b[..|b| - 1], pathExists);
    }
  }

  /** The resource files: `resources.qrc`, then the PNG and SVG images. */
  function ResourceFiles(w: Workspace): seq<string>
  {
    w.qrcFiles + w.pngFiles + w.svgFiles
  }

  predicate RequiredPresent(w: Workspace) {
    forall f :: f in RequiredFiles ==> w.pathExists(f)
  }

  /** What `get_files_to_include` returns. */
  function FilesToInclude(w: Workspace): Option<seq<string>>
  {
    if !RequiredPresent(w) then None
    else Some(RequiredFiles + Existing(OptionalFiles, w.pathExists) + w.uiFiles + ResourceFiles(w))
  }

  /** The list is missing exactly when a required file is; otherwise it holds
      exactly the required files, the optional files that exist, the UI files
      and the resource files. */
  lemma FilesToIncludeContents(w: Workspace, f: string)
    ensures FilesToInclude(w).None? <==> exists r :: r in RequiredFiles && !w.pathExists(r)
    ensures FilesToInclude(w).Some? ==>
      (f in FilesToInclude(w).value <==>
        f in RequiredFiles || (f in OptionalFiles && w.pathExists(f)) || f in w.uiFiles || f in ResourceFiles(w))
    ensures FilesToInclude(w).Some? ==> FilesToInclude(w).value[..|RequiredFiles|] == RequiredFiles
  {
  }

  /** The loop over the optional files: append each one that exists. */
  method AppendExisting(files: seq<string>, fs: seq<string>, pathExists: string -> bool) returns (r: seq<string>)
    ensures r == files + Existing(fs, pathExists)
  {
    r := files;
    for i := 0 to |fs|
      invariant r == files + Existing(fs[..i], pathExists)
    {
      assert fs[..i + 1][..i] == fs[..i];
      if pathExists(fs[i]) {
        r := r + [fs[i]];
      }
    }
    assert fs[..|fs|] == fs;
  }

  /** The loops over the UI and resource files: append each one. */
  method AppendAll(files: seq<string>, xs: seq<string>) returns (r: seq<string>)
    ensures r == files + xs
  {
    r := files;
    for i := 0 to |xs|
      invariant r == files + xs[..i]
    {
      r := r + [xs[i]];
    }
    assert xs[..|xs|] == xs;
  }

  /** `get_files_to_include`: the required files (stopping at a missing one),
      the existing optional files, the UI files, then the resource files. */
  method GetFilesToInclude(w: Workspace) returns (r: Option<seq<string>>)
    ensures r == FilesToInclude(w)
  {
    var resourceFiles := w.qrcFiles;
    resourceFiles := resourceFiles + w.pngFiles;
    resourceFiles := resourceFiles + w.svgFiles;
    var files: seq<string> := [];
    for i := 0 to |RequiredFiles|
      invariant files == RequiredFiles[..i]
      invariant forall j :: 0 <= j < i ==> w.pathExists(RequiredFiles[j])
    {
      if !w.pathExists(RequiredFiles[i]) {
        return None;
      }
      files := files + [RequiredFiles[i]];
    }
    assert files == RequiredFiles;
    files := AppendExisting(files, OptionalFiles, w.pathExists);
    files := AppendAll(files, w.uiFiles);
    files := AppendAll(files, resourceFiles);
    return Some(files);
  }

  // ---------------------------------------------------------------------
  // Exclusion
  // ---------------------------------------------------------------------

  /** `get_exclude_patterns`. */
  const ExcludePatterns: seq<string> := [
    "__pycache__", "*.pyc", "*.pyo", ".git", ".gitignore", ".github", "*.zip",
    "package.py", "bump-version.py", ".vscode", ".idea", "*.tmp", "*.log",
    "test_*", "tests/", ".pytest_cache", "VERSIONING_STRATEGY.md"]

  /** `fnmatch.fnmatch(s, p)` for patterns whose only wildcard is `*`: the
      whole of `s` matches, and `*` stands for any text, `/` included. */
  function GlobMatch(s: string, p: string): bool
    decreases |p|
  {
    if p == [] then s == []
    else if p[0] == '*' then exists k :: 0 <= k <= |s| && GlobMatch(s[k..], p[1..])
    else s != [] && s[0] == p[0] && GlobMatch(s[1..], p[1..])
  }

  /** The rule `should_exclude` applies for one pattern: a pattern ending in
      `/` names a directory and matches where the name occurs; a pattern with
      `*` is a glob over the whole path; any other is a substring. */
  predicate PatternMatches(pattern: string, path: string) {
    if EndsWith(pattern, "/") then Contains(path, pattern[..|pattern| - 1])
    else if '*' in pattern then GlobMatch(path, pattern)
    else Contains(path, pattern)
  }

  /** Some pattern matches the path. */
  predicate Excluded(path: string, patterns: seq<string>) {
    exists p :: p in patterns && PatternMatches(p, path)
  }

  /** `should_exclude`. */
  method ShouldExclude(path: string, patterns: seq<string>) returns (b: bool)
    ensures b == Excluded(path, patterns)
  {
    for i := 0 to |patterns|
      invariant forall k :: 0 <= k < i ==> !PatternMatches(patterns[k], path)
    {
      var pattern := patterns[i];
      assert pattern in patterns;
      if EndsWith(pattern, "/") {
        if Contains(path, pattern[..|pattern| - 1]) {
          return true;
        }
      } else if '*' in pattern {
        if GlobMatch(path, pattern) {
          return true;
        }
      } else {
        if Contains(path, pattern) {
          return true;
        }
      }
    }
    return false;
  }

  /** No pattern, no exclusion; and more patterns never bring an excluded
      path back in. */
  lemma ExclusionMonotone(path: string, patterns: seq<string>, more: seq<string>)
    requires forall p :: p in patterns ==> p in more
    ensures !Excluded(path, [])
    ensures Excluded(path, patterns) ==> Excluded(path, more)
  {
  }

  /** A glob without `*` matches only itself. */
  lemma {:induction false} GlobLiteral(s: string, p: string)
    requires '*' !in p
    ensures GlobMatch(s, p) <==> s == p
    decreases |p|
  {
    if p != [] {
      assert p[1..] <= p[1..];
      assert '*' !in p[1..] by {
        forall c | c in p[1..] ensures c != '*' { }
      }
      if s != [] {
        GlobLiteral(s[1..], p[1..]);
        if s[0] == p[0] && s[1..] == p[1..] {
          assert s == [s[0]] + s[1..];
          assert p == [p[0]] + p[1..];
        }
      }
    }
  }

  /** `*<suffix>` matches exactly the paths that end in the suffix. */
  lemma GlobStarSuffix(s: string, suffix: string)
    requires '*' !in suffix
    ensures GlobMatch(s, "*" + suffix) <==> EndsWith(s, suffix)
  {
    var p := "*" + suffix;
    assert p[1..] == suffix;
    if EndsWith(s, suffix) {
      GlobLiteral(s[|s| - |suffix|..], suffix);
    }
    if GlobMatch(s, p) {
      var k :| 0 <= k <= |s| && GlobMatch(s[k..], suffix);
      GlobLiteral(s[k..], suffix);
    }
  }

  /** `<prefix>*` matches exactly the paths that start with the prefix. */
  lemma {:induction false} GlobStarPrefix(s: string, prefix: string)
    requires '*' !in prefix
    ensures GlobMatch(s, prefix + "*") <==> StartsWith(s, prefix)
    decreases |prefix|
  {
    var p := prefix + "*";
    if prefix == [] {
      assert p[1..] == [];
      assert GlobMatch(s[|s|..], p[1..]);
    } else {
      assert p[0] == prefix[0];
      assert p[1..] == prefix[1..] + "*";
      assert '*' !in prefix[1..] by {
        forall c | c in prefix[1..] ensures c != '*' { }
      }
      if s != [] {
        GlobStarPrefix(s[1..], prefix[1..]);
      }
    }
  }

  /** Every character of a glob other than `*` occurs in what it matches. */
  lemma {:induction false} GlobNeedsChars(s: string, p: string, c: char)
    requires GlobMatch(s, p) && c in p && c != '*'
    ensures c in s
    decreases |p|
  {
    if p[0] == '*' {
      var k :| 0 <= k <= |s| && GlobMatch(s[k..], p[1..]);
      assert c in p[1..];
      GlobNeedsChars(s[k..], p[1..], c);
    } else if p[0] != c {
      assert c in p[1..];
      GlobNeedsChars(s[1..], p[1..], c);
    } else {
      assert s[0] == c;
    }
  }

  /** A pattern that holds a character other than `*` and `/` which the path
      lacks does not match it. */
  lemma ForeignChar(pattern: string, path: string, c: char)
    requires c in pattern && c != '*' && c != '/' && c !in path
    ensures !PatternMatches(pattern, path)
  {
    if EndsWith(pattern, "/") {
      var q := pattern[..|pattern| - 1];
      assert pattern == q + [pattern[|pattern| - 1]];
      assert c in q;
      OccurrenceHasChars(path, q, c);
    } else if '*' in pattern {
      if GlobMatch(path, pattern) {
        GlobNeedsChars(path, pattern, c);
      }
    } else {
      OccurrenceHasChars(path, pattern, c);
    }
  }

  /** A text that contains `q` contains each character of `q`. */
  lemma OccurrenceHasChars(s: string, q: string, c: char)
    requires c in q && c !in s
    ensures !Contains(s, q)
  {
  }

  /** A path is kept when every pattern holds a character, other than `*`
      and `/`, that the path lacks; `ws[i]` names that character for
      `patterns[i]`. */
  lemma {:induction false} ForeignChars(path: string, patterns: seq<string>, ws: string)
    requires |ws| == |patterns|
    requires forall i :: 0 <= i < |ws| ==> ws[i] in patterns[i] && ws[i] != '*' && ws[i] != '/' && ws[i] !in path
    ensures !Excluded(path, patterns)
  {
    forall p | p in patterns
      ensures !PatternMatches(p, path)
    {
      var i :| 0 <= i < |patterns| && patterns[i] == p;
      ForeignChar(p, path, ws[i]);
    }
  }

  /** `__init__.py` is never excluded by the shipped patterns: each holds a
      character the name lacks. */
  lemma InitKept()
    ensures !Excluded("__init__.py", ExcludePatterns)
  {
    ForeignChars("__init__.py", ExcludePatterns, "ccogggzabvdmleeeV");
  }

  /** `metadata.txt` is never excluded by the shipped patterns. */
  lemma MetadataKept()
    ensures !Excluded("metadata.txt", ExcludePatterns)
  {
    ForeignChars("metadata.txt", ExcludePatterns, "_ppgggzpbviplsspV");
  }

  // ---------------------------------------------------------------------
  // create_plugin_zip
  // ---------------------------------------------------------------------

  /** `f"{plugin_name}.{version}.zip"`. */
  function ZipFileName(pluginName: string, version: string): string
  {
    pluginName + "." + version + ".zip"
  }

  /** The archive name of `file`: inside the plugin's folder. */
  function EntryName(pluginName: string, file: string): string
  {
    pluginName + "/" + file
  }

  /** The name `zipfile` stores for an archive name: leading `/` are dropped
      (`ZipInfo.from_file`), so an archive never holds an absolute name. */
  function StoredName(arcname: string): (r: string)
    ensures |r| <= |arcname| && r == arcname[|arcname| - |r|..]
    ensures forall k | 0 <= k < |arcname| - |r| :: arcname[k] == '/'
    ensures r == [] || r[0] != '/'
    ensures arcname == [] || arcname[0] != '/' ==> r == arcname
  {
    if arcname != [] && arcname[0] == '/' then
      StoredName(arcname[1..])
    else arcname
  }

  /** The name under which `file` is stored in the archive. */
  function ArchivedName(pluginName: string, file: string): string
  {
    StoredName(EntryName(pluginName, file))
  }

  /** A plugin name read from metadata.txt never starts with `/`, so a
      non-empty one is stored as written. */
  lemma StoredUnderPluginFolder(metadata: Option<string>, file: string)
    requires GetPluginName(metadata) != ""
    ensures ArchivedName(GetPluginName(metadata), file) == EntryName(GetPluginName(metadata), file)
  {
    PluginNameShape(metadata);
    assert IsNameChar(GetPluginName(metadata)[0]);
  }

  /** The entries written for `files`, in order: each file that is not
      excluded and exists. */
  function Entries(pluginName: string, files: seq<string>, patterns: seq<string>, pathExists: string -> bool): seq<string>
  {
    if files == [] then []
    else
      var f := files[|files| - 1];
      Entries(pluginName, files[..|files| - 1], patterns, pathExists)
        + (if !Excluded(f, patterns) && pathExists(f) then [ArchivedName(pluginName, f)] else [])
  }

  /** An entry is written exactly for the files that are listed, not
      excluded, and exist, under the plugin's folder. */
  lemma {:induction false} EntriesIff(pluginName: string, files: seq<string>, patterns: seq<string>, pathExists: string -> bool, e: string)
    ensures e in Entries(pluginName, files, patterns, pathExists) <==>
      exists k :: 0 <= k < |files| && Shipped(pluginName, files[k], patterns, pathExists, e)
  {
    if files != [] {
      var init := files[..|files| - 1];
      EntriesIff(pluginName, init, patterns, pathExists, e);
      LastWitness(files, init, f => Shipped(pluginName, f, patterns, pathExists, e));
    }
  }

  /** `e` is the entry of `file`, which is kept and exists. */
  predicate Shipped(pluginName: string, file: string, patterns: seq<string>, pathExists: string -> bool, e: string) {
    !Excluded(file, patterns) && pathExists(file) && e == ArchivedName(pluginName, file)
  }

  /** A witness among `xs` lies among all but the last, or is the last. */
  lemma LastWitness<T>(xs: seq<T>, init: seq<T>, p: T -> bool)
    requires xs != [] && init == xs[..|xs| - 1]
    ensures (exists k :: 0 <= k < |xs| && p(xs[k])) <==>
      (exists k :: 0 <= k < |init| && p(init[k])) || p(xs[|xs| - 1])
  {
    if exists k :: 0 <= k < |xs| && p(xs[k]) {
      var k :| 0 <= k < |xs| && p(xs[k]);
      if k < |init| {
        assert init[k] == xs[k];
      }
    }
    if exists k :: 0 <= k < |init| && p(init[k]) {
      var k :| 0 <= k < |init| && p(init[k]);
      assert xs[k] == init[k];
    }
  }

  /** Entries are written in the order of the file list. */
  lemma {:induction false} EntriesAppend(pluginName: string, a: seq<string>, b: seq<string>, patterns: seq<string>, pathExists: string -> bool)
    ensures Entries(pluginName, a + b, patterns, pathExists)
         == Entries(pluginName, a, patterns, pathExists) + Entries(pluginName, b, patterns, pathExists)
    decreases |b|
  {
    if b == [] {
      assert a + b == a;
    } else {
      assert (a + b)[..|a + b| - 1] == a + b[..|b| - 1];
      EntriesAppend(pluginName, a, b[..|b| - 1], patterns, pathExists);
    }
  }

  /** The loop of `create_plugin_zip`: skips excluded files, writes each
      existing one as `<plugin name>/<file>` (under the name `zipfile`
      stores), and skips missing ones. */
  method ZipEntries(pluginName: string, files: seq<string>, patterns: seq<string>, pathExists: string -> bool)
    returns (entries: seq<string>)
    ensures entries == Entries(pluginName, files, patterns, pathExists)
  {
    entries := [];
    for i := 0 to |files|
      invariant entries == Entries(pluginName, files[..i], patterns, pathExists)
    {
      assert files[..i + 1][..i] == files[..i];
      var file := files[i];
      var excluded := ShouldExclude(file, patterns);
      if excluded {
        continue;
      }
      if pathExists(file) {
        entries := entries + [ArchivedName(pluginName, file)];
      }
    }
    assert files[..|files|] == files;
  }

  /** A written archive: its file name and its entry names. */
  datatype Archive = Archive(fileName: string, entries: seq<string>)

  /** `create_plugin_zip`, where writing the archive always succeeds. */
  function CreatePluginZip(w: Workspace): Option<Archive>
  {
    var metadata := MetadataText(w);
    var pluginName := GetPluginName(metadata);
    match FilesToInclude(w)
    case None => None
    case Some(files) =>
      Some(Archive(ZipFileName(pluginName, GetVersion(metadata)), Entries(pluginName, files, ExcludePatterns, w.pathExists)))
  }

  // ---------------------------------------------------------------------
  // verify_package
  // ---------------------------------------------------------------------

  /** Both required files are in the archive under the plugin's folder. */
  predicate HasRequiredEntries(entries: seq<string>, pluginName: string) {
    forall r :: r in RequiredFiles ==> EntryName(pluginName, r) in entries
  }

  /** The required-entry check of `verify_package`, on the archive's entry
      names (`None` for an archive that is missing or unreadable). */
  method VerifyPackage(archive: Option<seq<string>>, pluginName: string) returns (ok: bool)
    ensures ok <==> archive.Some? && HasRequiredEntries(archive.value, pluginName)
  {
    if archive.None? {
      return false;
    }
    var namelist := archive.value;
    for i := 0 to |RequiredFiles|
      invariant forall j :: 0 <= j < i ==> EntryName(pluginName, RequiredFiles[j]) in namelist
    {
      if EntryName(pluginName, RequiredFiles[i]) !in namelist {
        return false;
      }
    }
    return true;
  }

  /** A package built from a directory that has the required files passes
      the required-entry check exactly when the plugin name is not empty:
      both files are listed first, neither is excluded by the shipped
      patterns, and both exist; but under an empty name they are looked for
      as `/__init__.py` and `/metadata.txt`, which `zipfile` stores without
      the `/`. */
  lemma PackagePassesVerification(w: Workspace)
    requires RequiredPresent(w)
    ensures CreatePluginZip(w).Some?
    ensures HasRequiredEntries(CreatePluginZip(w).value.entries, GetPluginName(MetadataText(w)))
        <==> GetPluginName(MetadataText(w)) != ""
  {
    var pluginName := GetPluginName(MetadataText(w));
    var files := FilesToInclude(w).value;
    var entries := Entries(pluginName, files, ExcludePatterns, w.pathExists);
    if pluginName == "" {
      var e := EntryName(pluginName, RequiredFiles[0]);
      assert e[0] == '/';
      EntriesIff(pluginName, files, ExcludePatterns, w.pathExists, e);
      assert e !in entries;
    } else {
      InitKept();
      MetadataKept();
      forall r | r in RequiredFiles
        ensures EntryName(pluginName, r) in entries
      {
        var k := if r == RequiredFiles[0] then 0 else 1;
        assert files[k] == r;
        StoredUnderPluginFolder(MetadataText(w), r);
        assert Shipped(pluginName, files[k], ExcludePatterns, w.pathExists, EntryName(pluginName, r));
        EntriesIff(pluginName, files, ExcludePatterns, w.pathExists, EntryName(pluginName, r));
      }
    }
  }

  /** The whole script: the exit status of `main`, where writing the archive
      always succeeds. */
  function MainExitCode(w: Workspace): int
  {
    if !w.pathExists(MetadataFile) then 1
    else match CreatePluginZip(w)
      case None => 1
      case Some(archive) =>
        if HasRequiredEntries(archive.entries, GetPluginName(MetadataText(w))) then 0 else 1
  }

  /** The script succeeds exactly when both required files exist and the
      plugin name is not empty. */
  lemma MainSucceedsIff(w: Workspace)
    ensures MainExitCode(w) == 0 <==> RequiredPresent(w) && GetPluginName(MetadataText(w)) != ""
  {
    if RequiredPresent(w) {
      PackagePassesVerification(w);
    }
  }

  /** A `name=` line whose value is blank gives the empty plugin name. */
  lemma BlankNameIsEmpty(rest: string)
    requires rest == [] || rest[0] == '\n'
    ensures GetPluginName(Some(NameKey + " " + rest)) == ""
  {
    NameLineGroup(NameKey + " " + rest, " ", rest);
    assert Strip(" ") == "";
  }

  /** So a plugin directory with both required files and a blank `name=`
      makes the script exit with 1. */
  lemma BlankNameFails(w: Workspace, rest: string)
    requires RequiredPresent(w) && (rest == [] || rest[0] == '\n')
    requires MetadataText(w) == Some(NameKey + " " + rest)
    ensures MainExitCode(w) == 1
  {
    BlankNameIsEmpty(rest);
    PackagePassesVerification(w);
  }
}
