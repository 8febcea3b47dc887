# gis_shp-loader in Dafny

A model of the QGIS plugin "GIS SHP Loader" and its two release scripts.

- **gis_shp_loader.py** is the plugin object `GisShpLoader`.
  - It registers one toolbar and menu action, and removes it again on unload.
  - When run, it reads a root folder and a file name from its dialog.
  - It then loads `<root>/<subfolder>/<file name>` as an OGR vector layer from every subfolder of the root.
  - It ends with one message box: a warning, an error, or the counts of files loaded, failed and not found.
- **package.py** builds the plugin archive.
  - It reads the plugin name and version from metadata.txt.
  - It lists the files to ship and drops those that match an exclude pattern.
  - It writes each kept file as `<plugin name>/<file>`, then checks that the two required files are in the archive.
- **bump-version.py** increments the version by Semantic Versioning 2.0.0 (items 6 to 8).
  - It rewrites the version in metadata.txt.
  - It rewrites or inserts `__version__` in `__init__.py`.
  - It adds a section under `## [Unreleased]` in CHANGELOG.md.

Modules:

- `Wrappers`: `Option` and `Result`.
- `Text`: the Python string operations the scripts use (`find`, `split`, `join`, `replace`, `strip`, `lower`, `int`, `str`).
  - `find`, `lower` and `str` carry their meaning in their own contracts.
  - The meaning of `strip` is in the lemma `StripSlice`: the result is the slice of the text after the leading whitespace, with only whitespace around it and none at its ends.
  - The meaning of `split`, `join` and `replace` is in the lemmas `JoinSplit`, `SplitPiecesLackSep`, `ReplaceAllPieces` and `ReplaceAllAbsent`.
- `VersionPattern`: the leftmost, greedy search for `version=(\d+)\.(\d+)\.(\d+)`, which both scripts use.
- `ShpLoader`: the plugin object as a `class` with `actions` and `dialog` fields.
  - QGIS is a `Host` object that records the calls made into it (toolbar, menu, layers, message boxes).
  - The file system and `isValid()` are oracle functions in an `Environment`.
  - The loops of `run` and `unload` are `while`/`for` loops proved against the functions `Scan` and `UnloadEvents`.
- `Package`: package.py on a `Workspace`.
  - A `Workspace` gives which paths exist, the text of metadata.txt, and what the glob calls return.
  - The loops of `get_files_to_include`, `should_exclude`, `create_plugin_zip` and `verify_package` are methods proved against functions.
- `BumpVersion`: bump-version.py on file contents.
  - `None` stands for a missing file.
  - A `Result` error stands for `sys.exit(1)`.

## Model

| member | source | states |
|---|---|---|
| ShpLoader.RFind | gis_shp_loader.py:102 | the last index of the character, or -1, as `rfind` inside `os.path.splitext` |
| ShpLoader.SplitExtRoot | gis_shp_loader.py:102 | `splitext(p)[0]` is a prefix of `p` |
| ShpLoader.StemOfExtension | gis_shp_loader.py:102 | a name `stem.ext` with a non-dot character in `stem` loses exactly `.ext` |
| ShpLoader.StemWithoutDot | gis_shp_loader.py:102 | a name without a dot is its own stem |
| ShpLoader.LayerNameExample | gis_shp_loader.py:102 | the layer of `A0010000.shp` in `district_01` is named `district_01_A0010000` |
| ShpLoader.CandidatePathShape | gis_shp_loader.py:99 | `os.path.join(base, sub, file)` puts exactly one `/` between plain relative pieces |
| ShpLoader.Subfolders | gis_shp_loader.py:75-76 | an entry is kept iff the joined path is a directory; the result is no longer than the listing |
| ShpLoader.SubfoldersAppend | gis_shp_loader.py:75-76 | the directory filter keeps the listing order |
| ShpLoader.Scan | gis_shp_loader.py:94-112 | the three counts add up to the number of subfolders; one layer is added per file loaded |
| ShpLoader.StepCountsOnce | gis_shp_loader.py:99-112 | each subfolder moves exactly one counter: loaded iff the file exists and is valid, failed iff it exists and is invalid, not found iff it is missing; only a loaded file adds its layer |
| ShpLoader.ScanAppend | gis_shp_loader.py:98-112 | subfolders are handled independently and in order: scanning `a + b` combines the scans of `a` and `b` |
| ShpLoader.AddedIff | gis_shp_loader.py:98-108 | a layer is added iff it is the layer of some subfolder whose file exists and is valid |
| ShpLoader.ScanCounts | gis_shp_loader.py:94-112 | loaded counts the subfolders whose layer loads, not found those without the file, failed all the others (counted independently) |
| ShpLoader.ThreeSubfolders | gis_shp_loader.py:98-112 | one loading, one missing and one invalid subfolder give counts 1, 1, 1 and add only the first layer |
| ShpLoader.LoadCompletes | gis_shp_loader.py:57-122 | a run ends with the counts iff both inputs are non-empty, the root exists and can be listed, and it has a subfolder; otherwise nothing is added; the counts cover every subfolder once |
| ShpLoader.MissingInputIgnoresEnvironment | gis_shp_loader.py:57-63 | an empty input gives a warning and depends on nothing in the file system |
| ShpLoader.MissingRootIgnoresListing | gis_shp_loader.py:65-71 | a missing root gives an error naming the root, whatever the listing would say |
| ShpLoader.NoSubfolderLoadsNothing | gis_shp_loader.py:85-91 | a root without subfolders gives a warning and adds no layer |
| ShpLoader.LayerEventsAppend | gis_shp_loader.py:98-108 | the `addMapLayer` calls for two runs of layers are those of the first run, then those of the second |
| ShpLoader.UnloadRemovesEach | gis_shp_loader.py:25-27 | for the k-th action, `unload` removes its menu entry and then its toolbar icon |
| ShpLoader.RegistrationAddsIcons | gis_shp_loader.py:35 | registering actions puts each of them on the toolbar |
| ShpLoader.RegistrationAddsEntries | gis_shp_loader.py:36 | registering actions files each of them under the `SHP 로더` menu |
| ShpLoader.UnloadRemovesIcons | gis_shp_loader.py:27 | unloading takes each action off the toolbar |
| ShpLoader.UnloadRemovesEntries | gis_shp_loader.py:26 | unloading takes each action out of the menu |
| ShpLoader.UnloadUndoesRegistration | gis_shp_loader.py:23-39 | after registration then unload of the same actions, the toolbar and menu are as before |
| ShpLoader.GisShpLoader.constructor | gis_shp_loader.py:8-12 | no action and no dialog yet |
| ShpLoader.GisShpLoader.AddAction | gis_shp_loader.py:29-39 | a fresh action with the given icon and text goes on the toolbar, then into the menu, and is appended to `actions` |
| ShpLoader.GisShpLoader.InitGui | gis_shp_loader.py:14-21 | one action is appended, with `icon.png` in the plugin directory and the text `SHP 파일 로더` |
| ShpLoader.GisShpLoader.Unload | gis_shp_loader.py:23-27 | the calls made are those of `UnloadEvents(actions)` |
| ShpLoader.GisShpLoader.Show | gis_shp_loader.py:58-62 | one message box of the message's severity |
| ShpLoader.GisShpLoader.LoadSubfolders | gis_shp_loader.py:94-112 | the counts are those of `Scan`, and the layers added are its layers, in order |
| ShpLoader.GisShpLoader.LoadOne | gis_shp_loader.py:99-112 | one pass of the loop is one `Step`: a layer reaches the project exactly when its file exists and is valid, and the events grow by that layer's call and nothing else |
| ShpLoader.GisShpLoader.Run | gis_shp_loader.py:41-122 | the dialog is recorded, the actions are kept, and the calls made are nothing when cancelled, else the layers then one message box |
| VersionPattern.DigitRun | package.py:29 | the greedy `\d+`: the longest run of digits from `i` |
| VersionPattern.MatchAt | bump-version.py:30 | an anchored match has three non-empty digit groups and is not followed by a digit |
| VersionPattern.Search | bump-version.py:30 | `re.search` returns the leftmost match; none exists when it returns nothing |
| VersionPattern.MatchCovers | bump-version.py:30 | a match covers exactly `version=A.B.C` |
| VersionPattern.MatchAtText | bump-version.py:30 | `version=A.B.C`, followed by a non-digit, matches with exactly those groups |
| VersionPattern.SearchFindsFirst | bump-version.py:30 | a match with none before it is the one found |
| VersionPattern.NoEarlierMatch | bump-version.py:30 | changing the text from a `v` on creates no earlier match |
| BumpVersion.BumpIsNextRelease | bump-version.py:40-53 | a bump succeeds iff the kind is `major`, `minor` or `patch`, and any other kind is `BadBumpType`; the bumped version is strictly greater, and it is the least such version whose reset components are zero |
| BumpVersion.ReadVersionRoundTrip | bump-version.py:21-37 | `version=` plus `version_to_string(v)`, followed by a non-digit, reads back as `v` |
| BumpVersion.UpdateMetadataChangesOnlyVersion | bump-version.py:61-72 | every `version=<old>` becomes `version=<new>` and nothing else changes |
| BumpVersion.BumpThenRead | bump-version.py:21-37 | after `update_metadata`, `read_current_version` returns the new version when the old one had no leading zeros |
| BumpVersion.LeadingZeroNotRewritten | bump-version.py:61-70 | `version=01.2.3` reads as 1.2.3, but `update_metadata` to 1.2.4 leaves the text unchanged; the intended update reads back as 1.2.4 |
| BumpVersion.IntendedBumpThenRead | bump-version.py:61-70 | rewriting the version text that was read gives a text that reads back as the new version, with or without leading zeros |
| BumpVersion.CanonicalText | bump-version.py:56-58 | a match without leading zeros is `version=` followed by `version_to_string` of its value |
| BumpVersion.SubSingleAssignment | bump-version.py:89-96 | the one `__version__ = "..."` assignment is rewritten and the text around it kept |
| BumpVersion.SubOneMatch | bump-version.py:90-94 | `re.sub` replaces the single match and copies the rest |
| BumpVersion.InsertIndexAsWritten | bump-version.py:101-105 | the insert index is 0 or the first line that is not blank, not a comment and has no `"""`; when such a line exists, the index is that line |
| BumpVersion.FindInsertIndexAsWritten | bump-version.py:101-105 | the loop as written computes `InsertIndexAsWritten` |
| BumpVersion.InsertIndex | bump-version.py:101-105 | the corrected index is 0 or the first code line outside a docstring; when such a line exists, the index is that line |
| BumpVersion.FindInsertIndex | bump-version.py:101-105 | the corrected loop computes `InsertIndex` |
| BumpVersion.AsWrittenInsertsInsideDocstring | bump-version.py:101-105 | on a module with a comment, then a multi-line docstring, then code, the index as written lies inside the docstring |
| BumpVersion.InsertIndexSkipsDocstring | bump-version.py:101-105 | on the same module, the corrected index is the first statement after the docstring |
| BumpVersion.UpdateInitFile | bump-version.py:75-111 | a missing file gives `False`; otherwise the new text is that of `UpdatedInit`, which inserts at the index of the loop as written |
| BumpVersion.InsertedVersionIsRewritable | bump-version.py:97-111 | an inserted `__version__` line is matched by the rewrite pattern, so a later bump rewrites it instead of adding another |
| BumpVersion.InsertionKeepsHeader | bump-version.py:99-110 | the script keeps the lines before its insertion point as the start of the file, and none of them passes the loop's test |
| BumpVersion.InsertionKeepsHeaderIntended | bump-version.py:99-110 | the intended insertion keeps the lines before its insertion point as the start of the file, and none of them is code outside a docstring |
| BumpVersion.UpdatedChangelog | bump-version.py:114-142 | a new text exists iff the file exists and contains `## [Unreleased]` |
| BumpVersion.ChangelogSectionUnderHeader | bump-version.py:127-139 | the new section sits right after the first `## [Unreleased]`; removing it gives back the old text; that header is still the first |
| BumpVersion.BumpRelease | bump-version.py:175-224 | bad arguments or no readable version exit with 1 and change nothing; no confirmation exits with 0 and changes nothing; otherwise metadata.txt, `__init__.py` and the changelog get their new texts |
| BumpVersion.ReleaseReadsBack | bump-version.py:189-208 | after a confirmed release, metadata.txt reads back as the bumped version, which is greater than the old one |
| Text.NatToStringRoundTrip | bump-version.py:33 | `int(str(n)) == n` |
| Package.GetVersionIsGroup | package.py:20-35 | the version is the text of the leftmost match after `version=` |
| Package.VersionsAgree | package.py:20-35 | package.py says `unknown` iff bump-version.py finds no version; a version without leading zeros reads the same in both |
| Package.Sanitize | package.py:51 | the name has the same length and only `[a-z0-9_]` |
| Package.PluginNameShape | package.py:38-53 | the name has only `[a-z0-9_]`, is `gis_shp_loader` without metadata.txt or a `name=` line, and is as long as the stripped value otherwise |
| Package.SanitizeChars | package.py:51 | position by position: a character of `[a-z0-9_]` is kept, an ASCII capital becomes its lower-case letter (code point + 32), and any other character becomes `_` |
| Package.SanitizeExample | package.py:51 | `GIS Loader` becomes `gis_loader`: capitals lowered, the space replaced by `_` |
| Text.StripSlice | package.py:50 | `strip()` returns the slice of the text after its leading whitespace; everything before and after that slice is whitespace, and the slice neither starts nor ends with whitespace |
| Text.LowerAscii | package.py:51 | `lower()` keeps the length and puts each character's ASCII lower-case form at the same position |
| Package.SanitizeKeepsNames | package.py:51 | a name already made of `[a-z0-9_]` is unchanged |
| Package.PluginNameRoundTrip | package.py:38-53 | `name=<plugin name>` reads back as that name |
| Package.Existing | package.py:92-94 | an optional file is kept iff it exists |
| Package.ExistingAppend | package.py:92-94 | the optional files keep their declared order |
| Package.FilesToIncludeContents | package.py:56-104 | the list is missing iff a required file is; otherwise it holds exactly the required files first, the existing optional files, the UI files and the resource files |
| Package.AppendExisting | package.py:92-94 | the loop appends exactly the existing optional files |
| Package.AppendAll | package.py:96-102 | the loops append every UI and resource file |
| Package.GetFilesToInclude | package.py:56-104 | the method returns `FilesToInclude` |
| Package.ShouldExclude | package.py:130-149 | true iff some pattern matches by its rule (directory, glob or substring) |
| Package.ExclusionMonotone | package.py:130-149 | no pattern excludes nothing, and more patterns never let an excluded path back in |
| Package.GlobLiteral | package.py:142 | a glob without `*` matches only itself |
| Package.GlobStarSuffix | package.py:142 | `*<suffix>` matches exactly the paths ending in the suffix |
| Package.GlobStarPrefix | package.py:142 | `<prefix>*` matches exactly the paths starting with the prefix |
| Package.GlobNeedsChars | package.py:142 | every non-`*` character of a glob occurs in what it matches |
| Package.ForeignChar | package.py:130-149 | a pattern holding a character the path lacks does not match it |
| Package.InitKept | package.py:107-127 | `__init__.py` is never excluded by the shipped patterns |
| Package.MetadataKept | package.py:107-127 | `metadata.txt` is never excluded by the shipped patterns |
| Package.EntriesIff | package.py:179-193 | an entry `<plugin name>/<file>` is written iff the file is listed, not excluded and exists |
| Package.EntriesAppend | package.py:179-193 | entries are written in the order of the file list |
| Package.ZipEntries | package.py:178-193 | the loop writes the entries `Entries` describes |
| Package.StoredName | package.py:188-189 | the name `zipfile` stores is the archive name with exactly its leading `/` removed: a suffix of it, everything dropped is `/`, and it does not start with `/` |
| Package.StoredUnderPluginFolder | package.py:155-189 | under a non-empty plugin name, a file is stored as `<plugin name>/<file>` |
| Package.VerifyPackage | package.py:234-265 | true iff the archive exists and holds both required files under the plugin folder |
| Package.PackagePassesVerification | package.py:152-262 | a directory with both required files gives an archive, and it passes the required-entry check iff the plugin name is not empty |
| Package.MainSucceedsIff | package.py:275-295 | the script exits with 0 iff `__init__.py` and metadata.txt both exist and the plugin name is not empty |
| Package.BlankNameIsEmpty | package.py:45-51 | a `name=` line whose value is a blank gives the empty plugin name |
| Package.BlankNameFails | package.py:252-262 | with both required files and a blank `name=` line, the script exits with 1 |

## Left out

- The dialog (gis_shp_loader_dialog.py) is not modelled. `Run` takes what it returns: whether it was accepted, and the two texts.
- `Run` does not model the default folder (gis_shp_loader.py:47-49). It is a fixed Windows path that only pre-fills the dialog.
- When `__init__.py` already has `__version__`, the script rewrites only that assignment (bump-version.py:89-96), so a `__version_info__` tuple beside it keeps the old version. `BumpVersion.UpdatedInit` does the same. A corrected update that also rewrites the tuple is not modelled.
- `ShpLoader.GisShpLoader.Run` records each message box by its kind and values, not its Korean title and text.
- `ShpLoader.GisShpLoader.AddAction` does not model the `triggered` callback or the parent window. These are Qt wiring with no effect on the plugin's state.
- QGIS internals are not modelled. Layer validity and `addMapLayer` are the `isValid` oracle and the recorded `LayerAdded` calls.
- Paths follow the POSIX rules of `os.path`. Windows drive letters and `\` separators are not modelled.
- Only existence is checked for the root, as the code does. A root that is a plain file gives a listing failure (the oracle's `None`), not "not found".
- `os.listdir` raising an exception is the oracle's `None`; the exception text is not modelled.
- Output from `print` in package.py and bump-version.py is not modelled.
- `Package.CreatePluginZip` does not model writing the archive's bytes, file sizes or the timestamp. It yields the entry names the archive would hold, as `zipfile` stores them, and treats the write as always succeeding.
- `Package.StoredName` models only how `zipfile` drops leading `/`. It does not model `os.path.normpath`, which changes nothing for the names written here: the plugin name has only `[a-z0-9_]`, and the file names come from fixed lists and `pathlib` globs, which are already normal. An archive name that is all `/` is not modelled either; `zipfile` raises `IndexError` on it, and no file name here is empty.
- `Package.VerifyPackage` does not model `testzip`, `BadZipFile` or other read errors. They are the `None` archive.
- `Package.ShouldExclude` handles `*` as `fnmatch` does but treats `?` and `[` literally and does no case folding. None of the shipped patterns uses them, and case folding is the identity on POSIX.
- The glob calls of `get_files_to_include` are inputs of the `Workspace`, in the order they return.
- `BumpVersion.BumpRelease` takes the date of `datetime.now()` and the answer of `input()` as parameters. It assumes every write succeeds.
- `BumpVersion.BumpRelease` does not model `print_summary` (bump-version.py:145-172), which only prints.
- File contents are modelled as decoded text.
  - `read_text(encoding='utf-8')` also turns `\r\n` and `\r` into `\n`.
  - A file that is not valid UTF-8 makes it raise, and the script stops with a traceback.
  - `write_text` writes each `\n` as `os.linesep`.
  - These are not modelled, so `BumpVersion.UpdateMetadataChangesOnlyVersion` and the other "nothing else changes" contracts hold of the text, not of the file's bytes. For example, a CRLF metadata.txt comes back with LF line ends on POSIX.
- `\d` is modelled on ASCII digits only. Python's `\d` on `str` also matches other Unicode decimal digits.
- `Package.Sanitize` lowercases ASCII only. After the substitution only ASCII letters remain, so this matches `lower()`.

## Findings

| source | as written | input that shows it | evidently intended | confidence | as-written member | corrected member |
|---|---|---|---|---|---|---|
| bump-version.py:61-70 | `update_metadata` replaces `version=` plus `version_to_string` of the version read, and reading drops leading zeros, so a version written with one is never found | metadata.txt with `version=01.2.3` and a patch bump: metadata.txt is left unchanged, while `__init__.py` and CHANGELOG.md move to 1.2.4 | rewrite the version text that was read | not executed | BumpVersion.LeadingZeroNotRewritten | BumpVersion.IntendedBumpThenRead |
| bump-version.py:101-105 | the insertion index is the first line that is not blank, not a comment and holds no `"""`; a line inside a multi-line docstring passes that test | an `__init__.py` without `__version__` that starts with a comment, then a docstring whose first line is `"""` alone and whose text is on the lines after: the lines are inserted inside the docstring (index 2) | insert after the leading comments and the module docstring, at the first code line outside it | not executed | BumpVersion.AsWrittenInsertsInsideDocstring | BumpVersion.InsertIndexSkipsDocstring |

`BumpVersion.UpdateInitFile` and `BumpVersion.BumpRelease` write what the script writes. They use the index as written (`BumpVersion.UpdatedInit`) and the metadata update as written (`BumpVersion.UpdateMetadata`). The corrected behaviour is in `BumpVersion.UpdatedInitIntended` and `BumpVersion.UpdateMetadataIntended`, with their properties proved by `BumpVersion.InsertionKeepsHeaderIntended` and `BumpVersion.IntendedBumpThenRead`.
