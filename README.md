# qgis-suite-plugin packaging, modelled in Dafny

This project models the packaging core of the `pavement.py` build script of the
Boundless QGIS suite plugin:

- the two exclusion pattern lists (`base_excludes`, `full_excludes`) and the
  `plugin` option group that carries them with `skip_exclude`;
- the `exclude` test of `make_zip`, which drops a name when any pattern of the
  chosen set matches it with `fnmatch`, unless the name is listed in
  `skip_exclude`;
- `filter_excludes`, which removes the excluded names from `os.walk`'s `files`
  and `dirs` lists in place, so that pruned directories are never visited;
- the `os.walk` loop of `make_zip`, which writes every surviving file under the
  archive name relative to `src`;
- the `package` and `package_with_tests` tasks (full list and base list);
- `read_requirements`, which splits `requirements.txt` at the
  `# test requirements` divider;
- the rewrite in `setup` of an editable requirement `-e <url>#egg=<name>` into
  the directory `<ext_src>/<name>` given to `easy_install`.

Modules, one per file:

- `Wrappers`: `Option` and `Result`.
- `Seqs`: first occurrence, removing the first occurrence (Python's
  `list.remove`), the subsequence order, and prefix and suffix tests.
- `Glob`: `fnmatch` over `*`, `?` and literal characters, and what the
  configured pattern shapes mean.
- `Config`: the pattern lists and the default `plugin` options.
- `Exclusion`: the exclusion policy (a set of patterns plus the skip list) and
  what each configured policy drops.
- `Filter`: a `NameList` class standing for a mutable Python list, the in-place
  `FilterExcludes` method, and the `Kept` function that specifies it.
- `Packaging`: the directory tree as `os.walk` sees it, the archive as a
  `ZipSink` object whose entries grow, the walk as recursive methods, and the
  `ArchiveOf` function that specifies the archive. It also holds soundness,
  completeness and monotonicity lemmas and two worked scenarios.
- `Requirements`: `str.strip`, the cleaned line list and `read_requirements`.
- `SetupDeps`: `str.split`, `posixpath.join` and the `#egg=` rewrite.

Paths in the packaging model are sequences of path segments. The source
directory `src/opengeo` is `["src", "opengeo"]`, and the archive name of a file
is its directory relative to `src`, followed by the file name.

A missing source directory is not an error: `make_zip` hands the directory to
`os.walk`, which swallows the listing error and yields nothing, so the archive
is written empty. `MakeZip`, `Package` and `PackageWithTests` take the file system as an
`Option<Tree>` and produce no entries for `None`.

## Model

| member | source | states |
|---|---|---|
| Glob.Matches | pavement.py:157 | `fnmatch(name, pattern)` for one pattern, defined by recursion on the pattern; what it accepts is stated by the `Glob` lemmas below |
| Glob.MatchLength | pavement.py:157 | a matched name has at least one character for every pattern character other than `*`, and exactly as many when the pattern has no `*` |
| Glob.StarMatchesAll | pavement.py:157 | the pattern `*` matches every name |
| Glob.LiteralMatchesItself | pavement.py:157 | a pattern without wildcards matches exactly the name equal to it |
| Glob.LiteralThenStar | pavement.py:157 | `lit*` matches exactly the names that start with `lit` |
| Glob.StarThenLiteral | pavement.py:157 | `*lit` matches exactly the names that end with `lit` |
| Config.BaseExcludes | pavement.py:15-20 | the three base patterns; their meaning is stated by `Exclusion.BasePatternsMeaning` |
| Config.FullExcludes | pavement.py:22-31 | `full_excludes` is the base list with the five release patterns appended after it, in order |
| Config.DefaultOptions | pavement.py:33-44 | the `plugin` options: sources in `src/<name>`, `ext_src` inside them, the package in `.`, the full list extending the base list, and `coverage.xsd` on the skip list |
| Exclusion.ExclusionPolicy.Exclude | pavement.py:157 | the `exclude` lambda: some pattern of the set matches the name; its independence from iteration order is `Exclusion.ExcludeIgnoresOrder` |
| Exclusion.ExclusionPolicy.Drops | pavement.py:164 | the test in `filter_excludes`: excluded and not on the skip list; the names it drops are listed by `Exclusion.BasePolicyDrops` and `Exclusion.FullPolicyDrops` |
| Exclusion.PolicyFor | pavement.py:151-154 | the pattern set holds exactly the base patterns when `basefilters` is set and the full ones otherwise, and the skip list is `skip_exclude` |
| Exclusion.AnyMatch | pavement.py:157 | `any` over the patterns in iteration order holds exactly when some listed pattern matches |
| Exclusion.AnyMatchAppend | pavement.py:157 | matching against a concatenated list is matching against either part |
| Exclusion.AnyMatchCons | pavement.py:157 | matching against `p` then the rest is matching `p` or the rest |
| Exclusion.ExcludeIgnoresOrder | pavement.py:151-157 | whatever order the set of patterns is iterated in, with or without duplicates, `exclude` gives the same verdict |
| Exclusion.BasePatternsMeaning | pavement.py:15-20 | a name matches the base list exactly when it is `.DS_Store`, ends with `.pyc` or starts with `gisdata` |
| Exclusion.BaseEachMeaning | pavement.py:17-19 | each base pattern's meaning: one literal name, one suffix and one prefix |
| Exclusion.ExtraPatternsMeaning | pavement.py:24-30 | a name matches the appended patterns exactly when it is `test`, `test-output` or `ext-src`, or starts with `coverage` or `nose` |
| Exclusion.ExtraLiteralsMeaning | pavement.py:25-27 | `test`, `test-output` and `ext-src` each match only themselves |
| Exclusion.ExtraPrefixesMeaning | pavement.py:28-29 | `coverage*` and `nose*` match exactly the names with those prefixes |
| Exclusion.SkipNameNotBase | pavement.py:40-43 | `coverage.xsd` matches no base pattern |
| Exclusion.BasePolicyDrops | pavement.py:150-164 | `package_with_tests` drops a name exactly when it is `.DS_Store`, ends with `.pyc` or starts with `gisdata` |
| Exclusion.FullPolicyDrops | pavement.py:150-164 | `package` drops a name exactly when it matches one of the eight full patterns and is not `coverage.xsd` |
| Exclusion.BaseDropsImplyFullDrops | pavement.py:22-31 | every name the test package drops, the release package drops too |
| Exclusion.SkipAndTestVerdicts | pavement.py:40-43 | `coverage.xsd` matches `coverage*` yet is kept by `package`; `test` is dropped by `package` and kept by `package_with_tests` |
| Seqs.FirstIndex | pavement.py:166 | the index found holds the element and no earlier index does |
| Seqs.RemoveFirst | pavement.py:166 | `list.remove` takes out one copy of the element and keeps all the others |
| Seqs.FirstIndexAfter | pavement.py:112 | in `a + [x] + b` with no `x` in `a`, the first `x` comes right after `a` |
| Seqs.RemoveFirstAfter | pavement.py:166 | removing an element whose earlier copies are gone removes the copy right after the kept prefix |
| Filter.KeptMembership | pavement.py:159-167 | a name survives filtering exactly when it was listed and is not dropped |
| Filter.KeptCounts | pavement.py:159-167 | a surviving name keeps all of its copies; a dropped name keeps none |
| Filter.KeptIsSubseq | pavement.py:159-167 | filtering keeps the listing order |
| Filter.KeptIdentity | pavement.py:159-167 | the list is unchanged exactly when it has no dropped name |
| Filter.KeptLength | pavement.py:159-167 | filtering never lengthens the list |
| Filter.KeptMonotone | pavement.py:159-167 | a policy that drops more keeps a subsequence of what a looser one keeps |
| Filter.FilterStep | pavement.py:162-166 | one loop step: removing a dropped name from the partly filtered list advances the filter by one name, and a kept name needs no change |
| Filter.NameList.Remove | pavement.py:166 | `list.remove` removes the first copy when there is one and reports whether there was |
| Filter.FilterExcludes | pavement.py:159-167 | the list afterwards is the old list without its dropped names, in order, and the same list is returned |
| Packaging.RelToSrc | pavement.py:171 | `relpath(root, 'src')` of a path under `src` joined back under `src` gives the path; any other path is reached through `..` |
| Packaging.EntryFor | pavement.py:172 | the member reads `root/f`, its stored name ends with `f`, and under `src` the stored name joined back under `src` is the path read |
| Packaging.DirNames | pavement.py:169 | the names of the subdirectories, in listing order |
| Packaging.Lookup | pavement.py:169-173 | the subdirectory the walk opens for a name carries that name; no subdirectory is found only when none has it |
| Packaging.ZipSink.Write | pavement.py:172 | `zip.write` appends exactly one member, after the earlier ones |
| Packaging.FileEntriesStep | pavement.py:170-172 | writing one more file appends its entry |
| Packaging.SubArchivesStep | pavement.py:169-173 | descending into one more subdirectory appends its whole archive |
| Packaging.WriteFiles | pavement.py:170-172 | the entries of the kept files are appended in listing order, named relative to `src` |
| Packaging.WalkDir | pavement.py:169-173 | visiting a directory appends exactly `ArchiveOf` for it: its kept files, then each kept subdirectory in order |
| Packaging.WalkSubdirs | pavement.py:169-173 | the archives of the pruned subdirectories are appended in order |
| Packaging.MakeZip | pavement.py:150-173 | `make_zip` appends the archive of the source directory under the policy `basefilters` selects, and nothing when the directory is missing |
| Packaging.PackageFile | pavement.py:137 | the archive of both tasks (also pavement.py:145) lies in the package directory, and its file name starts with the plugin name and ends with `.zip` |
| Packaging.Package | pavement.py:134-140 | `package` writes `<name>.zip` in the package directory holding the archive under the full list |
| Packaging.PackageWithTests | pavement.py:142-148 | `package_with_tests` writes the same file holding the archive under the base list |
| Packaging.FileEntriesSound | pavement.py:170-172 | every written file entry comes from a listed file |
| Packaging.FileEntriesComplete | pavement.py:170-172 | every listed file gets its entry |
| Packaging.ArchiveSound | pavement.py:169-173 | every archive entry is a file of the tree, and neither it nor any directory on its way is dropped |
| Packaging.SubArchivesSound | pavement.py:169-173 | the same for the archives of the subdirectories |
| Packaging.SubdirFileSound | pavement.py:169-173 | a surviving file of a surviving subdirectory is a surviving file of the parent, one segment further down |
| Packaging.SubArchivesContains | pavement.py:169-173 | an entry of a visited subdirectory's archive is in the parent's archive |
| Packaging.LookupDistinct | pavement.py:169-173 | among distinct names each subdirectory is the one found for its own name |
| Packaging.NoneDroppedSplit | pavement.py:164-173 | a path with no dropped segment has a surviving first segment and a rest with no dropped segment |
| Packaging.SubdirInArchive | pavement.py:169-173 | among distinct names, the archive of a surviving subdirectory is part of its parent's archive |
| Packaging.SubdirEntryInArchive | pavement.py:169-173 | an entry found one directory down is in the parent's archive under the longer path |
| Packaging.ArchiveComplete | pavement.py:169-173 | every file of the tree that is not dropped and lies under no dropped directory is in the archive |
| Packaging.ArchiveSegmentsSurvive | pavement.py:164-172 | an entry's source lies under the walked directory, no segment of it below there is dropped, and its name is its directory relative to `src` plus the file name |
| Packaging.FileEntriesSubseq | pavement.py:170-172 | writing a subsequence of the files gives a subsequence of the entries |
| Packaging.ArchiveMonotone | pavement.py:150-173 | a stricter policy gives a subsequence of a looser policy's archive |
| Packaging.SubArchivesMonotone | pavement.py:169-173 | the same for the archives of the subdirectories |
| Packaging.PackageIsSubArchive | pavement.py:134-153 | the release archive is a subsequence of the archive with tests |
| Packaging.ReleaseVerdicts | pavement.py:22-43 | `package` keeps `a.py`, `t.py` and `coverage.xsd`, and drops `a.pyc` and `test` |
| Packaging.ReleaseKeepsSources | pavement.py:15-43 | both tasks keep every `.py` file whose name does not start with `gisdata`, `coverage` or `nose` |
| Packaging.ReleaseDropsCompiled | pavement.py:18 | both tasks drop every `.pyc` file |
| Packaging.TestsVerdicts | pavement.py:15-43 | `package_with_tests` keeps `a.py`, `t.py`, `coverage.xsd` and `test`, and drops `a.pyc` |
| Packaging.KeptSample | pavement.py:159-167 | filtering three names drops exactly the dropped one |
| Packaging.KeptOne | pavement.py:159-167 | filtering one name keeps it exactly when it is not dropped |
| Packaging.SingleFileArchive | pavement.py:169-173 | a directory holding one kept file and nothing else archives that file alone |
| Packaging.SubArchivesOne | pavement.py:169-173 | descending into one named subdirectory writes its whole archive |
| Packaging.SampleTopFiles | pavement.py:170-172 | in the sample tree the top-level entries are `opengeo/a.py` and `opengeo/coverage.xsd` |
| Packaging.SampleTestDir | pavement.py:169-173 | descending into `test` writes `opengeo/test/t.py` |
| Packaging.SampleArchive | pavement.py:169-173 | a policy that keeps `test` archives the sample as the two top-level files and then `opengeo/test/t.py` |
| Packaging.ReleaseScenario | pavement.py:134-173 | `package` archives the sample tree as `opengeo/a.py` and `opengeo/coverage.xsd`, and prunes `test` |
| Packaging.TestsScenario | pavement.py:142-173 | `package_with_tests` also archives `opengeo/test/t.py` |
| Requirements.StripStart | pavement.py:109 | the result is no longer than the line and does not start with whitespace |
| Requirements.StripEnd | pavement.py:109 | the result is no longer than the line and does not end with whitespace |
| Requirements.StripStartCuts | pavement.py:109 | the result is a suffix of the line, and what was cut off is all whitespace |
| Requirements.StripEndCuts | pavement.py:109 | the result is a prefix of the line, and what was cut off is all whitespace |
| Requirements.StripStartUnique | pavement.py:109 | a whitespace run followed by a non-space character is exactly what gets cut |
| Requirements.StripEndUnique | pavement.py:109 | a whitespace run after a non-space character is exactly what gets cut |
| Requirements.Strip | pavement.py:109 | `strip` leaves no whitespace at either end and never lengthens |
| Requirements.StripCuts | pavement.py:109 | the stripped line is the line with a whitespace prefix and a whitespace suffix cut off |
| Requirements.StripUnique | pavement.py:109 | stripping a non-padded text wrapped in any whitespace gives that text back |
| Requirements.StripIdempotent | pavement.py:109 | stripping twice is stripping once |
| Requirements.Cleaned | pavement.py:109 | every cleaned line is non-blank and stripped |
| Requirements.CleanedSound | pavement.py:109 | every cleaned line is the stripped form of some raw line |
| Requirements.CleanedComplete | pavement.py:109 | every raw line that is not blank after stripping is kept, stripped |
| Requirements.CleanedMembership | pavement.py:109-112 | a non-blank text is a cleaned line exactly when some raw line strips to it |
| Requirements.CleanedAppend | pavement.py:109 | cleaning distributes over concatenation |
| Requirements.NotComments | pavement.py:115 | the kept lines come from the slice and none starts with `#` |
| Requirements.NotCommentsAppend | pavement.py:115 | dropping comments distributes over concatenation |
| Requirements.PayloadOfCleaned | pavement.py:109-115 | cleaning and then dropping comments keeps the same lines as a one-line-at-a-time reading |
| Requirements.CleanedAround | pavement.py:109-112 | a divider line between two runs of lines cleans to the divider between the two cleaned runs |
| Requirements.NoDividerBefore | pavement.py:109-112 | lines none of which strips to the divider clean to a list without it, so `index` finds the first divider line |
| Requirements.ReadRequirements | pavement.py:106-116 | fails with the divider message exactly when no line strips to the divider; on success no returned line is blank, padded, a comment or the divider |
| Requirements.ReadRequirementsSplit | pavement.py:106-116 | with the first divider line at `k`, the runtime requirements are the requirement lines before `k` and the test requirements those after it, in file order |
| SetupDeps.FindFrom | pavement.py:98 | the first occurrence of the separator at or after a position |
| SetupDeps.Find | pavement.py:98 | the first occurrence, and none exactly when the separator does not occur |
| SetupDeps.Split | pavement.py:98 | `str.split` gives at least one piece |
| SetupDeps.SplitJoin | pavement.py:98 | joining the pieces with the separator restores the text |
| SetupDeps.OccursInPrefix | pavement.py:98 | an occurrence in a prefix is an occurrence in the whole |
| SetupDeps.BeforeFirstFree | pavement.py:98 | the text before the first occurrence holds no occurrence |
| SetupDeps.SplitPartsFree | pavement.py:98 | no piece holds the separator |
| SetupDeps.PathJoin | pavement.py:99 | `ext_src / name` is `ext_src`, a `/` and the name when the name is relative and `ext_src` does not end with `/`; an absolute name replaces `ext_src` |
| SetupDeps.EasyInstallTarget | pavement.py:80-101 | a non-editable requirement passes through unchanged; an editable one without `#egg=` fails, as Python 2's two-name unpacking does |
| SetupDeps.EasyInstallTargetSound | pavement.py:98-99 | a successful rewrite cut the requirement at its only `#egg=` and points at the egg name under `ext_src` |
| SetupDeps.EggOnlyAtSeam | pavement.py:98 | `#egg=` cannot occur overlapping a place where it was inserted |
| SetupDeps.EditableInstallsFromExtSrc | pavement.py:98-99 | with the default options, `-e URL#egg=name` is installed from `src/opengeo/ext-src/name` |
| SetupDeps.EasyInstallTargetComplete | pavement.py:98-99 | an editable requirement with exactly one `#egg=` is rewritten to the egg name under `ext_src` |
| SetupDeps.InstallTargets | pavement.py:79-104 | the loop succeeds exactly when every requirement can be rewritten, and then yields one target per requirement, in order |

## Left out

- `setup` shells out to `pip` and `easy_install`, checks the `pip` version, sets
  `PYTHONPATH` and creates or removes `ext_libs`. Only the target computed for
  each requirement is modelled.
- `SetupDeps.InstallTargets` does not model that the commands for earlier
  requirements have already run when a later one fails.
- `install` copies or symlinks the plugin into the user's QGIS directory. It is
  host file-system deployment, so it is not part of this model.
- `upload` and its remote-procedure-call client are network I/O, so they are
  not part of this model.
- `builddocs`, `create_settings_docs` and the Sphinx options are documentation
  tooling, so they are not part of this model.
- Archive contents are not modelled: deflate compression, the zip format and
  file bytes. The archive is its list of (source path, member name) pairs.
- `Glob`: `fnmatch` character classes `[...]` are not modelled, and `[` is
  treated as a literal. None of the configured patterns contain one.
  `os.path.normcase` is the identity on POSIX, so it is left out.
- `Filter.FilterExcludes` leaves out the `debug` log line and the `itempath` it
  formats. They only feed logging, so the `root` argument is not modelled.
  When the list is empty the source returns a new empty list rather than the
  argument. The model returns the list's contents, which are empty in both cases.
- `Packaging`: the tree is a snapshot of the file system taken before the walk.
  Changes made during the walk, symbolic links (which `os.walk` does not follow
  into), and listing errors below the top directory are not modelled.
- `Packaging.RelToSrc` models `os.path.relpath(root, 'src')` only for relative
  paths without `.` or `..` segments.
- `Packaging.ArchiveComplete` assumes the names within each directory are
  distinct, as on a real file system (`WellFormed`).
- `Packaging.MakeZip`, `Packaging.Package` and `Packaging.PackageWithTests` do
  not model a failure to open the archive for writing; it is I/O.
- `Requirements.ReadRequirements` takes the lines of `requirements.txt` as a
  parameter, so opening and reading the file is left out. The failure is a
  `Result` instead of a raised `BuildFailure`.
- `Requirements.Strip` removes only ASCII whitespace, as Python 2's
  `str.strip()` does on byte strings.
