# VidoEdit episode grouping and renaming, in Dafny

This project models the file-name logic of two tabs of VidoEdit, a desktop
video tool:

- **Merge tab** (`tabs/merge_tab.py`). Video files whose names carry an
  episode identifier and a part letter (`S01E02A.mp4`, `S01E02B.mp4`, …) are
  grouped by `(season, episode)`. Each group keeps one file per part, in part
  order. Each group gets an output name built from a user sample such as
  `S01E10`. A name already taken is replaced by the first free
  `name (2).mp4`, `name (3).mp4`, ….
- **Renamer tab** (`tabs/renamer_tab.py`). Files are parsed for an identifier
  and sorted. They are numbered either from the parsed identifiers or
  consecutively from a start season and episode. Each file is renamed through
  a template such as `Episode {episode} Staffel {season}`. A plan is checked
  for conflicts, then applied in three phases: move blockers aside, rename,
  restore.

The modules follow the program's structure:

- `Wrappers`: `Option` and `Result`.
- `Strings`: ASCII character classes, `int()` and `str()` of decimal digits,
  zero padding, `strip`/`lstrip`, and Python's code-point string order.
- `Sequences`: `Distinct`, `Subsequence` (a list with some elements left out, order
  kept), and a stable insertion sort (`SortStable`) standing for Python's
  stable `sorted`/`list.sort`.
- `Directory`: a directory as a map from names to entries, with an
  `os.listdir` order beside it, plus POSIX `splitext` and `join`.
- `Patterns`: the fixed regular expressions as leftmost-match scans, and a
  user regex as an abstract compiled pattern.
- `OutputId`: `parse_output_id_sample` and `format_output_id`.
- `MergeGrouping`: identification, `scan_matching_files`,
  `scan_all_groups`, `next_available_name` and the choice of output path.
- `RenamePlanning`: `parse_identifier`, `sort_key`, `build_numbering`,
  `render_new_name` and `compute_plan`.
- `RenameApply`: `check_conflicts`, `apply_plan` and the rename worker.

Parameters stand in for the environment:

- The directory contents are a `Dir` map. The listing order is a `seq`.
- `re.compile` of user text is a function parameter.
- A user-supplied regex is a `Regex` value, known by its named groups and its
  `search` results.
- `os.path.exists` of candidate output names is the set `taken`.

## Model

| member | source | states |
|---|---|---|
| Patterns.SearchFrom | tabs/merge_tab.py:322 | `re.search`: the result is the match at the leftmost position where the pattern matches, and None exactly when it matches at no position |
| Patterns.CompileIdRegex | tabs/merge_tab.py:307-319 | the compiled pattern always has the `season` and `episode` groups; the default text gives the merge default pattern; the user's regex is used exactly when the text is not the default, compiles, and has both groups, and otherwise the default pattern is used |
| Patterns.MergeRegexText | tabs/merge_tab.py:161 | the regex text is the stripped field, or the default text when the stripped field is empty |
| Patterns.BlankMergeFieldIsDefault | tabs/merge_tab.py:161-162 | an empty or blank merge field selects the merge default pattern, whatever the compiler would do |
| Patterns.ResolveRenamePattern | tabs/renamer_tab.py:193-203 | the default text gives the renamer default; any other text that does not compile aborts the action; a valid one without both required groups is replaced by the renamer default; otherwise the user's regex is kept |
| Patterns.RenameRegexText | tabs/renamer_tab.py:193 | an empty field gives the default text; any other field is used stripped, so a blank field gives the empty regex |
| Patterns.EmptyRenameFieldIsDefault | tabs/renamer_tab.py:193-203 | an empty renamer field selects the renamer default pattern, whatever the compiler would do |
| Patterns.CaseSensitivityDiffers | tabs/renamer_tab.py:241-242 | for a name `s<dd>e<dd><rest>` with no `S` in the rest, the merge default (case-insensitive) reads season `<dd>` and episode `<dd>`, while the renamer default (case-sensitive) finds nothing and the renamer falls back to season 1, the season digits as the episode, and part `E` |
| Patterns.RenameFallsBackLowerCase | tabs/renamer_tab.py:263-270 | the renamer reads `s<dd>e<dd><rest>` (no `S` in the rest) as season 1, episode `<dd>` from the season digits, part `E` |
| OutputId.ParseOutputIdSample | tabs/merge_tab.py:273-302 | both widths are at least 1; an empty sample, a lone character, or one not starting with `s`/`S` after stripping, gives the default shape `("E", 2, 2)` |
| OutputId.FormatOutputId | tabs/merge_tab.py:304-305 | for non-negative numbers the result is `S`, a digit field reading back as the season, the separator, and a digit field reading back as the episode; each field has the width or the number's own length, whichever is longer |
| OutputId.FormatOutputIdFields | tabs/merge_tab.py:304-305 | for numbers of either sign the id is `S`, the season field, the separator and the episode field; a non-negative field is the number's digits zero-padded to the width, a negative one is `-` and the digits zero-padded to one less, the sign counting toward the width |
| OutputId.SeparatedSampleRoundTrip | tabs/merge_tab.py:281-286 | a sample `S`+digits+non-digit separator+digits yields that separator and the two run lengths, and formatting the sample's own numbers in that shape gives the sample back |
| OutputId.AllDigitSampleShape | tabs/merge_tab.py:287-301 | an all-digit body of length n ≥ 2 has an empty separator and widths summing to n: equal halves for even n ≥ 4, a 2-digit episode for odd n ≥ 5, 1+2 for n = 3 and 1+1 for n = 2 |
| OutputId.AllDigitSampleRoundTrip | tabs/merge_tab.py:287-297 | formatting the two digit runs of an all-digit sample in its own shape gives the sample back |
| OutputId.OneDigitSampleIsDefault | tabs/merge_tab.py:298-302 | a single digit after the `S` is no recognised shape and gives the default |
| OutputId.UnshapedSampleIsDefault | tabs/merge_tab.py:281-302 | a sample with a body after its `s` whose body is neither digits + non-digits + digits nor all digits falls through to the default shape |
| OutputId.LetterEndIsDefault | tabs/merge_tab.py:281-302 | a sample with a body whose stripped text ends in a non-digit gives the default shape |
| OutputId.TrailingLetterExample | tabs/merge_tab.py:302 | `S01E02x` gives the default shape |
| OutputId.NoDigitsExample | tabs/merge_tab.py:302 | `Sab` gives the default shape |
| OutputId.DefaultSampleShape | tabs/merge_tab.py:163 | the default sample `S01E10` has the default shape `("E", 2, 2)` |
| OutputId.DashShapeFormat | tabs/merge_tab.py:305 | a season width of 1 leaves a one-digit season unpadded: season 1 episode 5 in shape `("-E", 1, 2)` is `S1-E05` |
| OutputId.DashSampleShape | tabs/merge_tab.py:281-286 | the sample `S1-E02` has separator `-E`, season width 1, episode width 2 |
| Patterns.MatchIdentifier | tabs/merge_tab.py:321-328 | None exactly when the pattern finds nothing |
| Patterns.LeftmostHit | tabs/merge_tab.py:322 | when the first position where a pattern matches is j, the search returns the match at j |
| Patterns.MergeDefaultReads | tabs/merge_tab.py:321-328 | at the first `S`/`s` + one or two digits + `E`/`e` + two digits of a name, the merge default reads those digits as season and episode and the following letter, if any, upper-cased as the part; the scans read the same name the same way |
| Patterns.RenameDefaultReads | tabs/renamer_tab.py:254-262 | at the first `S` + two digits + `E` + two digits of a name, the renamer default reads those digits as season and episode and the following letter, if any, upper-cased as the part |
| Patterns.DefaultMisses | tabs/merge_tab.py:270 | a default pattern finds nothing in a name exactly when it matches at no position of it |
| Patterns.FallbackReads | tabs/renamer_tab.py:263-270 | when the primary pattern finds nothing and the first pair of adjacent digits starts at j, the name reads as season 1, those two digits as the episode, and the letter after them, if any, upper-cased as the part |
| Patterns.ParseIdentifierNone | tabs/renamer_tab.py:254-271 | a name has no identifier exactly when the primary pattern finds nothing and the name has no two adjacent digits |
| MergeGrouping.ContributionOf | tabs/merge_tab.py:361-382 | a listed name contributes an item exactly when it is a regular file with an allowed extension (case-insensitively) and is identified with a non-empty part; the item is the joined path with the upper-cased part |
| MergeGrouping.Contributions | tabs/merge_tab.py:361-382 | the collected items are exactly the contributions of the listed names |
| MergeGrouping.ContributionsInOrder | tabs/merge_tab.py:361-382 | the items are collected in listing order, each from its own name |
| MergeGrouping.ItemLeIsTotalPreorder | tabs/merge_tab.py:356 | the `(part, path.lower())` order is a total preorder, so the stable sort is well defined |
| MergeGrouping.ScanMatchingFilesSpec | tabs/merge_tab.py:330-357 | the result is sorted by `(part, path.lower())`, holds only items of files identified as the requested season and episode, holds every such item, and holds each item exactly as often as the scan contributes it |
| MergeGrouping.ScanMatchingFilesStable | tabs/merge_tab.py:356 | the sort is stable: items with the same `(part, path.lower())` key keep the order in which the scan collected them, which is the listing order (`ContributionsInOrder`) |
| MergeGrouping.BucketCounts | tabs/merge_tab.py:340-355 | the items collected for one episode occur exactly as often as their contributions |
| MergeGrouping.DedupSound | tabs/merge_tab.py:386-392 | every kept item comes from the input with a part not seen before |
| MergeGrouping.DedupDistinctParts | tabs/merge_tab.py:386-392 | kept items have pairwise different parts |
| MergeGrouping.DedupComplete | tabs/merge_tab.py:386-392 | every part of the input that was not already seen is kept |
| MergeGrouping.DedupKeepsFirst | tabs/merge_tab.py:386-392 | each kept item is the first input item with its part |
| MergeGrouping.DedupSorted | tabs/merge_tab.py:385-392 | deduplicating a sorted list leaves it sorted |
| MergeGrouping.DedupKeepsLeastPath | tabs/merge_tab.py:385-392 | the kept item for a part has the least lower-cased path among the items with that part |
| MergeGrouping.KeysInOrder | tabs/merge_tab.py:374 | the `setdefault` keys are distinct and are exactly the keys of the contributions |
| MergeGrouping.GroupsAscending | tabs/merge_tab.py:394 | groups built from any contributions are in strictly ascending `(season, episode)` order |
| MergeGrouping.GroupsParts | tabs/merge_tab.py:384-393 | each group is non-empty and its parts strictly increase |
| MergeGrouping.GroupsSound | tabs/merge_tab.py:384-393 | each item of a group is a contribution under that group's key |
| MergeGrouping.GroupSound | tabs/merge_tab.py:384-393 | an item of the group under a key is a contribution under that key |
| MergeGrouping.GroupsComplete | tabs/merge_tab.py:384-393 | each contribution is represented in the group of its key by an item of the same part whose lower-cased path is no greater |
| MergeGrouping.ScanAllGroupsAscending | tabs/merge_tab.py:359-395 | `scan_all_groups` returns groups in strictly ascending `(season, episode)` order, so no key appears twice |
| MergeGrouping.ScanAllGroupsParts | tabs/merge_tab.py:359-395 | every returned group is non-empty and its parts are strictly increasing, so one file per part |
| MergeGrouping.ScanAllGroupsSound | tabs/merge_tab.py:359-395 | every grouped item comes from a listed name that contributes it under the group's key |
| MergeGrouping.ScanAllGroupsComplete | tabs/merge_tab.py:359-395 | every contributing listed name has its part represented in its group, by itself or by a path that sorts no later |
| MergeGrouping.CandidateInjective | tabs/merge_tab.py:430 | different counters give different candidate names |
| MergeGrouping.NextAvailableName | tabs/merge_tab.py:424-433 | the result is not taken; a free path is returned unchanged; otherwise the result is `base (i)ext` for the smallest i ≥ 2 whose candidate is free |
| MergeGrouping.ChooseOutputPath | tabs/merge_tab.py:227-230 | the formatted `.mp4` path is used when free or when overwriting all; otherwise the numbered candidate `base (i).mp4` of it for the smallest i ≥ 2 that is free |
| MergeGrouping.MergedOutputIsNotAPart | tabs/merge_tab.py:368-375 | an output named in the default layout with numbers ≤ 99 is identified with an empty part, so a later scan never groups it as a part |
| Patterns.ParseIdentifier | tabs/renamer_tab.py:254-271 | None exactly when both the primary pattern and the bare two-digit fallback find nothing; the primary match when there is one; otherwise the fallback's episode and part with season 1; parts upper-cased. The merge scans read file names the same way (tabs/merge_tab.py:339-355) |
| RenamePlanning.PartRank | tabs/renamer_tab.py:244 | the rank is at most 26 and positive exactly for a single letter A–Z, the letter's position in the alphabet |
| RenamePlanning.SortKeyLeIsTotalPreorder | tabs/renamer_tab.py:273-276 | `(season, episode, part rank, name.lower())` is a total preorder |
| RenamePlanning.ScanFiles | tabs/renamer_tab.py:246-252 | exactly the listed names that are regular files, without repeats when the listing has none |
| RenamePlanning.ScanFilesInOrder | tabs/renamer_tab.py:246-252 | the files keep the listing order |
| RenamePlanning.ParseAll | tabs/renamer_tab.py:296-303 | exactly the parseable files with their identifiers, names distinct when the files are |
| RenamePlanning.ParseAllInOrder | tabs/renamer_tab.py:296-303 | the parsed files keep the order of the files |
| RenamePlanning.NumberFromSpec | tabs/renamer_tab.py:283-288 | from position i on, parsed mode maps each name to its own identifier and manual mode to the start season and start episode + position, keeping the part |
| RenamePlanning.BuildNumberingSpec | tabs/renamer_tab.py:278-289 | each file's numbering follows the mode as above, and the mapping has no other keys |
| RenamePlanning.RenderConcat | tabs/renamer_tab.py:291-292 | formatting distributes over concatenation of templates |
| RenamePlanning.RenderNoFields | tabs/renamer_tab.py:291-292 | a template without placeholders formats to its own text |
| RenamePlanning.RenderSingle | tabs/renamer_tab.py:291-292 | a placeholder formats to its field's text, with `str()` of the numbers |
| RenamePlanning.TargetName | tabs/renamer_tab.py:313 | the target ends in `.` plus the dot-stripped extension whenever the file has an extension and the template text lacks `{ext`; it is the rendered name plus that suffix when the rendered name does not already end in it, and otherwise (no extension, `{ext` in the template, or the suffix already present) the rendered name itself |
| RenamePlanning.ExtFieldSuppressesSuffix | tabs/renamer_tab.py:313 | a template placing `{ext}` never gets the extension appended |
| RenamePlanning.ExtSuffixRule | tabs/renamer_tab.py:313 | for a well-formed template, its text contains `{ext` exactly when it has an `{ext}` placeholder, and the suffix is appended exactly when the extension is non-empty, the placeholder is absent and the name does not already end in it |
| RenamePlanning.EntryTargetAppends | tabs/renamer_tab.py:311-313 | a file with a one-dot extension, rendered through a well-formed template without `{ext}` to a name that does not already end in that extension, gets exactly the rendered name plus the extension |
| RenamePlanning.PlanWithSpec | tabs/renamer_tab.py:306-315 | for any rendering function, the sources are the sorted names in order and the k-th target is rendered with index k+1 and the identifier the numbering of that mode gives the k-th file |
| RenamePlanning.PlanFromSpec | tabs/renamer_tab.py:306-315 | the sources are the sorted names in order, and the k-th target is rendered with index k+1 and the numbering of that mode |
| RenamePlanning.ComputePlanEmpty | tabs/renamer_tab.py:304-305 | the plan is empty exactly when no file parses |
| RenamePlanning.ComputePlanSources | tabs/renamer_tab.py:296-314 | the plan's sources are distinct and are exactly the parseable files |
| RenamePlanning.ComputePlanOrdered | tabs/renamer_tab.py:306 | the plan is ordered by the sort key of each source's identifier |
| RenamePlanning.ComputePlanStable | tabs/renamer_tab.py:306 | `sorted` is stable: parsed files with the same sort key (the same season, episode and part rank, and names equal up to ASCII case) keep their order among the parsed files, which is the listing order (`ScanFilesInOrder`, `ParseAllInOrder`) |
| Sequences.SortStable | tabs/renamer_tab.py:306 | the sort standing for Python's `sorted` keeps the elements of each key in their input order |
| RenamePlanning.ComputePlanTargets | tabs/renamer_tab.py:307-314 | the k-th target is rendered with index k+1 and the file's own identifier, or `(start season, start episode + k, part)` in manual mode |
| RenamePlanning.ExampleParse | tabs/renamer_tab.py:254-262 | `S01E01.mkv` parses as season 1, episode 1, no part |
| RenamePlanning.ExampleTarget | tabs/renamer_tab.py:311-313 | with the default template, `S01E01.mkv` gets the target `Episode 1 Staffel 1.mkv` |
| RenamePlanning.DefaultTemplateExample | tabs/renamer_tab.py:294-315 | the plan for `S01E01.mkv` with the default pattern and template is the single pair (`S01E01.mkv`, `Episode 1 Staffel 1.mkv`) |
| Strings.StripLeading | tabs/renamer_tab.py:312 | `lstrip('.')`: the result is a suffix not starting with `.`, and only dots were removed |
| RenameApply.DupesAreRepeated | tabs/renamer_tab.py:318-323 | a name is in `dupes` exactly when two entries of the plan share it as target |
| RenameApply.SortedSet | tabs/renamer_tab.py:326 | `sorted(set(...))` has exactly the given elements, in strictly ascending order |
| RenameApply.ExistsErrorsSpec | tabs/renamer_tab.py:327-330 | one message per entry whose target differs from its source and is a listed name, naming that target, and no other messages; message k belongs to the k-th such entry in plan order |
| RenameApply.CheckConflictsOk | tabs/renamer_tab.py:317-331 | the check passes exactly when no two entries share a target and no entry renames onto a listed name other than itself |
| RenameApply.CheckConflictsDuplicates | tabs/renamer_tab.py:325-326 | the first message lists duplicates exactly when a target repeats; it names every repeated target once, in ascending order |
| RenameApply.CheckConflictsExisting | tabs/renamer_tab.py:327-331 | after that come only "exists" messages, one per offending entry, covering every offending entry, in plan order |
| RenameApply.FreshTemp | tabs/renamer_tab.py:341-343 | the temporary name is not taken, extends the initial name, and is the initial name when that is free |
| RenameApply.Replace | tabs/renamer_tab.py:351 | `os.replace` fails exactly when the source is missing; otherwise the target holds the source's entry, the source is gone and nothing else changes |
| RenameApply.TempPhaseIdle | tabs/renamer_tab.py:338-345 | when no entry renames onto a listed name, phase one moves nothing aside |
| RenameApply.MovePhaseRenames | tabs/renamer_tab.py:346-351 | with distinct present sources, distinct targets and free moved targets, phase two succeeds and performs exactly the renaming |
| RenameApply.ApplyPlanCorrect | tabs/renamer_tab.py:333-356 | after a passing check, with distinct present sources, `apply_plan` succeeds; each target then holds its source's entry, moved sources are gone, and every other entry is unchanged |
| RenameApply.SwapRefusedAndUnsafe | tabs/renamer_tab.py:333-356 | a two-cycle swap fails the check, and applying it anyway fails on a missing source in phase two |
| RenameApply.RenameActionSound | tabs/renamer_tab.py:210-233 | for a consistent listing the worker never fails inside `apply_plan`: it reports nothing to rename exactly when no file parses, conflicts exactly when the check fails, and otherwise the renamed directory |

## Left out

- ffmpeg, subprocesses, threads, progress reporting and the Flet UI are not modelled. The merge batch loop is modelled only through `ChooseOutputPath`. The concat command builder is outside the modelled core.
- User regexes are abstract. Only their named groups and `search` results enter the model, because Python's regex engine is not modelled.
- The two default regex texts are not compiled by a regex engine. The model maps each default text to its fixed scan (`MergeDefault`, `RenameDefault`), which is written to match as that regex does; any other text goes through the `compile` parameter.
- The merge tab's single-episode preview and merge read the identifier field with `parse_identifier` (tabs/merge_tab.py:183, 241). That reading is `Patterns.MatchIdentifier`; the UI flow around it is not modelled.
- Case handling is ASCII only. Python's `re.IGNORECASE` and `str.upper`/`str.lower` also fold non-ASCII letters such as the Kelvin sign, long s and `ß`. Names are treated as ASCII.
- `int()` of a group never fails in the model. The fixed patterns capture only digits. A user regex's `Hit` already carries integers.
- Templates are given as pieces: literal text without braces, and bare placeholders. `str.format`'s format specs, conversions, attribute access, escaped braces, and its `KeyError`/`ValueError` on unknown or malformed placeholders are not modelled. Neither is parsing template text into pieces.
- `os.replace` refusing to overwrite a directory, permission errors and other OS failures are not modelled. Only a missing source fails.
- After a failure, `apply_plan`'s partially renamed directory is not part of the `Failure` value.
- Paths are POSIX. Windows drive letters and `\` separators are not modelled.
- The conflict messages' text and the UI's translated strings are not modelled. Only their structure and the names they carry are.
- Numbers are unbounded. Python's `int` is unbounded as well, so there is no wrap-around to model.
- `MergeGrouping.MergedOutputIsNotAPart` covers only the default separator `E`, a season width of 1 or 2, an episode width of 2, and numbers up to 99. Other shapes are not covered.

## Behaviour worth knowing

- The sample `S1-E02` gives season width 1, so season 1, episode 5 is `S1-E05` (`OutputId.DashShapeFormat`).
- `apply_plan` is not safe for cycles. A swap has both sources moved aside in phase one, and phase two then fails. Only `check_conflicts` keeps such plans away (`RenameApply.SwapRefusedAndUnsafe`).
- A target ends with a dot-extension only when the file has an extension, or the template places it.
- The merge tab orders the files of a group by the part string, not by a part rank. For single letters the two agree.
- `check_conflicts` counts every listed name as existing, including the plan's own sources. A chain `a -> b, b -> c` is therefore reported as a conflict.
