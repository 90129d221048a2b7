# Template exporter and scaffolding rules of the concrete5 CLI tools, in Dafny

The concrete5 command-line tools make new packages, block types and block
templates from boilerplate trees. This project is a model of that core.
Every operation is a pure function over immutable values:

- strings are `seq<char>`;
- a template tree is a map from relative path to content;
- console answers, directory listings, writability, `realpath` and
  Laravel's `Str::studly`/`Str::slug` are parameters.

The model covers:

- **The tagged-region file exporter** (`C5Labs\Cli\FileExporter\FileExporter`,
  module `CliExporter`). It keeps an exclusion table (`Exclusions`) and a
  substitution table. Each kept file goes through three steps:
  1. The `/* @section name */ … /* @endsection */` regions listed for the file
     are cut. The two PCRE patterns are written as left-to-right scanners in
     `Markers`. The cumulative-offset deletion loop is the method
     `CutOffsets`, whose invariants prove it equal to copying the kept gaps
     (`Spans`).
  2. The substitution table is applied, with path-scoped entries matched by
     `Str::is` (`Glob`).
  3. Whatever markers remain are stripped.
- **The line-range file exporter** (`C5Dev\Rebar\FileExporter\FileExporter`,
  module `RebarExporter`). It sorts the `[start, count]` ranges by start
  (`uasort`) and cuts them with the `$count`-adjusted `array_splice` loop.
  The model proves that this removes exactly the lines the ranges name in
  the original numbering. It then applies every substitution pair to every
  file.
- **The two `CreatePackageCommand::handle` methods** (`CliCreatePackage`,
  `RebarCreatePackage`). They build the substitution tables and turn the
  `uses_composer` and `uses_service_providers` options into exclusions.
- **The console rules** (`ConsoleCommand`, `BlockTypeTemplate`):
  - handle validation;
  - the destination directory;
  - whether an object is packaged, and the directory it goes to;
  - block-type scanning, filtering, de-duplication (`array_unique`) and
    lookup (`array_search`) for block templates.

PHP's built-ins appear with their PHP edge cases in `PhpString` and
`PhpArray`: `str_replace`, `substr` with negative arguments, `array_splice`,
`explode`/`implode`, truthiness, and string-keyed arrays as ordered entry
lists.

Stripping the remaining template tags is not idempotent. Deleting one
marker can join the text around it into a new marker, which only a second
pass deletes (`CliExporter.StrippingNotIdempotent`).

Two places in the code do not do what they evidently intend (see
"## Findings"): the tagged-region exporter's `substitute` and the handle
check. The model defines each twice: as written (`SubstituteAsWritten`,
`PrepareAsWritten`, `ValidateHandleAsWritten`) and corrected (`Substitute`,
`ValidateHandle`). The export, the package commands and the console plan
use the corrected definitions. Lemmas state exactly where the two agree
(`AsWrittenAgreesWhenScopesFit`, `PrepareAsWrittenAgreesWhenScopesFit`,
`AsWrittenDiffersOnlyOnZero`).

## Model

| member | source | states |
|---|---|---|
| Exclusions.SetExclusion | src/C5Labs/Cli/FileExporter/FileExporter.php:78-87 | A non-array value stores exactly `true`. An array is appended after a list already stored for the path, and otherwise replaces the entry (absent or `true`). The set of paths gains only this path, and every other path keeps its entry. |
| Exclusions.ActiveItems | src/C5Labs/Cli/FileExporter/FileExporter.php:154-160 | Items are cut from a file exactly when its entry is a non-empty array, and those items are that array. |
| Exclusions.SkipAndCutExclusive | src/C5Labs/Cli/FileExporter/FileExporter.php:105-109 | A file skipped entirely (entry exactly `true`) has nothing cut from it, and a file with items to cut is not skipped. |
| Exclusions.FlagSkips | src/C5Labs/Cli/FileExporter/FileExporter.php:80-81 | Setting `true` skips the file and discards any list stored before. |
| Exclusions.ListAfterFlagUnskips | src/C5Labs/Cli/FileExporter/FileExporter.php:82-86 | A list set after `true` replaces it: the file is exported again, with only the new items cut. |
| Exclusions.ListsAccumulate | src/C5Labs/Cli/FileExporter/FileExporter.php:82-83 | Two lists set for a fresh path accumulate, old items first. |
| Exclusions.OtherPathsUnaffected | src/C5Labs/Cli/FileExporter/FileExporter.php:78-87 | Setting one path's entry never changes whether another path is skipped or what is cut from it. |
| Glob.LiteralPatternMatchesOnlyItself | src/C5Labs/Cli/FileExporter/FileExporter.php:201 | A substitution key without `*` scopes its entry to exactly the file with that path. |
| Glob.StarMatchesLine | src/C5Labs/Cli/FileExporter/FileExporter.php:201 | The key `*` matches every path that holds no newline. |
| Glob.StarStopsAtNewline | src/C5Labs/Cli/FileExporter/FileExporter.php:201 | `*` never matches across a newline (no `s` modifier). |
| Spans.CopyKeptIsUncovered | src/C5Labs/Cli/FileExporter/FileExporter.php:177-183 | For sorted, disjoint, in-bounds spans, copying the gaps between them yields exactly the elements no span covers, in order. |
| Spans.CopyKept | src/C5Labs/Cli/FileExporter/FileExporter.php:177-183 | Copying the gaps shortens the text by exactly the total width of the spans. |
| Markers.SkipSpaces | src/C5Labs/Cli/FileExporter/FileExporter.php:156 | `[\s]*` is greedy: the run is all whitespace and stops at the first non-whitespace character or at the end. |
| Markers.SkipName | src/C5Labs/Cli/FileExporter/FileExporter.php:156 | `[a-z-_]*` is greedy: the run is all name characters (upper case too when caseless) and stops at the first other character. |
| Markers.FindClose | src/C5Labs/Cli/FileExporter/FileExporter.php:157-158 | The lazy gap `[\S\s]*?` stops at the first position where a closing marker starts. No earlier position starts one, and when none is found there is no closing marker anywhere after the opening one. |
| Markers.RegionAt | src/C5Labs/Cli/FileExporter/FileExporter.php:156-158 | A region starts where the scan starts, so it includes the leading whitespace. It has a case-insensitive opening marker whose captured name is the region's name. It ends just past the first `@endsection` marker after the opening one, whatever that marker's name. |
| Markers.Regions | src/C5Labs/Cli/FileExporter/FileExporter.php:165 | `preg_match_all` yields regions that are sorted, pairwise disjoint and inside the text: the precondition of the deletion loop. |
| Markers.NoSlashNoTag | src/C5Labs/Cli/FileExporter/FileExporter.php:140-141 | A position whose whitespace run is not followed by `/` starts no stripping match. |
| Markers.SkipNameStopsAtUpper | src/C5Labs/Cli/FileExporter/FileExporter.php:140-141 | The case-sensitive name class never runs past the caseless one, and can only stop short of it at an upper-case letter. |
| Markers.UpperCaseNameNotStripped | src/C5Labs/Cli/FileExporter/FileExporter.php:140-141 | A marker whose name holds an upper-case letter is found by the caseless region pattern but never by the case-sensitive stripping pattern, so it survives stripping. |
| Markers.StripUnchangedIff | src/C5Labs/Cli/FileExporter/FileExporter.php:142 | `preg_replace` with `''` leaves the text unchanged exactly when no match starts in it. |
| Markers.StripRun | src/C5Labs/Cli/FileExporter/FileExporter.php:142 | A stretch where no match starts is copied unchanged. |
| CliExporter.SetExclusions | src/C5Labs/Cli/FileExporter/FileExporter.php:67-70 | The whole exclusion table is replaced and the substitutions stay. |
| CliExporter.SetExclusionOf | src/C5Labs/Cli/FileExporter/FileExporter.php:78-87 | The exporter's table changes as `setExclusion` prescribes and the substitutions stay. |
| CliExporter.SetSubstitutions | src/C5Labs/Cli/FileExporter/FileExporter.php:94-97 | The whole substitution table is replaced and the exclusions stay. |
| CliExporter.SelectedAscending | src/C5Labs/Cli/FileExporter/FileExporter.php:166-173 | Keeping only the matches with a listed name keeps their spans sorted, disjoint and in bounds. |
| CliExporter.SelectedCoveredIff | src/C5Labs/Cli/FileExporter/FileExporter.php:169-171 | A character is scheduled for removal exactly when some match whose opening name is listed covers it. |
| CliExporter.CutOffsets | src/C5Labs/Cli/FileExporter/FileExporter.php:177-183 | The deletion loop, whose bounds are shifted by the running `$position`, leaves exactly the characters no span covers, in order. The length drops by the total width of the spans. |
| CliExporter.CutGap | src/C5Labs/Cli/FileExporter/FileExporter.php:178-181 | One turn of the loop appends the gap before the span to the kept part and resumes the original text after the span. |
| CliExporter.ProcessExclusionTags | src/C5Labs/Cli/FileExporter/FileExporter.php:152-188 | Content comes back unchanged unless the file's entry is a non-empty list. Otherwise exactly the characters of the matches with a listed opening name are removed, all others are kept in order, and the length drops by the removed width. |
| CliExporter.KeptIffNotListed | src/C5Labs/Cli/FileExporter/FileExporter.php:169-171 | For a file with items to cut, a character is removed if and only if a listed match covers it. |
| CliExporter.UnknownTagsRemoveNothing | src/C5Labs/Cli/FileExporter/FileExporter.php:169 | When no match carries a listed name, the content is unchanged. |
| CliExporter.SubstituteIsPairsInEffect | src/C5Labs/Cli/FileExporter/FileExporter.php:198-211 | Substitution is one sequential run of `str_replace` over the pairs in effect for the path, in table order. Global pairs apply everywhere and a scoped list applies only where its key matches. |
| CliExporter.ChainedPairs | src/C5Labs/Cli/FileExporter/FileExporter.php:202-204 | Later pairs see earlier output: `[X→Y, Y→Z]` turns `X` into `Z`. |
| CliExporter.AsWrittenAgreesWhenScopesFit | src/C5Labs/Cli/FileExporter/FileExporter.php:198-211 | The loop as written does what is intended whenever every list entry's key matches the path and no plain pair's key does. |
| CliExporter.ScopedListLeaksAsWritten | src/C5Labs/Cli/FileExporter/FileExporter.php:208-210 | As written, a list scoped to `controller.php` still acts on `other.php`, as the array replacement `["foo","bar"]→""`, erasing `foo`. |
| CliExporter.MatchedPairSplitAsWritten | src/C5Labs/Cli/FileExporter/FileExporter.php:201-204 | As written, a plain pair whose key matches the path is iterated as two strings, so `["ab","cd"]` turns `ab` into `bb` instead of `cd`. |
| CliExporter.RemoveTemplateTags | src/C5Labs/Cli/FileExporter/FileExporter.php:138-143 | Stripping never lengthens the content, and returns it unchanged exactly when no case-sensitive marker (with its leading whitespace) starts anywhere in it. |
| CliExporter.StrippingNotIdempotent | src/C5Labs/Cli/FileExporter/FileExporter.php:140-142 | One pass over `/*@sec/*@section a*/tion a*/` leaves the marker `/*@section a*/`, which a second pass removes, so stripping is not idempotent. |
| CliExporter.PrepareUntouched | src/C5Labs/Cli/FileExporter/FileExporter.php:117-129 | A file with nothing to cut, none of its in-effect search strings and no marker passes through the three mutators byte for byte. |
| CliExporter.PrepareAsWrittenAgreesWhenScopesFit | src/C5Labs/Cli/FileExporter/FileExporter.php:117-129 | The pipeline with `substitute` as written prepares a file exactly as the corrected one whenever every table entry has the shape the loop expects for that file. |
| CliExporter.Export | src/C5Labs/Cli/FileExporter/FileExporter.php:223-252 | Fails with `InvalidArgumentException("Path [<parent>] is not writable.")` exactly when the directory above the destination's parent is not writable (a flag here), and then writes nothing. Otherwise the written paths are exactly the source paths whose entry is not `true`, each holding its prepared content. |
| CliExporter.SkipThenListExports | src/C5Labs/Cli/FileExporter/FileExporter.php:236-250 | A file set to `true` is not written, and setting a list for it afterwards brings it back. |
| RebarExporter.SetExclusions | src/C5Dev/Rebar/FileExporter/FileExporter.php:66-69 | The whole exclusion table is replaced and the substitutions stay. |
| RebarExporter.SetExclusionOf | src/C5Dev/Rebar/FileExporter/FileExporter.php:77-86 | The same three cases as the tagged-region exporter (`true`, append, replace), on line ranges. The substitutions stay. |
| RebarExporter.SetSubstitutions | src/C5Dev/Rebar/FileExporter/FileExporter.php:93-96 | The whole substitution table is replaced and the exclusions stay. |
| RebarExporter.SortByStart | src/C5Dev/Rebar/FileExporter/FileExporter.php:141-143 | The ranges come out in ascending order of start line and are a permutation of the configured ones. |
| RebarExporter.SortedPermutationUnique | src/C5Dev/Rebar/FileExporter/FileExporter.php:141-143 | When no two ranges share a start line, any ordering by start is the same one, so the sort's tie handling cannot matter. |
| RebarExporter.WidthIsSumCounts | src/C5Dev/Rebar/FileExporter/FileExporter.php:148-151 | The lines the ranges cover together number the sum of their counts, which is the final `$count`. |
| RebarExporter.SpliceGap | src/C5Dev/Rebar/FileExporter/FileExporter.php:149 | One `array_splice` at `start - $count - 1` removes exactly the range's lines in the original numbering, given `$count` lines already removed before it. |
| RebarExporter.SpliceLinesCopiesKept | src/C5Dev/Rebar/FileExporter/FileExporter.php:148-151 | For sorted, disjoint, in-bounds ranges, the `$count`-adjusted splice loop equals copying the lines between the ranges. |
| RebarExporter.LinesCut | src/C5Dev/Rebar/FileExporter/FileExporter.php:145-153 | The loop leaves exactly the lines no range covers. The line count drops by the sum of counts, and the kept lines split back out after `implode`. |
| RebarExporter.ProcessLineExclusions | src/C5Dev/Rebar/FileExporter/FileExporter.php:137-157 | Content comes back unchanged unless the file's entry is a non-empty list. Otherwise, when the sorted ranges are disjoint and in bounds, exactly the named original lines are removed, the rest are kept byte for byte and in order, and the line count drops by the sum of counts. |
| RebarExporter.SubstituteIgnoresKeysAndPath | src/C5Dev/Rebar/FileExporter/FileExporter.php:165-172 | Every pair is applied to every file, sequentially in table order, whatever its key and the path. |
| RebarExporter.PrepareUntouched | src/C5Dev/Rebar/FileExporter/FileExporter.php:116-128 | With nothing to cut and no search string present, the file is exported byte for byte, template markers included: this exporter never strips them. |
| RebarExporter.Export | src/C5Dev/Rebar/FileExporter/FileExporter.php:181-210 | Fails with the same `InvalidArgumentException` exactly when the directory above the destination's parent is not writable. Otherwise the written paths are exactly the source paths not mapped to `true`, each holding its prepared content. |
| PhpString.StrReplace | src/C5Dev/Rebar/FileExporter/FileExporter.php:168 | `str_replace` leaves a subject that does not contain the search string unchanged. |
| PhpString.ReplacementNotRescanned | src/C5Dev/Rebar/FileExporter/FileExporter.php:168 | The replacement text is never scanned again: replacing `s` in `s` by `r` gives exactly `r`. |
| PhpString.StrReplaceEachAppend | src/C5Labs/Cli/FileExporter/FileExporter.php:198-211 | Running two lists of pairs one after the other is running their concatenation. |
| PhpString.StrReplaceCharRoundTrip | src/C5Dev/Rebar/FileExporter/FileExporter.php:168 | Replacing one character by another that the subject lacks is undone by the opposite replacement: `str_replace`'s partner. |
| PhpString.SubstrPrefix | src/C5Labs/Cli/FileExporter/FileExporter.php:178 | `substr($s, 0, $n)` with `0 <= $n <= strlen($s)` is the first `$n` characters. |
| PhpString.SubstrFrom | src/C5Labs/Cli/FileExporter/FileExporter.php:179 | `substr($s, $o)` with `0 <= $o <= strlen($s)` is everything from `$o` on. |
| PhpString.ArraySplice | src/C5Dev/Rebar/FileExporter/FileExporter.php:149 | An in-range `array_splice` removes exactly the `length` elements from `offset` and keeps the others in order. |
| PhpString.Explode | src/C5Dev/Rebar/FileExporter/FileExporter.php:145 | `explode` never yields an empty list, and no part holds the separator. |
| PhpString.ImplodeExplode | src/C5Dev/Rebar/FileExporter/FileExporter.php:145-153 | Joining the split lines again gives back the original text, including a trailing empty line. |
| PhpString.ExplodeImplode | src/C5Dev/Rebar/FileExporter/FileExporter.php:153 | Splitting a join of separator-free lines gives back those lines. |
| PhpString.LastSegment | src/C5Labs/Cli/Console/MakeBlockTypeTemplateCommand.php:107-108 | `array_pop(explode(...))` never holds the separator. |
| PhpArray.ArrayPut | src/C5Labs/Cli/Console/MakeBlockTypeTemplateCommand.php:111 | `$a[$k] = $v` keeps every key in its place. A present key takes the new value in place, a new key is appended at the end, and other entries are untouched. |
| PhpArray.ArrayMerge | src/C5Labs/Cli/Commands/CreatePackageCommand.php:58 | `array_merge` keeps every key of the base array in its place. For arrays without repeated keys, each base key ends with the value `extra` gives it, or keeps its own. After the base come exactly the entries of `extra` under new keys, in `extra`'s order. |
| PhpArray.MergeAppendsNewKeys | src/C5Labs/Cli/Commands/CreatePackageCommand.php:57-59 | Every entry of `extra` under a key the base lacks appears, key and value unchanged, after every base entry. |
| PhpArray.MergeKeepsEntry | src/C5Labs/Cli/Commands/CreatePackageCommand.php:58 | A key present at some index stays at that index through the merge. |
| PhpArray.MergeReplacesInPlace | src/C5Labs/Cli/Commands/CreatePackageCommand.php:58 | An entry of `extra` under a key the base holds replaces that base entry in place. When every key of `extra` is in the base, the length is unchanged. |
| PhpArray.ArraySearch | src/C5Labs/Cli/Console/MakeBlockTypeTemplateCommand.php:150 | `array_search` finds a key iff the value is `in_array`, and it is the key of the first entry holding the value. |
| PhpArray.ArrayUnique | src/C5Labs/Cli/Console/MakeBlockTypeTemplateCommand.php:117 | `array_unique` keeps entries of the input only, no value twice, and every value of the input. |
| PhpArray.SearchUnique | src/C5Labs/Cli/Console/MakeBlockTypeTemplateCommand.php:117 | `array_unique` never changes which key a value is first found under. |
| CliCreatePackage.DefaultSubstitutions | src/C5Labs/Cli/Commands/CreatePackageCommand.php:29-54 | Nine defaults, every one a global pair (no path-scoped list). |
| CliCreatePackage.DefaultKeysUnique | src/C5Labs/Cli/Commands/CreatePackageCommand.php:29-54 | The nine default keys are distinct, as in a PHP array literal. |
| CliCreatePackage.OptionSubstitutions | src/C5Labs/Cli/Commands/CreatePackageCommand.php:56-59 | The defaults alone when no substitutions are given, otherwise the defaults merged with them. The nine default keys keep their places either way. |
| CliCreatePackage.OptionSubstitutionReplacesDefault | src/C5Labs/Cli/Commands/CreatePackageCommand.php:57-59 | For any given substitutions, each of the nine defaults keeps its place. It takes the value given under its key, or keeps its own, so it runs in the default's turn. |
| CliCreatePackage.OptionSubstitutionAppended | src/C5Labs/Cli/Commands/CreatePackageCommand.php:57-59 | For any given substitutions, the table after the nine defaults is exactly the given entries under new keys (file globs, say), in the order given, so they run after every default. |
| CliCreatePackage.OptionExclusions | src/C5Labs/Cli/Commands/CreatePackageCommand.php:61-71 | For each of the four option combinations, the controller's entry is its earlier tags followed by `composer` (composer off) and then `service-providers` (providers off). With both on, the table is untouched. The helper files are skipped exactly when providers are off and are otherwise unchanged. No other entry changes, and only these paths are added. |
| CliCreatePackage.Handle | src/C5Labs/Cli/Commands/CreatePackageCommand.php:27-79 | Fails exactly when the directory above the destination's parent is not writable. It writes only source files, and never the two helper files when `uses_service_providers` is off. |
| CliCreatePackage.BothOffExclusions | src/C5Labs/Cli/Commands/CreatePackageCommand.php:62-71 | With both options off, a fresh table becomes exactly three entries: `controller.php → ['composer', 'service-providers']` in that order, and both helper files skipped. |
| CliCreatePackage.BothOnExclusions | src/C5Labs/Cli/Commands/CreatePackageCommand.php:62-71 | With both options `true`, no exclusion is set. |
| CliCreatePackage.FalsyValuesAreNotOff | src/C5Labs/Cli/Commands/CreatePackageCommand.php:62 | Only absence, `null` or exactly `false` switch an option off; `0` and `''` leave it on. |
| RebarCreatePackage.DefaultSubstitutions | src/C5Dev/Rebar/Commands/CreatePackageCommand.php:97-120 | Seven pairs. The namespace pair (`Concrete\Package\Rebar` → prefix plus studly handle) is fifth, before the bare `Rebar` → name pair. |
| RebarCreatePackage.Configure | src/C5Dev/Rebar/Commands/CreatePackageCommand.php:122-144 | With `uses_composer` off (and providers on), the whole table becomes `controller.php → [[119,15],[155,3]]`. With both off, it becomes exactly the controller's five ranges (Composer ones first) and the two helper files skipped. With providers off, both helper files are skipped. With both on, the table is untouched. The seven pairs are set. |
| RebarCreatePackage.Handle | src/C5Dev/Rebar/Commands/CreatePackageCommand.php:95-148 | Fails exactly when the directory above the destination's parent is not writable. It writes only source files, and never the two helper files when `uses_service_providers` is off. |
| RebarCreatePackage.ProvidersOnlyOff | src/C5Dev/Rebar/Commands/CreatePackageCommand.php:132-140 | With only providers off, a fresh table gets just the three provider ranges for the controller, and the two helper files skipped. |
| RebarCreatePackage.BothOffControllerEntry | src/C5Dev/Rebar/Commands/CreatePackageCommand.php:125-140 | With both off, whatever the table held, the controller's ranges are the Composer ones followed by the provider ones. |
| RebarCreatePackage.BothOffSortOrder | src/C5Dev/Rebar/Commands/CreatePackageCommand.php:125-140 | Sorted, the five ranges are lines 109–118, 119–133, 134–147, 155–157 and 158–160. |
| RebarCreatePackage.BothOffRangesDisjoint | src/C5Dev/Rebar/Commands/CreatePackageCommand.php:127-139 | Sorted, the five ranges are disjoint and lie inside any controller of at least 160 lines: the precondition of the line cut. |
| RebarCreatePackage.BothOffController | src/C5Dev/Rebar/Commands/CreatePackageCommand.php:125-140 | With both off, a controller of at least 160 lines loses exactly those five ranges' lines, 45 in all, and the rest is kept in order. |
| RebarCreatePackage.NamespaceBeforeName | src/C5Dev/Rebar/Commands/CreatePackageCommand.php:111-115 | The template namespace becomes `Concrete\Package\` plus the studly handle, not the package name, when the studly handle does not contain a later search string. |
| ConsoleCommand.OptionOrAnswer | src/C5Dev/Scaffolder/Console/AbstractConsoleCommand.php:175-182 | A truthy option wins; otherwise the prompt's answer is used. |
| ConsoleCommand.ResolveDestination | src/C5Dev/Scaffolder/Console/AbstractConsoleCommand.php:281-292 | A truthy path argument is resolved and makes the working directory `generic`; otherwise the install path and the old type are used. An unwritable directory raises `InvalidArgumentException` naming it, exactly when it is not writable. |
| ConsoleCommand.HandleResidue | src/C5Dev/Scaffolder/Console/AbstractConsoleCommand.php:185 | What `preg_replace('/[a-z_-]/i', '', …)` leaves holds no letter, `_` or `-`, and is no longer than the handle. |
| ConsoleCommand.ResidueEmptyIff | src/C5Dev/Scaffolder/Console/AbstractConsoleCommand.php:185 | Nothing is left over exactly when every character is an ASCII letter, `_` or `-`. |
| ConsoleCommand.ValidateHandleAsWritten | src/C5Dev/Scaffolder/Console/AbstractConsoleCommand.php:185-189 | As written, a handle is refused with the `RuntimeException` exactly when the residue is PHP-truthy. |
| ConsoleCommand.ValidateHandle | src/C5Dev/Scaffolder/Console/AbstractConsoleCommand.php:185-189 | Corrected: a handle is accepted exactly when it consists of letters, `_` and `-`. |
| ConsoleCommand.AsWrittenDiffersOnlyOnZero | src/C5Dev/Scaffolder/Console/AbstractConsoleCommand.php:185 | The two checks disagree exactly on handles whose residue is the single character `0`. |
| ConsoleCommand.ZeroResidueAccepted | src/C5Dev/Scaffolder/Console/AbstractConsoleCommand.php:185 | As written, `my0` is accepted although `0` is not allowed. |
| ConsoleCommand.HandleExamples | src/C5Dev/Scaffolder/Console/AbstractConsoleCommand.php:185-189 | `my_pkg` passes; `my pkg`, `a1` and `00` are refused by both checks. |
| ConsoleCommand.AskHandle | src/C5Dev/Scaffolder/Console/AbstractConsoleCommand.php:175-189 | The validation applies whether the handle came from `--handle` or from the prompt. |
| ConsoleCommand.GenerateDestinationPath | src/C5Dev/Scaffolder/Console/AbstractConsoleCommand.php:158-161 | The path is the destination's segments with the handle added as one more directory. |
| ConsoleCommand.ValidHandleIsLastDirectory | src/C5Dev/Scaffolder/Console/AbstractConsoleCommand.php:160 | A valid handle is always the last directory of the path. |
| ConsoleCommand.DecidePackaging | src/C5Dev/Scaffolder/Console/PackageableObjectConsoleCommand.php:41-92 | Outside a `generic` or `concrete` working directory, nothing is asked and the object is not packaged. Inside one, `--package` packages it without asking; otherwise the user is asked and the answer decides. |
| ConsoleCommand.PackagedDestinationPath | src/C5Dev/Scaffolder/Console/PackageableObjectConsoleCommand.php:59-73 | A packaged object gets `<handle>_package`: under the package install path in a `concrete` directory, and under the destination otherwise. Its path is exactly that base's segments followed by `<handle>_package`. An unpackaged one gets the base command's path. |
| ConsoleCommand.PlanPackageableObject | src/C5Dev/Scaffolder/Console/AbstractConsoleCommand.php:275-298 | A destination problem is reported before the handle is looked at. The plan succeeds exactly when the handle is valid, and its last directory is the handle or the handle plus `_package`. |
| ConsoleCommand.ExplicitPathOffersPackaging | src/C5Dev/Scaffolder/Console/AbstractConsoleCommand.php:281-283 | A path given on the command line always makes packaging available, by flag or by question. |
| BlockTypeTemplate.Flatten | src/C5Labs/Cli/Console/MakeBlockTypeTemplateCommand.php:96-101 | A block directory is listed iff some package's `blocks` directory lists it. |
| BlockTypeTemplate.ScanOrder | src/C5Labs/Cli/Console/MakeBlockTypeTemplateCommand.php:90-101 | The application's blocks come first, then the core's, then the packages'. |
| BlockTypeTemplate.OfferedIff | src/C5Labs/Cli/Console/MakeBlockTypeTemplateCommand.php:110 | A name is offered iff it starts neither with `core_` nor with `dashboard_`. |
| BlockTypeTemplate.Collect | src/C5Labs/Cli/Console/MakeBlockTypeTemplateCommand.php:104-114 | Every entry is a scanned directory mapped to its last segment, and that name is offered. |
| BlockTypeTemplate.FirstNamed | src/C5Labs/Cli/Console/MakeBlockTypeTemplateCommand.php:143-150 | The reference lookup: the first offered directory named so, or none when no directory has that name. |
| BlockTypeTemplate.CollectFindsFirst | src/C5Labs/Cli/Console/MakeBlockTypeTemplateCommand.php:104-150 | Looking a name up in the scanned array finds the first directory with that name in scan order. |
| BlockTypeTemplate.ApplicationShadowsCore | src/C5Labs/Cli/Console/MakeBlockTypeTemplateCommand.php:90-117 | After `array_unique`, a name offered by the application is bound to the application's directory, whatever the core and packages hold. |
| BlockTypeTemplate.ReservedNamesNeverOffered | src/C5Labs/Cli/Console/MakeBlockTypeTemplateCommand.php:107-112 | Names starting with `core_` or `dashboard_` are never among the offered values. |
| BlockTypeTemplate.ChosenBlockType | src/C5Labs/Cli/Console/MakeBlockTypeTemplateCommand.php:120-140 | Inside a `block_type` directory, the block type is the last `/`-segment of the working directory. Elsewhere it is the option when truthy, the choice otherwise. |
| BlockTypeTemplate.AskQuestions | src/C5Labs/Cli/Console/MakeBlockTypeTemplateCommand.php:62-165 | Without a concrete5 core it throws before any scan. An unknown block type raises `InvalidArgumentException`. On success the recorded directory is the first one found with that name, whose last segment is the name, and name and handle are both the slug of the entered name. |
| BlockTypeTemplate.WorkingDirectoryNamesBlockType | src/C5Labs/Cli/Console/MakeBlockTypeTemplateCommand.php:136-147 | In a block type's own directory, the command proceeds exactly when that block type is on offer. |
| BlockTypeTemplate.TemplateDestination | src/C5Labs/Cli/Console/MakeBlockTypeTemplateCommand.php:173-178 | The destination is the base directory's segments followed by the block type, the template directory and the name. |

## Left out

- Filesystem I/O is not modelled. This covers `allFiles`, `makeDirectory`, `put`, `file_exists`, `directories`, `exists` and `realpath`. The source tree is a map from relative path to content, writability is a flag or a predicate, listings are sequences and `realpath` is a function parameter. A failing `realpath` (PHP `false`) is not modelled.
- Laravel's `Str::studly`, `Str::slug` and `Str::snake` are not shown, so they are uninterpreted function parameters. `Str::is` is modelled as exact equality or a `*`-only glob whose `*` does not cross newlines. Laravel's first test, `$pattern == $value`, is loose, so two different numeric strings such as `1e1` and `10` match there but not in the model.
- Interactive prompts and console output are not modelled: answers are inputs. The overwrite confirmation and the dispatch to the creation command, which come after the destination is formed, are also left out.
- PCRE is modelled as a deterministic scanner, without backtracking limits and without the `m` modifier, which has no effect on these patterns. Only single-byte characters are assumed.
- `in_array` and `array_search` (called without `strict`) use PHP's loose `==`. The model uses exact equality, which agrees for names that are not numeric strings. `array_unique`'s default `SORT_STRING` compares string forms exactly, so it is modelled exactly. String-keyed arrays never receive numeric keys here, so integer-key renumbering in `array_merge` is not modelled.
- Non-array values in a substitution table are not modelled. Each entry is a pair or a list of pairs.
- The application, service-provider and container wiring, the Scaffolder `Create*Command` bus commands, and the backup, shell, cache, phar, info and configuration commands are outside this model. So is `CreateBlockTypeTemplateCommand`, which only copies one file.
- RebarExporter.SortByStart: `uasort` with a boolean comparator is modelled as a stable insertion sort. PHP's sort order for equal starts is not pinned down; `SortedPermutationUnique` shows that it cannot matter when starts differ.
- RebarExporter.ProcessLineExclusions: the result is characterised only for sorted ranges that are disjoint and inside the file. Overlapping or out-of-range ranges are computed with PHP's clamping `array_splice` but not described by a contract.
- PhpString.StrReplace: the contract states only that a subject without the search string is unchanged. The full left-to-right, no-rescan behaviour is in the definition and in `ReplacementNotRescanned`.
- CliExporter.Export: the prepared content uses the corrected `Substitute` (first finding). A list of pairs scoped to one file therefore leaves other files alone, where the code as written applies it to them as an array replacement. `PrepareAsWritten` is the pipeline as written, and `PrepareAsWrittenAgreesWhenScopesFit` states when the two agree.
- CliExporter.PrepareUntouched: stated of the corrected pipeline. As written, a list of pairs keyed to another file can still change the content: `bar` on `other.php` under `controller.php → [['foo','bar']]` becomes `""`.
- CliCreatePackage.Handle: exports through `CliExporter.Export`, so it inherits the corrected substitution. As written, a file-glob list of pairs given as an option also acts on every other file.
- ConsoleCommand.AskHandle: validates with the corrected `ValidateHandle` (second finding). So `my0`, which the code as written accepts, is refused. `AsWrittenDiffersOnlyOnZero` states that handles whose residue is `0` are the only difference.
- ConsoleCommand.PlanPackageableObject: inherits the corrected handle check from `AskHandle`, with the same single difference.
- Markers.Regions: the contract states ordering, disjointness and bounds. Which matches are found is stated per match by `RegionAt` and `FindClose`.
- CliCreatePackage.DefaultSubstitutions: the contract states the shape (nine global pairs). The exact texts are constants checked against the source by reading, and `DefaultKeysUnique` states the keys' distinctness.

## Findings

| source | as written | input that shows it | evidently intended | confidence | as-written member | corrected member |
|---|---|---|---|---|---|---|
| src/C5Labs/Cli/FileExporter/FileExporter.php:198-211 | An entry whose key does not glob-match the path goes to the `else` branch even when its value is a list of pairs. The list is then used as an array `str_replace` of its first pair by its second pair (or by `""`). | Table `['controller.php' => [['foo','bar']]]`, path `other.php`, content `foo`: the result is `""` | A list scoped to a path acts only on matching files, and other files are left alone | not executed | CliExporter.SubstituteAsWritten (CliExporter.ScopedListLeaksAsWritten) | CliExporter.Substitute (CliExporter.SubstituteIsPairsInEffect) |
| src/C5Dev/Scaffolder/Console/AbstractConsoleCommand.php:185-189 | The handle is refused only when the residue is PHP-truthy, so a residue of `"0"` passes | handle `my0`: the residue is `"0"`, which is falsy, so it is accepted | Any character other than a letter, `_` or `-` is refused, as the message says | not executed | ConsoleCommand.ValidateHandleAsWritten (ConsoleCommand.ZeroResidueAccepted) | ConsoleCommand.ValidateHandle (ConsoleCommand.AsWrittenDiffersOnlyOnZero) |
