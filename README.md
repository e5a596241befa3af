# TokenizeSolution file selection and compaction, in Dafny

TokenizeSolution is a family of four small .NET command-line programs. Each walks a solution directory and either concatenates its relevant source files into one compact text, or prints the directory tree. The four programs are:

- the first TokenizeSolution;
- src/TokenizeSolution;
- its LLM-oriented successor, TokenizeSolution-V2-LLM;
- DirectoryLayout.

This project models the logic that decides which files survive and what their text becomes:

- **Gitignore** (`gitignore.dfy`) covers three things.
  - It reads the rule lines of a `.gitignore`.
  - It translates each rule into a .NET regular expression. The translator is the same in all four programs. It is modelled twice: as the imperative `StringBuilder` loop with its `isEscaping` flag, and as a specification function the loop is proved against.
  - It implements the "some rule matches" test. For "plain" rules, where no escaped character stands directly before `*` or `/`, the emitted regex gets a meaning of its own: a token list matched against a path. This gives what such rules do and do not exclude.
- **FileFilters** (`file_filters.dfy`) holds the fixed ignore sets and the ignore-case `HashSet` union that joins them with the Blazor and user sets. It also holds the per-file test of `DiscoverFiles` (TokenizeSolution and V2-LLM), `IsBlazorSpecificExclusion`, and `GetRelevantFiles` of the first program, which filters then sorts.
- **Compaction** (`compaction.dfy`) holds the line pipelines of the three `CompactContent` variants. Each splits into lines, trims, drops blank lines and joins with a separator chosen from the first line. The comment strippers are parameters.
- **LlmPostProcessing** (`llm_post.dfy`) covers the V2-LLM steps in order:
  - the `FileInfo` record built for each file;
  - `EstimateTokens` and `GetFileImportance`;
  - the four-key `PrioritizeFilesForLlm` sort;
  - the greedy `TrimToTokenLimit`, an imperative loop proved against a specification function.
- **DirectoryLayout** (`directory_layout.dfy`) models `GenerateDirectoryLayoutAsync` over a directory-tree value. It is a method that appends lines to the output built so far. It also holds `GetFileIcon`.
- **Text** and **Sorting** are shared helpers.
  - Text models the .NET string operations used: ignore-case comparison with ASCII folding, `UnionWith` on an ignore-case `HashSet`, `string.Length` in UTF-16 units, Trim, IsNullOrWhiteSpace, Contains, Join, StringBuilder.Replace, and ordinal order.
  - Sorting is an insertion sort over a total preorder, standing in for LINQ `OrderBy`/`ThenBy`.

Conventions: paths use `/` as the separator, and a file's full path is the root, a `/` and its relative path. The regular-expression engine is a parameter `isMatch(regex, path)`.

## Model

| member | source | states |
|---|---|---|
| Gitignore.LoadGitignoreRules | src/TokenizeSolution/Program.cs:317-319 | every kept line comes from the file and is neither blank nor a `#` comment, and every such line is kept |
| Gitignore.LoadAppend | src/TokenizeSolution/Program.cs:317-319 | the filter decides line by line and keeps file order: loading two concatenated files is the concatenation of their loads |
| Gitignore.LoadIdempotent | src/TokenizeSolution/Program.cs:317-319 | filtering already-filtered rules changes nothing |
| Gitignore.StripNegation | src/TokenizeSolution/Program.cs:327 | exactly one leading `!` is removed, and a rule without one is left as it is |
| Gitignore.CompileGitignoreRules | src/TokenizeSolution/Program.cs:322-333 | one regex per rule, in order; the i-th is the translation of rule i without its `!` |
| Gitignore.NegatedRuleExcludesSame | src/TokenizeSolution/Program.cs:322-338 | replacing a rule `p` by `!p` changes no decision: negation does not re-include |
| Gitignore.RuleOrderIrrelevant | src/TokenizeSolution/Program.cs:335-338 | two rule lists with the same members ignore the same paths, whatever their order or repetitions |
| Gitignore.IgnoredByFewerRules | src/TokenizeSolution/Program.cs:335-338 | adding rules never un-ignores a path |
| Gitignore.EmittedFor | src/TokenizeSolution/Program.cs:353-364 | a character's output starts with `\` exactly when Regex.Escape would change it, and otherwise with the character itself |
| Gitignore.EscapedSnoc | src/TokenizeSolution/Program.cs:345-365 | appending a character: after an escaped character, a `*` or `/` deletes that character and keeps its `\`; otherwise the new character's output is appended |
| Gitignore.EscapedEndsWithLast | src/TokenizeSolution/Program.cs:353-357 | when the last character was escaped, the output ends with `\` and that character |
| Gitignore.EscapingLoopStep | src/TokenizeSolution/Program.cs:345-365 | one loop step in all four cases: the builder and the `isEscaping` flag after the step agree with the specification of the longer prefix |
| Gitignore.ConvertGitignorePatternToRegex | src/TokenizeSolution/Program.cs:340-383 | the `StringBuilder` loop with `Length--`, the two `Replace` calls and the `Insert`s produce exactly `Translate(pattern)` |
| Gitignore.TwoReplacesAreStarPass | src/TokenizeSolution/Program.cs:367-368 | the two whole-buffer `Replace` calls equal one left-to-right pass turning each `**` into `.[^/]*` and every other `*` into `[^/]*` |
| Gitignore.ReplacesOnStars | src/TokenizeSolution/Program.cs:367-368 | the two `Replace` calls turn a leading `**` into `.[^/]*` (the second call rewrites the `*` of the first one's `.*`), a lone leading `*` into `[^/]*`, and pass any other leading character through, each followed by the replacement of the rest |
| Gitignore.TranslateShape | src/TokenizeSolution/Program.cs:367-381 | a rule starting with `/` compiles to `^` + body, with the body starting with `/`; any other rule compiles to `^(.*/)?(` + body + `)`; a trailing `/` adds `.*` after the replacements |
| Gitignore.StarPassOfPlain | src/TokenizeSolution/Program.cs:345-368 | for a plain rule, the escaped and replaced text is the rendering of the rule's glob tokens |
| Gitignore.TranslateRendersTokens | src/TokenizeSolution/Program.cs:340-383 | for a plain rule, the regex is the anchor followed by the rendering of the rule's tokens |
| Gitignore.IgnoredByCompiledRules | src/TokenizeSolution/Program.cs:322-338 | when the engine agrees with the token meaning on each rule, the compiled test is "some rule's tokens match the path" |
| Gitignore.RuleMatchesExtends | src/TokenizeSolution/Program.cs:376-380 | there is no `$`: a rule that matches a path also matches every extension of it |
| Gitignore.LogRuleMatches | src/TokenizeSolution/Program.cs:376-380 | `*.log` matches any name ending in `.log`, followed by anything |
| Gitignore.LogRuleMatchesLoggerDirectory | src/TokenizeSolution/Program.cs:376-380 | `*.log` also matches `a.logger/x` |
| Gitignore.DirectoryRuleNeedsSlash | src/TokenizeSolution/Program.cs:370-371 | a rule ending in `/` only matches paths containing `/` |
| Gitignore.AnchoredRuleNeedsLeadingSlash | src/TokenizeSolution/Program.cs:372-375 | a rule starting with `/` only matches paths that start with `/` |
| Gitignore.AnchoredBuildRuleExcludesNothing | src/TokenizeSolution/Program.cs:372-375 | `/build/` matches no relative path, since relative paths never start with `/` |
| Gitignore.NegationDoesNotReinclude | src/TokenizeSolution/Program.cs:322-338 | with rules `*.log` and `!x.log`, the file `x.log` is still ignored |
| Gitignore.DoubleStarMissesTopLevel | src/TokenizeSolution/Program.cs:367-368 | `**/*.tmp` does not match a top-level `x` without a `/` |
| Gitignore.DoubleStarCatchesNested | src/TokenizeSolution/Program.cs:367-368 | `**/*.tmp` matches `d/x.tmp` for any nonempty directory name `d` and file name `x` without `/`, when `d` does not start with a line feed, which the regex `.` does not match |
| Gitignore.BuildRuleHidesContentsOnly | src/DirectoryLayout/Program.cs:224-233 | `build/` matches everything inside `build`, but not the path `build` itself |
| Gitignore.LoneNegationMatchesEverything | src/TokenizeSolution/Program.cs:327 | the rule `!` becomes the empty pattern, whose regex `^(.*/)?()` matches every path |
| Gitignore.TranslateRooted | src/TokenizeSolution/Program.cs:372-375 | the corrected translation: unanchored rules translate as before |
| Gitignore.TranslateRootedRendersTokens | src/TokenizeSolution/Program.cs:372-375 | the corrected regex of an anchored plain rule is `^` followed by the rule's tokens after the leading `/` |
| Gitignore.RootedRuleMatchesFromRoot | src/TokenizeSolution/Program.cs:372-375 | the corrected anchored rule matches a relative path exactly when the written rule matches that path with a `/` in front |
| Gitignore.RootedBuildRule | src/TokenizeSolution/Program.cs:372-375 | with the correction, `/build/` excludes the contents of the top-level `build` and not those of `src/build` |
| FileFilters.LastIndexOf | src/TokenizeSolution/Program.cs:196-197 | the index of the last occurrence of the character, or -1 when it does not occur |
| FileFilters.FileName | src/TokenizeSolution/Program.cs:196 | the name ends the path, holds no `/`, and is preceded by `/` when it is not the whole path |
| FileFilters.Extension | src/TokenizeSolution/Program.cs:197 | either empty or a `.` followed by a nonempty tail without `.` that ends the file name; empty exactly when the name has no `.` or ends with one |
| FileFilters.ConfiguredSet | src/TokenizeSolution/Program.cs:115-126 | the ignore set built as an ignore-case `HashSet`: it holds the base set, only names from the base, Blazor and user sets, and is, ignoring case, exactly the base set, plus the Blazor set in a Blazor project, plus the user's names; a name already present in another spelling is not added |
| FileFilters.IsBlazorSpecificExclusion | src/TokenizeSolution-V2-LLM/Program.cs:565-586 | excluded exactly when one of these holds: the name is minified or generated; a file under `wwwroot/` is not html/css/js or has `.min.`; the extension is not Blazor-relevant; or the path contains one of the directory fragments, ignoring case |
| FileFilters.AnySegmentIn | src/TokenizeSolution-V2-LLM/Program.cs:584-585 | holds exactly when some fragment occurs in the path, ignoring case |
| FileFilters.SingleSlashPathMissesSegments | src/TokenizeSolution-V2-LLM/Program.cs:584-585 | a path `a/b` with one separator contains no `/x/` fragment |
| FileFilters.TopLevelBinPassesSegmentCheck | src/TokenizeSolution-V2-LLM/Program.cs:584-585 | `bin/app.cs` is not caught by the fragment check |
| FileFilters.NestedBinFailsSegmentCheck | src/TokenizeSolution-V2-LLM/Program.cs:584-585 | `src/bin/app.cs` is caught by it |
| FileFilters.KeptPaths | src/TokenizeSolution/Program.cs:193-232 | a full path is emitted exactly when some enumerated relative path passes the test and gives that full path |
| FileFilters.DiscoverFiles | src/TokenizeSolution/Program.cs:186-235 | returns the number of enumerated files, and emits a file exactly when it passes all five tests (directory, file name, binary, gitignore, Blazor) |
| FileFilters.TopLevelIgnoredDirectoryExcluded | src/TokenizeSolution/Program.cs:199-204 | a file under an ignored directory at the top of the tree is dropped, in whatever case the directory is spelled |
| FileFilters.CommonDirectoriesAlwaysExcluded | src/TokenizeSolution/Program.cs:199-204 | `.git`, `node_modules` and `bin` at the top of the tree are dropped in every configuration |
| FileFilters.BinaryFilesAlwaysExcluded | src/TokenizeSolution/Program.cs:212-213 | a file whose extension is binary, in any case, is dropped whatever the other inputs |
| FileFilters.RootInsideIgnoredDirectoryExcludesAll | src/TokenizeSolution/Program.cs:200-202 | when the root itself lies inside an ignored directory, the full-path check drops every file |
| FileFilters.TmpRootExcludesAll | src/TokenizeSolution/Program.cs:200-202 | a solution at `/tmp/work` keeps no files, because `tmp` is an ignored directory |
| FileFilters.RelativeCheckOnlyAddsCaseFolding | src/TokenizeSolution/Program.cs:200-204 | a relative path starting with `d/` already puts `/d/` in the full path, so the relative check only adds case-insensitivity |
| FileFilters.KeepsAntitone | src/TokenizeSolution/Program.cs:199-230 | larger ignore sets, or turning the Blazor checks on, never keep a file that the smaller configuration drops |
| FileFilters.ConfiguredSetMonotone | src/TokenizeSolution/Program.cs:115-126 | for one project kind, larger user additions give a larger set; a Blazor project, or larger additions, always give a set that holds more names ignoring case |
| FileFilters.BinSpellingDropped | src/TokenizeSolution/Program.cs:114-125 | `--ignore-dir Bin` stores nothing new: `bin` is already present, so the spelling `Bin` is absent although the name is there ignoring case |
| FileFilters.UpperCaseLogEntryDropped | src/TokenizeSolution/Program.cs:115-126 | `--ignore-file *.LOG` leaves the ignored-file set as it was, because `*.log` is already present |
| FileFilters.BlazorSetDropsUserSpelling | src/TokenizeSolution/Program.cs:117-125 | the user's `CSS` is stored in a plain project but not in a Blazor one, whose `css` entry comes first |
| FileFilters.VariantOfSeedDropped | src/TokenizeSolution/Program.cs:117-125 | in a Blazor project, a user name that differs only in case from a Blazor entry is not stored |
| FileFilters.GetRelevantFilesCorrect | TokenizeSolution/Program.cs:79-118 | with the sets built by the ignore-case `UnionWith`, the result is sorted and holds exactly the enumerated files that pass the test, which searches only the full path for ignored directories |
| FileFilters.RelevantFilesWith | TokenizeSolution/Program.cs:91-117 | for given ignore sets, the result is sorted and a full path is in it exactly when some enumerated relative path passes the test and gives that path |
| FileFilters.SortedKeptPaths | TokenizeSolution/Program.cs:91-117 | sorting the kept paths orders them and neither adds nor loses any |
| FileFilters.WildcardCaseDifference | TokenizeSolution/Program.cs:104-106 | the ordinal `*.ext` test implies the ignore-case one, and `A.LOG` separates them |
| FileFilters.WildcardOrdinalImpliesIgnoreCase | TokenizeSolution/Program.cs:104-106 | every name the ordinal `*.ext` test catches is also caught ignoring case |
| FileFilters.UpperCaseLogMatchesIgnoringCaseOnly | TokenizeSolution/Program.cs:104-106 | `*.log` catches `A.LOG` ignoring case but not ordinally |
| Compaction.SplitOnBreaks | src/TokenizeSolution-V2-LLM/Program.cs:678 | at least one piece, and no piece holds a line break |
| Compaction.SplitLines | src/TokenizeSolution/Program.cs:400-403 | at least one piece, and no piece holds a line break |
| Compaction.RemoveEmpty | src/TokenizeSolution-V2-LLM/Program.cs:678 | keeps exactly the nonempty pieces |
| Compaction.ReadLines | TokenizeSolution/Program.cs:193 | no lines exactly for empty text; the first line runs up to the first break |
| Compaction.TidyLine | src/TokenizeSolution/Program.cs:401-402 | a blank line is dropped, and any other line is kept trimmed |
| Compaction.Tidy | src/TokenizeSolution/Program.cs:401-402 | never more lines than pieces, and every kept line is trimmed and nonempty |
| Compaction.StripComments | src/TokenizeSolution/Program.cs:391-398 | extensions without a stripper leave the content unchanged |
| Compaction.TidyRemoveEmpty | src/TokenizeSolution-V2-LLM/Program.cs:678-680 | removing empty pieces first changes no kept line |
| Compaction.SplitLinesKeepsSameLines | src/TokenizeSolution/Program.cs:400-403 | splitting on `\r\n`, `\r` and `\n` keeps the same lines as splitting on every break character |
| Compaction.ReadLinesKeepsSameLines | TokenizeSolution/Program.cs:193-196 | File.ReadLines keeps the same lines too |
| Compaction.KeptLinesEmptyIffBlank | src/TokenizeSolution-V2-LLM/Program.cs:678-684 | no line is kept exactly when the text is blank |
| Compaction.KeptLinesShape | src/TokenizeSolution-V2-LLM/Program.cs:678-681 | kept lines are trimmed, nonempty and break-free; there are none exactly when the text is blank |
| Compaction.KeptLinesOfJoined | src/TokenizeSolution/Program.cs:400-407 | joining kept lines with line feeds and splitting again gives back the same lines |
| Compaction.SplitJoinedLines | src/TokenizeSolution/Program.cs:400-407 | splitting break-free lines joined by `\n` returns those lines |
| Compaction.JoinSplitOnBreaks | src/TokenizeSolution/Program.cs:400-407 | for text without `\r`, joining its pieces with `\n` rebuilds it |
| Compaction.CompactLinesLlmByKept | src/TokenizeSolution-V2-LLM/Program.cs:678-693 | the V2-LLM result: empty when no line is kept; otherwise the kept lines joined by a line feed when the first opens with `<`/`{` or the file is structured, and by a space otherwise |
| Compaction.CompactLinesLlmShape | src/TokenizeSolution-V2-LLM/Program.cs:683-693 | empty exactly for blank text; a line-feed join keeps the lines; a space join gives one line of the stated length |
| Compaction.CompactContentLlmIdempotent | src/TokenizeSolution-V2-LLM/Program.cs:663-693 | without a comment stripper, compacting the output again changes nothing |
| Compaction.CompactLinesByKept | src/TokenizeSolution/Program.cs:400-407 | the kept lines joined with "" when the first kept line opens with `<` or `{`, and with `\n` otherwise |
| Compaction.CompactLinesShape | src/TokenizeSolution/Program.cs:400-407 | empty exactly for blank text; a markup join gives one line, and a line-feed join keeps the lines |
| Compaction.CompactLinesIdempotent | src/TokenizeSolution/Program.cs:400-407 | the line pipeline applied to its own output returns that output |
| Compaction.CompactContentIdempotent | src/TokenizeSolution/Program.cs:385-407 | without a comment stripper, CompactContent is idempotent |
| Compaction.CompactContentFirstLineByKept | TokenizeSolution/Program.cs:191-200 | the first program joins the kept lines with "" when the first raw line, after TrimStart, opens with `<` or `{`, and with `\n` otherwise |
| Compaction.CompactContentFirstLineAgrees | TokenizeSolution/Program.cs:191-200 | when the first raw line is not blank, the first program agrees with the later pipeline |
| Compaction.CompactContentFirstLineNotIdempotent | TokenizeSolution/Program.cs:198-200 | when the first raw line is blank and the first kept line opens markup, compacting the output again changes it |
| Compaction.LeadingBlankLineCounterexample | TokenizeSolution/Program.cs:198-200 | `\n<a>\n<b>` and its compaction compact differently |
| LlmPostProcessing.LookupIgnoresCase | src/TokenizeSolution-V2-LLM/Program.cs:14 | in a map with lower-case keys, the key equal to an extension ignoring case is its lower case |
| LlmPostProcessing.ExtensionKeysAreLowerCase | src/TokenizeSolution-V2-LLM/Program.cs:14-40 | every key of the category map is lower case |
| LlmPostProcessing.CategoryOfCorrect | src/TokenizeSolution-V2-LLM/Program.cs:225 | the category of the key equal to the extension ignoring case, or Source when there is none |
| LlmPostProcessing.EstimateTokens | src/TokenizeSolution-V2-LLM/Program.cs:293-297 | the UTF-16 length divided by four, rounded down: four times the estimate is at most the length and within four of it |
| LlmPostProcessing.AstralCharactersCountTwice | src/TokenizeSolution-V2-LLM/Program.cs:296 | four folder emoji, each outside the Basic Multilingual Plane, are eight UTF-16 units and so two tokens |
| LlmPostProcessing.CompactedBlankIsEmpty | src/TokenizeSolution-V2-LLM/Program.cs:222-223 | compacted content is blank exactly when it is empty |
| LlmPostProcessing.ProcessFileCorrect | src/TokenizeSolution-V2-LLM/Program.cs:218-228 | there is no record exactly when the stripped text is blank; a record keeps the relative path, the file's extension, the compacted text (never blank), an estimate that is that text's UTF-16 length divided by four, and the category of the extension |
| LlmPostProcessing.FileNameWithoutExtension | src/TokenizeSolution-V2-LLM/Program.cs:265 | the whole file name when it has no `.`; otherwise the part of the name before its last `.` |
| LlmPostProcessing.GetFileImportance | src/TokenizeSolution-V2-LLM/Program.cs:263-277 | one of 0, 60, 70, 80, 90, 100; it is 100 exactly when the lower-cased stem contains an important name |
| LlmPostProcessing.ImportanceCascade | src/TokenizeSolution-V2-LLM/Program.cs:270-276 | below 100, the importance is 90, 80, 70 or 60 exactly when controller, service, model or component is the first of the four words the path contains, ignoring case, and 0 exactly when it contains none |
| LlmPostProcessing.ImportanceIgnoresCase | src/TokenizeSolution-V2-LLM/Program.cs:263-277 | the importance of a path does not depend on its case |
| LlmPostProcessing.FragmentOfNameIsImportant | src/TokenizeSolution-V2-LLM/Program.cs:265-269 | `src/Mapper.cs` has importance 100, because its lower-cased stem `mapper` contains `app` |
| LlmPostProcessing.CategoryRank | src/TokenizeSolution-V2-LLM/Program.cs:244-253 | ranks lie between 1 and 7 |
| LlmPostProcessing.CategoryRankInjective | src/TokenizeSolution-V2-LLM/Program.cs:244-253 | distinct categories have distinct ranks |
| LlmPostProcessing.PriorityLeIsTotalPreorder | src/TokenizeSolution-V2-LLM/Program.cs:255-259 | the four-key order is total and transitive |
| LlmPostProcessing.PrioritizeFilesForLlm | src/TokenizeSolution-V2-LLM/Program.cs:241-261 | the result is a permutation of the input |
| LlmPostProcessing.PrioritizeFilesForLlmCorrect | src/TokenizeSolution-V2-LLM/Program.cs:241-261 | a permutation sorted by rank, depth, descending importance, then path; ranks never decrease |
| LlmPostProcessing.MoreImportantFirst | src/TokenizeSolution-V2-LLM/Program.cs:258 | among files of one category and depth, the more important come first |
| LlmPostProcessing.TakenFrom | src/TokenizeSolution-V2-LLM/Program.cs:284 | the greedy scan from position k stops between k and the end |
| LlmPostProcessing.TrimmedLength | src/TokenizeSolution-V2-LLM/Program.cs:284 | the number of files kept is at most the number given |
| LlmPostProcessing.TrimToTokenLimit | src/TokenizeSolution-V2-LLM/Program.cs:279-291 | the loop with its `currentTokens` accumulator returns the prefix of length `TrimmedLength` |
| LlmPostProcessing.TrimmedLengthCharacterised | src/TokenizeSolution-V2-LLM/Program.cs:284-288 | the kept length is the one n where every earlier file was admitted and, before the end, file n was not |
| LlmPostProcessing.TrimKeepsFirst | src/TokenizeSolution-V2-LLM/Program.cs:284 | a nonempty input keeps at least one file, however large |
| LlmPostProcessing.TrimWithinBudget | src/TokenizeSolution-V2-LLM/Program.cs:284-288 | when two or more files are kept, their estimates sum to at most the budget |
| LlmPostProcessing.TrimStopsAtOverflow | src/TokenizeSolution-V2-LLM/Program.cs:284-288 | when the trim stops early, the next file would exceed the budget |
| LlmPostProcessing.TrimMonotone | src/TokenizeSolution-V2-LLM/Program.cs:284 | raising the budget never keeps fewer files |
| LlmPostProcessing.TrimKeepsAllWithinBudget | src/TokenizeSolution-V2-LLM/Program.cs:284-288 | when all estimates are non-negative and fit the budget, everything is kept |
| LlmPostProcessing.TrimKeepsHighestPriority | src/TokenizeSolution-V2-LLM/Program.cs:201-202 | after prioritising and trimming, every kept file precedes every dropped one in priority |
| Text.Utf16Length | src/TokenizeSolution-V2-LLM/Program.cs:296 | `string.Length`: between the number of characters and twice it, and equal to it exactly when no character lies outside the Basic Multilingual Plane |
| Text.Utf16LengthAppend | src/TokenizeSolution-V2-LLM/Program.cs:296 | the length of a concatenation is the sum of the lengths |
| Text.UnionIgnoreCase | src/TokenizeSolution/Program.cs:124-125 | `UnionWith` on an ignore-case `HashSet`: keeps every stored name, adds only names absent in every spelling, holds ignoring case exactly the names of both sets, and keeps a set free of case variants free of them |
| Text.UnionIgnoreCaseSpelling | src/TokenizeSolution/Program.cs:124-125 | a new name is stored in its own spelling, and a case variant of a stored name is not stored |
| Text.UnionIgnoreCaseOfKnownName | src/TokenizeSolution/Program.cs:124-125 | adding a name already present in some spelling leaves the set unchanged |
| Text.UnionIgnoreCaseMonotone | src/TokenizeSolution/Program.cs:124-125 | adding more names never stores fewer |
| Sorting.SortBy | src/TokenizeSolution-V2-LLM/Program.cs:255-260 | the sorted sequence is a permutation of the input |
| Sorting.SortBySorted | src/TokenizeSolution-V2-LLM/Program.cs:255-260 | under a total preorder, the result is sorted |
| DirectoryLayout.IconOfLowerCase | src/DirectoryLayout/Program.cs:239-261 | every extension has a nonempty icon, and unlisted ones get the page icon |
| DirectoryLayout.GetFileIcon | src/DirectoryLayout/Program.cs:239-261 | total; an extension whose lower case is unlisted gets the page icon |
| DirectoryLayout.FileIconIgnoresCase | src/DirectoryLayout/Program.cs:239-261 | the icon does not depend on the extension's case |
| DirectoryLayout.SortedDirectories | src/DirectoryLayout/Program.cs:132 | the visit order is a permutation of the subdirectories |
| DirectoryLayout.NameOrderIsPathOrder | src/DirectoryLayout/Program.cs:132 | siblings share a parent path, so ordering them by path is ordering them by name |
| DirectoryLayout.GenerateDirectoryLayout | src/DirectoryLayout/Program.cs:121-163 | the recursive method leaves the lines appended before and adds exactly the directory's layout lines |
| DirectoryLayout.LayoutContents | src/DirectoryLayout/Program.cs:121-163 | a directory's layout holds the line of every subdirectory that is not skipped together with that subdirectory's whole subtree, the line of every file that is not skipped, and nothing else; a subtree's lines are indented two spaces deeper |
| DirectoryLayout.DirectoryLinesEntries | src/DirectoryLayout/Program.cs:132-146 | a line is written for the subdirectories exactly when it belongs to one subdirectory's entry: its folder line followed by its subtree two spaces deeper when it is not skipped, nothing when it is |
| DirectoryLayout.GenerateLayout | src/DirectoryLayout/Program.cs:99-119 | the output is `Project Structure:` followed by the root's entries at no indent, under the ignore sets built by the ignore-case `UnionWith` |
| DirectoryLayout.FileLines | src/DirectoryLayout/Program.cs:148-162 | at most one line per file |
| DirectoryLayout.FileLinesContents | src/DirectoryLayout/Program.cs:148-162 | every file the renderer keeps has its icon line, and every line is the icon line of a kept file |
| DirectoryLayout.LayoutIndented | src/DirectoryLayout/Program.cs:141-161 | every line of a directory's layout extends that directory's indent |
| DirectoryLayout.LayoutShrinks | src/DirectoryLayout/Program.cs:137-158 | a renderer that skips more produces only lines the other one produces |
| DirectoryLayout.MoreIgnoresHideMore | src/DirectoryLayout/Program.cs:106-110 | larger user ignore sets give a renderer that skips more, although the ignore-case union may store fewer spellings |
| DirectoryLayout.BuildRuleKeepsDirectoryLine | src/DirectoryLayout/Program.cs:135-157 | with the rule `build/`, a top-level `build` directory is still listed but none of its files are |
| DirectoryLayout.BuildRendererDecisions | src/DirectoryLayout/Program.cs:135-157 | the `build/` rule keeps the path `build` and skips every file directly inside it |

## Left out

- File-system access is left out: enumerating directories and files, reading text, `File.Exists` for `.gitignore`, and writing the output file. Paths, line lists, file contents and the directory tree are inputs.
- Concurrency (`Parallel.ForEach`, `Channel`, `Task`, `lock`) is left out. The per-file test and the per-file record are modelled as if run one at a time, and the channel's arrival order is not modelled.
- The .NET regular-expression engine is not modelled. The pipeline receives it as `isMatch`. The token meaning covers plain rules only: it does not cover rules with an escaped character directly before `*` or `/`, or the `#` and white-space escapes inside them.
- The comment-stripping regular expressions are the three functions of a `CommentStrippers` value. Idempotence is therefore only stated for extensions without a stripper.
- Culture-sensitive ordering is replaced by ordinal order (`LexLe`). This applies to `OrderBy` on paths in all programs and to `ThenBy(f => f.Path)`. Culture-sensitive `EndsWith` is replaced by ordinal comparison.
- Case folding is ASCII only; ToLowerInvariant of non-ASCII letters is not modelled.
- The user's `--ignore-dir` and `--ignore-file` sets are inputs, taken as `Main` builds them: an ignore-case `HashSet`, so one spelling per name. `UnionWith` keeps the first spelling it meets, and the model's union adds every new name of the user's set; the two agree on such sets. `Main`'s argument loop itself is not modelled.
- `Path.GetRelativePath`, `GetFileName` and `GetExtension` assume `/` as the only separator and a root without a trailing `/`.
- LlmPostProcessing.TrimToTokenLimit: does not model the 32-bit wrap-around of `currentTokens + file.TokenEstimate`, because integers are unbounded here.
- LlmPostProcessing.PrioritizeFilesForLlm: the contract says nothing about stability. The insertion sort is not proved to keep the input order of files with equal keys, which `OrderBy` does; equal keys only arise for duplicate paths.
- Regex details are abstracted. `IsBlazorSpecificExclusion` reads the minified and generated-name regexes as "the lower-cased name ends with the suffix, or with it followed by a final line feed". This is what `$` allows.
- The program entry points and output formatting are out of scope: `Main`, argument parsing, `ShowHelp`, console messages and timing. So are `WriteOptimizedOutputAsync` and its three output formats, `AnalyzeProjectStructure`, `BuildDirectoryMap`, `DetectBlazorProject`, `ExtractPackageReferences` and the `ProjectStructure` record.
- The `StringBuilder` of DirectoryLayout is the list of lines appended so far, not one text with line terminators.

## Findings

| source | as written | input that shows it | evidently intended | confidence | as-written member | corrected member |
|---|---|---|---|---|---|---|
| src/TokenizeSolution/Program.cs:372-375 | a rule starting with `/` becomes `^` followed by the escaped rule, leading `/` included, but it is matched against relative paths, which never start with `/` (line 195) | rule `/build/` and path `build/x.cs`: the regex is `^/build/.*` and does not match | the leading `/` anchors the rule at the root, so `/build/` excludes `build/x.cs` but not `src/build/x.cs` | not executed | Gitignore.AnchoredBuildRuleExcludesNothing | Gitignore.RootedBuildRule |
| TokenizeSolution/Program.cs:198-200 | the separator is chosen from the first raw line of the file, even when that line is blank | content `"\n<a>\n<b>"` compacts to `"<a>\n<b>"`, which compacts to `"<a><b>"` | choose the separator from the first kept line, as src/TokenizeSolution does, which makes compaction idempotent | not executed | Compaction.LeadingBlankLineCounterexample | Compaction.CompactLinesIdempotent |
