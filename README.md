# Solidity flattener of the Hardhat configuration

This project models the `flat` utility at the bottom of `hardhat.config.ts`
and proves its properties. The utility turns the dependency graph that
Hardhat's resolver builds into one Solidity text in four steps:

- It orders the resolved files so that every file comes after the files it imports (`getSortedFiles`).
- It removes the `import` statements from each file and trims what remains (`getFileWithoutImports`).
- It concatenates one `// File <versioned name>` block per file.
- It rewrites the result: it defangs every `SPDX-License-Identifier:`, prepends one combined `// SPDX-License-Identifier: MIXED` header, keeps only the first `pragma experimental ABIEncoderV2;` line, and trims.

The project has five modules.

- `Sequences` (`sequences.dfy`) models the parts of JavaScript arrays that the utility uses:
  - distinctness;
  - the position of an element;
  - `[...new Set(xs)]`, as first-occurrence deduplication.
- `Text` (`text.dfy`) models three kinds of string operation:
  - ECMAScript white space and `String.prototype.trim`;
  - a global replace of a literal pattern, which scans from the left and takes non-overlapping occurrences (`Split`/`Join`/`ReplaceAll`);
  - the keep-first rewrite (`KeepFirst`).
- `ImportPattern` (`imports.dfy`) encodes the multiline expression `^\s*import(\s+)[\s\S]*?;\s*$` as a backtracking engine evaluates it from a start position. `^` holds at the start of the text and after a line terminator, and `$` at the end of the text and before a line terminator. Both `\s*` are greedy and the lazy `[\s\S]*?` may cross lines. The global replace resumes after each match.
- `TopologicalSort` (`tsort.dfy`) models the `tsort` graph as a class. Its fields are the nodes, in order of first insertion, and the edge set. `Add` mutates the graph in place. `Sort` is a verified Kahn-style sort that fails exactly when the edges form a cycle.
- `Flattener` (`flattener.dfy`) models the rest of the utility:
  - The file records and the dependency graph, whose files and entries are kept in iteration order.
  - `GetSortedFiles` is a method. Like the source, it fills `filesMap`, adds the edges to the graph in two nested loops, sorts, appends all resolved names, deduplicates and looks up.
  - The block loop with its `isFirst` flag (`ConcatenateBlocks`).
  - The pragma rewrite as a loop with the callback's counter (`RemoveRepeated`), proved equal to `KeepFirst`.
  - The whole action (`GetFlattenedSources`).

The resolver's output is the model's input, a `DependencyGraph` value. The
predicate `WellFormed` states the resolver's guarantee: every file that an
entry mentions is a resolved file. `IsSortedFiles` specifies the result of
`getSortedFiles`. It is the dedup-and-lookup of any topological order of the
edges, followed by all resolved names.

## Model

| member | source | states |
|---|---|---|
| Flattener.GetSortedFiles | hardhat.config.ts:322-344 | fails exactly when the dependency edges contain a cycle; otherwise returns the files of some topological order of the edges followed by every resolved name, deduplicated and looked up in `filesMap` |
| Flattener.IsSortedFiles | hardhat.config.ts:336-343 | definition of the result of `getSortedFiles`: the `filesMap` lookup of `[...new Set(t.concat(names))]` for some topological order `t`; its consequences are stated by `SortedFilesExactlyOnce`, `SortedFilesRespectEdges`, `SortedFilesIsolatedLast` and `SortedFilesIsolatedInResolvedOrder` |
| Flattener.Names | hardhat.config.ts:340 | definition of `resolvedFiles.map((f) => f.sourceName)`, used by `IsSortedFiles` and `FilesMapOf` |
| Flattener.Lookup | hardhat.config.ts:343 | definition of `sortedNames.map((n) => filesMap[n])`; `NamesOfLookup` and `LookupExactlyOnce` state what it yields |
| Flattener.MapFiles | hardhat.config.ts:326-328 | after the `forEach`, `filesMap` is `FilesMapOf(resolvedFiles)`: it maps each resolved source name to the last file with that name |
| Flattener.FilesMapOf | hardhat.config.ts:328 | the keys of `filesMap` are exactly the resolved source names, and each key maps to a resolved file with that name |
| Flattener.FilesMapOfDistinct | hardhat.config.ts:328 | when source names are distinct, `filesMap` maps the name of every resolved file back to that file |
| Flattener.DepEdges | hardhat.config.ts:331-333 | definition of the edges `graph.add(to.sourceName, from.sourceName)` receives for one entry: one `(dependency, file)` pair per dependency |
| Flattener.EdgesOf | hardhat.config.ts:330-334 | definition of the edges of the whole graph, entry by entry; characterized by `EdgesOfIff` |
| Flattener.AddEdges | hardhat.config.ts:330-334 | after the nested loops the graph is consistent and its edges are exactly `EdgesOf(entries)` |
| Flattener.EdgesOfIff | hardhat.config.ts:330-334 | an edge is in the graph if and only if it is `(dependency, file)` for some entry and one of its dependencies |
| TopologicalSort.SortGraph.Add | hardhat.config.ts:332 | adds the edge, appends each endpoint not yet present, in first-insertion order, and keeps the nodes distinct and equal to the edge endpoints |
| TopologicalSort.SortGraph.constructor | hardhat.config.ts:324 | `tsort()` creates a consistent graph with no nodes and no edges |
| TopologicalSort.SortGraph.Sort | hardhat.config.ts:336 | on success, the result lists every node once with every edge pointing forward; it fails if and only if the edges contain a cycle |
| TopologicalSort.TopoOrderMeansNoCycle | hardhat.config.ts:336 | a graph that has a topological order has no cycle |
| TopologicalSort.UnplaceableNodesCloseACycle | hardhat.config.ts:336 | if every node of a non-empty set has a predecessor inside the set, the edges contain a cycle |
| Sequences.DedupFrom | hardhat.config.ts:342 | the elements not yet in the set, without duplicates, each listed once, in the order of their first occurrence |
| Sequences.Dedup | hardhat.config.ts:342 | `[...new Set(xs)]` has no duplicates, holds exactly the elements of `xs`, and lists them in the order of their first occurrence in `xs` |
| Sequences.DedupKeepsDistinctPrefix | hardhat.config.ts:340-342 | deduplicating `t.concat(u)` for a duplicate-free `t` gives `t` itself, followed by the elements of `u` that are not in `t` |
| Flattener.SortedFilesExactlyOnce | hardhat.config.ts:340-343 | when source names are distinct, the sorted files contain every resolved file exactly once and nothing else |
| Flattener.SortedFilesRespectEdges | hardhat.config.ts:330-342 | for every dependency edge, the dependency comes before the file that imports it in the sorted files |
| Flattener.SortedFilesIsolatedLast | hardhat.config.ts:338-342 | every file that some edge mentions comes before every file that no edge mentions |
| Flattener.SortedFilesIsolatedInResolvedOrder | hardhat.config.ts:340-342 | the files that no edge mentions keep the order of their first appearance among the resolved files |
| Text.IsSpace | hardhat.config.ts:347-349 | definition of `\s` and of the set `trim` removes: the ECMAScript WhiteSpace and LineTerminator code points |
| Text.IsLineTerminator | hardhat.config.ts:347 | definition of the ECMAScript LineTerminator code points: line feed, carriage return, U+2028 and U+2029 |
| ImportPattern.AtLineStart | hardhat.config.ts:347 | definition of `^` under the `m` flag: at the start of the text or right after a line terminator |
| ImportPattern.AtLineEnd | hardhat.config.ts:347 | definition of `$` under the `m` flag: at the end of the text or right before a line terminator |
| ImportPattern.IsImportSpan | hardhat.config.ts:347 | reference definition of an import statement: white space, `import`, at least one white-space character, anything, `;`, then only white space; `ImportMatchShape`, `ImportSpanIsMatched`, `ImportMatchIff` and `IsFirstSpan` are stated against it |
| ImportPattern.SkipSpaces | hardhat.config.ts:347 | a greedy `\s` run: only white space is skipped, and it stops at the end of the text or at a non-space |
| ImportPattern.LastLineEnd | hardhat.config.ts:347 | the greedy `\s*` before `$` stops at the last position in range where `$` holds, or fails when `$` holds nowhere in range |
| ImportPattern.FindSemicolon | hardhat.config.ts:347 | the lazy `[\s\S]*?` stops at the first `;` after which `\s*$` matches, or fails when `\s*$` matches after no `;` |
| ImportPattern.SemicolonEnd | hardhat.config.ts:347 | the tail `;\s*$` with its `;` at a given position: it matches only on a `;`, and then ends at a line end after only white space |
| ImportPattern.MatchAt | hardhat.config.ts:347 | definition of the expression tried at one start position; a match ends after its start and within the text; whether it matches is characterized by `ImportMatchIff`, and where it ends by `MatchEndsAtFirstSemicolon` |
| ImportPattern.ImportMatchShape | hardhat.config.ts:347 | every match begins at a line start and ends at a line end, and reads white space, `import`, at least one white-space character, anything, `;`, then only white space |
| ImportPattern.ImportSpanIsMatched | hardhat.config.ts:347 | conversely, an import statement of that shape that begins at a line start and ends at a line end is matched |
| ImportPattern.ImportMatchIff | hardhat.config.ts:347 | the expression matches at a position if and only if an import statement of that shape begins there at a line start and ends at a line end |
| ImportPattern.IsFirstSpan | hardhat.config.ts:347 | definition of the span the expression takes among all import-shaped spans from a position that end at a line end: none has an earlier `;`, and none with the same `;` ends later |
| ImportPattern.MatchEndsAtFirstSemicolon | hardhat.config.ts:347 | a match ends as the lazy `[\s\S]*?` and the greedy `\s*` decide: at the first `;` followed by white space up to a line end, and at the last line end of that white space |
| ImportPattern.RemoveImportsFrom | hardhat.config.ts:349 | definition of the global replace by the empty string from a scan position; characterized by `RemoveImportsCharacterized` |
| ImportPattern.Matches | hardhat.config.ts:347 | definition of the table of `MatchAt` results at every start position of the text |
| ImportPattern.IsScan | hardhat.config.ts:349 | definition of the matches a global replace takes: each at the first matching position at or after the previous end, and no match after the last |
| ImportPattern.Gaps | hardhat.config.ts:349 | definition of the text between the matches of a scan, in order |
| ImportPattern.ScanUnique | hardhat.config.ts:349 | the matches a scan takes are determined by the text: two scans from the same position are equal |
| ImportPattern.RemoveImportsScan | hardhat.config.ts:349 | from every scan position, the replace deletes exactly the matches of the scan and keeps the text between them |
| ImportPattern.RemoveImportsCharacterized | hardhat.config.ts:349 | the import removal deletes exactly the matches of the left-to-right scan and keeps all other text, in order |
| ImportPattern.RemoveImportsKeepsOrder | hardhat.config.ts:347-349 | the text left after the removal is a subsequence of the original: what is kept keeps its relative order |
| ImportPattern.StripImports | hardhat.config.ts:346-350 | definition of `getFileWithoutImports`: the removal, then `trim`; characterized by `RemoveImportsCharacterized` and `StripImportsHasNoOuterSpace` |
| ImportPattern.StripWithoutMatchOnlyTrims | hardhat.config.ts:346-350 | a text in which the pattern matches nowhere is only trimmed |
| ImportPattern.StripImportsHasNoOuterSpace | hardhat.config.ts:349 | the stripped text neither begins nor ends with white space |
| ImportPattern.SampleStripped | hardhat.config.ts:346-350 | an import line followed by a contract declaration strips to exactly the declaration |
| Text.TrimStart | hardhat.config.ts:349 | the result is a suffix of the text, only white space is cut in front of it, and it does not begin with white space |
| Text.TrimEnd | hardhat.config.ts:349 | the result is a prefix of the text, only white space is cut after it, and it does not end with white space |
| Text.Trim | hardhat.config.ts:386 | definition of `String.prototype.trim` as `trimEnd` after `trimStart`; characterized by `TrimHasNoOuterSpace` and `TrimCutsOnlySpace` |
| Text.TrimHasNoOuterSpace | hardhat.config.ts:386 | the trimmed text neither begins nor ends with white space |
| Text.TrimCutsOnlySpace | hardhat.config.ts:386 | the trimmed text is the original with a white-space prefix and a white-space suffix removed |
| Flattener.PieceOf | hardhat.config.ts:372-373 | definition of what the loop uses of a file: `file.getVersionedName()` and `getFileWithoutImports(file)` |
| Flattener.Block | hardhat.config.ts:372-373 | definition of the two template strings appended for one file, `// File <name>\n` and `<stripped>\n`; their placement is stated by `BlockLayout` |
| Flattener.Blocks | hardhat.config.ts:367-376 | definition of the text the loop builds; its layout is stated by `BlockLayout` |
| Flattener.ConcatenateBlocks | hardhat.config.ts:367-376 | the loop with the `isFirst` flag builds exactly `Blocks` of the files' headings and stripped texts, with one newline before every block but the first |
| Flattener.BlockLayout | hardhat.config.ts:367-376 | each file's block `// File <name>\n<stripped>\n` sits at its offset, followed by exactly one `\n` before the next block, and the text ends right after the last block |
| Flattener.BlocksInOrder | hardhat.config.ts:368-376 | block `i` ends before block `j` begins whenever `i < j` |
| Flattener.DependencyBlockFirst | hardhat.config.ts:330-376 | in the concatenated text, the block of every dependency ends before the block of the file that imports it begins |
| Text.Split | hardhat.config.ts:379 | definition of the pieces between the occurrences a left-to-right, non-overlapping scan takes; `SplitJoin`, `SplitPiecesFree` and `SplitOnceIff` state what the pieces add up to, but not which of several cuts the scan picks for a self-overlapping pattern |
| Text.ReplaceAll | hardhat.config.ts:379 | definition of the global literal replace; characterized by `ReplaceAllCharacterized` |
| Text.SplitJoin | hardhat.config.ts:379 | joining the pieces of the left-to-right split with the pattern gives back the text |
| Text.SplitPiecesFree | hardhat.config.ts:379 | no piece of the split contains the pattern: the scan took every occurrence |
| Text.SplitOnceIff | hardhat.config.ts:379 | the split has exactly one piece if and only if the pattern does not occur |
| Text.ReplaceAllCharacterized | hardhat.config.ts:379 | the replace cuts the text at occurrences into pieces free of the marker and puts the replacement in place of each occurrence |
| Text.NoOccurrenceUnchanged | hardhat.config.ts:379 | a text that does not contain the pattern passes unchanged through both the replace and keep-first |
| Text.KeepFirst | hardhat.config.ts:384 | definition of keep-first; characterized by `KeepFirstCharacterized`, `KeepFirstLength` and `KeepFirstUnchangedIff` |
| Text.KeepFirstCharacterized | hardhat.config.ts:384 | with the same cut, the first occurrence stays in place, every later one is deleted and the pieces in between are unchanged |
| Text.KeepFirstLength | hardhat.config.ts:384 | when the scan takes `n >= 1` occurrences of the pattern, keep-first shortens the text by exactly `n - 1` copies of it |
| Text.KeepFirstUnchangedIff | hardhat.config.ts:384 | keep-first leaves the text unchanged if and only if the scan takes at most one occurrence of the pattern |
| Text.SelfOverlapFree | hardhat.config.ts:379-384 | definition of a pattern no two of whose occurrences can overlap: no proper non-empty prefix of it is also a suffix |
| Text.LastCharOnceNoOverlap | hardhat.config.ts:379-384 | a pattern whose last character occurs nowhere else in it cannot overlap itself |
| Flattener.MarkersDoNotOverlapThemselves | hardhat.config.ts:379-384 | neither `SPDX-License-Identifier:` nor the pragma line has a proper prefix that is also a suffix, so no two of their occurrences can overlap |
| Text.CutIsUnique | hardhat.config.ts:379-384 | for a pattern that cannot overlap itself, every cut of the text at occurrences into pattern-free pieces is the split itself |
| Flattener.MarkerCutIsUnique | hardhat.config.ts:379-384 | for the SPDX marker and the pragma line, the cut promised by `ReplaceAllCharacterized` and `KeepFirstCharacterized` is unique: it is the split the rewrite uses |
| Flattener.CountingReplace | hardhat.config.ts:384 | definition of the replace with the counting callback, with `first` standing for the counter being zero; stated equal to keep-first by `CountingReplaceIsKeepFirst` |
| Flattener.CountingReplaceIsKeepFirst | hardhat.config.ts:384 | the callback replace with the counter still zero is keep-first; once the counter is past zero, it deletes every later match |
| Flattener.RemoveRepeated | hardhat.config.ts:384 | the loop that threads the callback's counter through the scan returns keep-first of the text |
| Flattener.Assemble | hardhat.config.ts:378-386 | definition of the three rewrites and the trim applied to the blocks; `OutputBeginsWithLicenseHeader` states how its output begins |
| Flattener.OutputBeginsWithLicenseHeader | hardhat.config.ts:379-386 | after the rewrites and the trim, the output for at least one file begins with `// SPDX-License-Identifier: MIXED` and a blank line |
| Flattener.SortedFilesNonEmpty | hardhat.config.ts:340-343 | a graph with resolved files yields a non-empty list of sorted files |
| Flattener.GetFlattenedSources | hardhat.config.ts:359-392 | returns `""` for no resolved files; otherwise fails exactly on a cycle, and on success returns the assembled text of some sorted file list, beginning with the combined license header |

## Left out

- The configuration object literal and the plugin imports hold data without behaviour.
- `removeConsoleLog` in the preprocessing settings is a call into a library.
- The `flat:get-dependency-graph` subtask and the `flat` task registration are left out. They call the compiler's resolver and the file system. The resolver's output is the model's input `DependencyGraph`.
- `fs.writeFileSync`, the branch that writes the output file and returns `""`, and the `console.log` calls are I/O.
- `async`/`await` around `run` is left out: nothing runs concurrently.
- TopologicalSort.SortGraph.Sort: the internals of the `tsort` package are not part of this model. The own sort has the same contract: every node once, every edge forward, and an error exactly on a cycle. The particular order that `tsort` picks among valid orders may differ. So `IsSortedFiles` admits any topological order, not the one `tsort` returns.
- Flattener.GetSortedFiles: requires `WellFormed`, the resolver's guarantee that every entry names a resolved file. When it does not hold, the source looks up `undefined` and fails later. That failure is not modelled.
- Flattener.SortedFilesExactlyOnce: requires distinct source names. With a repeated name, `filesMap` keeps only the last file of that name, and the model's `FilesMapOf` does the same.
- Text.ReplaceAllCharacterized: the defanging property is stated on the occurrences in the original text. The replacement can re-form the marker, as in `SPDX-SPDX-License-Identifier:`, so the output is not claimed to be free of it.
- Text.KeepFirstCharacterized: deletions can re-form the pragma. The property is likewise stated on the occurrences in the text being rewritten.
- Strings are sequences of Unicode scalar values, not the UTF-16 code units of JavaScript strings. Surrogate pairs are not modelled; none of the patterns or white-space characters involved lies outside the Basic Multilingual Plane.
- JavaScript regular-expression semantics beyond the import pattern are not modelled. The SPDX and pragma expressions contain only literal characters, so they are modelled as literal-substring replacement.
