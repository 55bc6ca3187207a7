# Recharts tree-shaking analysis, modelled in Dafny

This project models the tree-shaking analysis scripts of the recharts repository:

- **Bundle measurement and symbol detection** (`scripts/treeshaking.ts`, module `Treeshaking`). This covers:
  - the synthetic entry source;
  - the externals list and the directory-index resolver;
  - the UTF-8 bundle size, which ignores assets;
  - the chunk-code concatenation;
  - the literal-pattern component detector;
  - unit selection for sizes and the reduction percentage;
  - the four-stage size report;
  - the merge of captured import edges with per-module rendered lengths.
- **Import-path tracing** (`scripts/trace-bundle.ts`, module `TraceBundle`). This covers:
  - the breadth-first search for shortest import paths over a possibly cyclic module graph;
  - the node table and the entry-node choice;
  - case-insensitive target matching;
  - the per-target report loop and the closing dynamic-import hint.
- **Bundle size tree** (`scripts/generate-bundle-data.ts`, module `BundleData`). This covers:
  - `insertModule`, `sortTree` and `countLeaves`;
  - the loop that files every rendered module under its path segments and totals the root.

Three support modules sit under these:

- `Strings` models the JavaScript string operations the scripts use: `includes`, `startsWith`, `join`, `split`, ASCII `toLowerCase` and `Buffer.byteLength`.
- `Paths` models the package-root stripping and Node's POSIX `path.basename`.
- `Wrappers` provides `Option` and `Result`.

Rollup, terser and gzip are parameters of the model:

- The build output is a sequence of `Artifact` values, each a chunk with its code and module table, or an asset.
- terser is a function returning `None` when it yields no code.
- gzip is a function from text to a compressed length.

The imperative parts are methods with loop invariants, each proved against a specification function:

- `FormatBundleSize`'s division loop;
- the rendered-length table in `GetModuleGraph`;
- the path queue of `FindShortestPaths`;
- the per-target loop of `TraceTargets`;
- the chunk/module loops of `BuildTree` and `FileChunkModules`.

`FindShortestPaths` terminates because each step lexicographically decreases (26 − length of the shortest queued path, number of queued paths of that length). The queue stays sorted by length and its lengths span at most one.

The doc comment of `findShortestPaths` (scripts/trace-bundle.ts:45-48) says it returns up to maxResults shortest paths. The code, which the model follows, behaves as follows:

- A path of 25 ids that has not reached the target is dropped, and the search goes on with the rest of the queue.
- Returned paths come out in non-decreasing length, and only the first is guaranteed to be shortest.
- When fewer than maxResults paths come back, they are every import path of at most 25 ids.

## Model

| member | source | states |
|---|---|---|
| Treeshaking.EntrySource | scripts/treeshaking.ts:36-38 | The entry text: an import of the names joined by ", " from the ES6 entry and a re-export of the same list as `used`; its properties are stated by the next two rows |
| Treeshaking.EntrySourceImportsExactly | scripts/treeshaking.ts:36-39 | The entry text starts with "import { " and the name list, and ends with the same list and " };"; splitting that list at ", " gives back exactly the requested names in order |
| Treeshaking.SingleNameIsOneElementList | scripts/treeshaking.ts:37 | A single name produces the same entry as the one-element list holding it |
| Treeshaking.GetExternals | scripts/treeshaking.ts:12-18 | The `external` option: each dependency and peer dependency as an exact id, the shim sub-path, and the two prefix patterns; which ids it claims is stated by ExternalsExactly |
| Treeshaking.ExternalsExactly | scripts/treeshaking.ts:12-18 | An id is external iff it is a dependency or peer dependency, the shim sub-path, or starts with "victory-vendor" or "es-toolkit"; a missing dependency field means none |
| Treeshaking.ResolveDirectoryIndex | scripts/treeshaking.ts:20-34 | No importer or an id not starting with "." resolves to nothing; a result is the index.js path of the resolved directory, which exists, and that index path exists; conversely, a relative id with an importer whose resolved directory and index path both exist always resolves to that index path |
| Treeshaking.BundleSize | scripts/treeshaking.ts:158-165 | The `reduce` over the output adding each chunk's UTF-8 length; the next three rows state what it equals |
| Treeshaking.BundleSizeIsChunkTotal | scripts/treeshaking.ts:158-165 | The bundle size is the sum of the UTF-8 byte lengths of the chunk codes |
| Treeshaking.BundleSizeConcat | scripts/treeshaking.ts:158-165 | The size of a concatenated output is the sum of the parts' sizes (so the empty output has size 0) |
| Treeshaking.AssetsAreIgnored | scripts/treeshaking.ts:158-172 | Inserting an asset anywhere changes neither the bundle size nor the combined code |
| Treeshaking.CombinedChunkCode | scripts/treeshaking.ts:167-172 | The chunk codes in output order joined by newlines; its length and contents are stated by the next two rows |
| Treeshaking.CombinedCodeLength | scripts/treeshaking.ts:167-172 | The combined code's byte length is the chunk-byte total plus one newline between consecutive chunks |
| Treeshaking.ChunkCodeOccursInCombined | scripts/treeshaking.ts:167-172 | Every chunk's code occurs inside the combined code |
| Treeshaking.HasClassDeclarationIff | scripts/treeshaking.ts:282 | The `class N\s+{` test holds iff "class N" is followed by one or more JavaScript whitespace characters and then "{" |
| Treeshaking.DeclaresNameIff | scripts/treeshaking.ts:279-282 | The four regular-expression tests hold iff one of the four declaration shapes occurs in the code |
| Treeshaking.MatchComponentNamesInBundle | scripts/treeshaking.ts:275-286 | A name is reported iff it is a candidate and one of the four declaration shapes occurs for it |
| Treeshaking.PrefixOfLongerNameNotReported | scripts/treeshaking.ts:279-282 | A name whose every occurrence continues into a longer identifier (Bar inside BarChart) is never reported |
| Treeshaking.FindComponentsInBundle | scripts/treeshaking.ts:292-297 | The detector run over the combined chunk code; which names it reports is stated by MatchComponentNamesInBundle and DeclarationInChunkIsFound |
| Treeshaking.DeclarationInChunkIsFound | scripts/treeshaking.ts:292-297 | A candidate declared in any one chunk is found by the detection over the combined code |
| Treeshaking.SizeDisplayOf | scripts/treeshaking.ts:187-201 | The display in closed form: plain bytes below 1024, otherwise the largest unit up to TB that the size reaches; FormatBundleSize's loop is proved equal to it |
| Treeshaking.FormatBundleSize | scripts/treeshaking.ts:187-201 | The division loop yields plain bytes iff the size is below 1024, otherwise a value in [1, 1024) (or at least 1 in TB) times the unit's size, with the unit at most TB |
| Treeshaking.FormatExamples | scripts/treeshaking.ts:187-201 | 512 is shown in bytes, 1024 as 1 KB and 1024·1024 as 1 MB |
| Treeshaking.ReductionPercent | scripts/treeshaking.ts:203-209 | 0 for a baseline that is not positive, otherwise the removed share of the baseline in percent |
| Treeshaking.ReductionPercentAntitone | scripts/treeshaking.ts:203-209 | For a positive baseline the percentage strictly falls as the reduced size grows |
| Treeshaking.ReductionPercentSign | scripts/treeshaking.ts:203-209 | For a positive baseline: zero iff nothing was removed, positive iff the size shrank, at most 100 for a non-negative size |
| Treeshaking.ReductionExamples | scripts/treeshaking.ts:203-209 | (1000, 650) gives 35 and a zero baseline gives 0 |
| Treeshaking.GetBundleSizeReport | scripts/treeshaking.ts:223-273 | Fails iff the minifier yields no code; otherwise four stages in the fixed order, the first with reduction 0 and each with the reduction of its bytes against the folder size |
| Treeshaking.ReportStageSizes | scripts/treeshaking.ts:225-270 | The stages' bytes are the folder size, the chunk total, the minified code's UTF-8 length and its compressed length |
| Treeshaking.GzipReductionAtLeastMinified | scripts/treeshaking.ts:259-270 | When compression does not grow the minified code, the gzip stage reports at least the minified stage's reduction |
| Treeshaking.SmallerStagesReportPositiveReduction | scripts/treeshaking.ts:253-270 | A later stage smaller than a positive folder size reports a positive reduction |
| Treeshaking.LengthTableDomain | scripts/treeshaking.ts:135-142 | An id has a rendered length in the table iff some chunk module has that id |
| Treeshaking.LengthTableLastWins | scripts/treeshaking.ts:136-141 | The table keeps the length of the last entry with a given id (later chunks overwrite earlier ones) |
| Treeshaking.RenderedLengthAbsent | scripts/treeshaking.ts:148 | An id that no chunk lists gets rendered length 0 |
| Treeshaking.RenderedLengthLast | scripts/treeshaking.ts:135-148 | An id gets the rendered length of its last occurrence in the chunks |
| Treeshaking.RenderedLengths | scripts/treeshaking.ts:135-142 | The lookup built by the loops is the last-wins table of every chunk module's rendered length, in output order |
| Treeshaking.RecordChunkLengths | scripts/treeshaking.ts:138-140 | Recording one chunk's modules on top of a table extends that table by exactly those entries, in order |
| Treeshaking.GetModuleGraph | scripts/treeshaking.ts:135-149 | One node per captured module in capture order, edges passed through unchanged, rendered length looked up with default 0 |
| Strings.Contains | scripts/trace-bundle.ts:124 | `includes`: the first-occurrence search finds something; ContainsIff states its meaning |
| Strings.IndexOf | scripts/trace-bundle.ts:124 | The first index at which the pattern occurs, None iff it occurs nowhere (the search behind `includes`) |
| Strings.ContainsIff | scripts/trace-bundle.ts:124 | `includes` holds iff the pattern occurs at some index |
| Strings.Split | scripts/generate-bundle-data.ts:96 | At least one part, no part contains the separator, and joining the parts with the separator gives the string back |
| Strings.Join | scripts/treeshaking.ts:38 | `join`: the parts with the separator between consecutive ones, "" for no parts; Split and SplitJoin state its round trips |
| Strings.SplitJoin | scripts/treeshaking.ts:38 | Splitting a join gives back the parts when no part contains the separator's first character |
| Strings.ToLower | scripts/trace-bundle.ts:121-124 | Same length, every ASCII upper-case letter lowered and every other character kept |
| Strings.Utf8Length | scripts/treeshaking.ts:161 | `Buffer.byteLength` on UTF-8: the sum of each character's encoded width; the next two rows bound it |
| Strings.Utf8LengthConcat | scripts/treeshaking.ts:161 | The byte length of a concatenation is the sum of the byte lengths |
| Strings.Utf8LengthBounds | scripts/treeshaking.ts:161 | A string takes between one and four bytes per character |
| Paths.RelativePath | scripts/trace-bundle.ts:27-30 | An id under the root loses the root and one more character (the empty string when nothing is left); any other id is unchanged; the result is a suffix of the id |
| Paths.RelativePathRoundTrip | scripts/trace-bundle.ts:27-30 | For an id under root + "/", prefixing root + "/" to the result gives the id back |
| Paths.Basename | scripts/trace-bundle.ts:124 | The path equal to the extension gives ""; a base name that contains "/" is a tail of a path ending in a separator (Node keeps the trailing separators when the last segment runs out while matching the extension) |
| Paths.BasenameOfLastSegment | scripts/trace-bundle.ts:124 | For a path not ending in "/" (and not the extension itself) the base name is its last segment, with the extension removed exactly when the segment is longer than it and ends with it |
| Paths.BasenameKeepsTrailingSeparator | scripts/trace-bundle.ts:124 | basename("a/js/", ".js") is "js/" |
| Paths.BasenameDropsTrailingSeparator | scripts/trace-bundle.ts:124 | basename("a/x.js/", ".js") is "x" |
| TraceBundle.FindShortestPaths | scripts/trace-bundle.ts:50-82 | At most maxResults paths (none when maxResults is not positive); each has 1 to 25 ids, runs from start to end along import edges and repeats no id; lengths are non-decreasing; start = end gives [[start]]; when any such path exists and maxResults is at least 1, the first result is no longer than it; when fewer than maxResults paths are returned, every such path is among them |
| TraceBundle.EnqueueExtensions | scripts/trace-bundle.ts:74-78 | The queue afterwards is the old queue followed by the path extended by each imported id not already on it, in import order |
| TraceBundle.EndOnlyLast | scripts/trace-bundle.ts:64-67 | In an import path the end id occurs only in the last position |
| TraceBundle.NodeById | scripts/trace-bundle.ts:111 | Every graph id is a key, and each key maps to a graph node carrying that id |
| TraceBundle.FindEntryNode | scripts/trace-bundle.ts:114-118 | None iff no node is imported by nothing while importing something; otherwise the first such node |
| TraceBundle.MatchesTarget | scripts/trace-bundle.ts:121-125 | The filter's test: the lower-cased relative path contains the lower-cased pattern, or the lower-cased base name without ".js" equals it; TargetNodes and TargetMatchIsCaseInsensitive state its properties |
| TraceBundle.TargetNodes | scripts/trace-bundle.ts:121-125 | Exactly the graph nodes whose lower-cased relative path contains the lower-cased pattern or whose lower-cased base name without ".js" equals it |
| TraceBundle.TargetMatchIsCaseInsensitive | scripts/trace-bundle.ts:121-125 | Lower-casing the pattern does not change the match, and any exact substring of the relative path matches |
| TraceBundle.TraceTargets | scripts/trace-bundle.ts:139-176 | One trace per target: shaken away iff its rendered length is 0; "no path" only when no import path exists; otherwise 1 to 8 valid paths, the first shortest, and all import paths when fewer than 8; foundAny iff some trace has paths |
| TraceBundle.DynamicImportHintMeansNoStaticPath | scripts/trace-bundle.ts:178-181 | When the dynamic-import hint is printed, no target has any import path from the entry |
| BundleData.FindDir | scripts/generate-bundle-data.ts:48 | The index of the first child that has children and the given name, None iff there is none |
| BundleData.FindNamed | scripts/generate-bundle-data.ts:61 | The index of the first child with the given name, file or directory, None iff there is none |
| BundleData.Target | scripts/generate-bundle-data.ts:48-65 | The child the insertion updates: the first one named by the first segment (the first such directory when more segments follow), or a new one appended when there is none |
| BundleData.InsertInto | scripts/generate-bundle-data.ts:44-67 | Children keep their order, names and kinds; every child but the target is untouched, same-named siblings included; one child is appended exactly when there is no target, named by the first segment, a directory iff more segments follow; the children's value total grows by exactly the size |
| BundleData.InsertModule | scripts/generate-bundle-data.ts:44-67 | The node keeps its name and its own value and ends up with children; every child but the target is untouched and the children's total grows by the size |
| BundleData.InsertLeavesOthers | scripts/generate-bundle-data.ts:44-67 | At every depth, any lookup path that is not a prefix of the filed path reaches the same directory and the same entry as before |
| BundleData.InsertAddsAlongPath | scripts/generate-bundle-data.ts:44-67 | Every directory on the path and the file entry gain exactly the size, whether or not they existed before, and the file entry exists afterwards |
| BundleData.InsertExistingAddsNoNode | scripts/generate-bundle-data.ts:48-64 | Filing a path whose entry already exists adds no node |
| BundleData.InsertTwice | scripts/generate-bundle-data.ts:44-67 | Filing the same path twice creates no node the second time, and the entry carries both sizes |
| BundleData.InsertIntoKeepsTotals | scripts/generate-bundle-data.ts:44-67 | Every directory total stays exact, provided the file's path is not the path of an existing directory; the new directories are the ones on the path |
| BundleData.FileDirClashBreaksTotals | scripts/generate-bundle-data.ts:48-64 | If a file is filed at the path of an existing directory, the file lookup hits the directory and that directory's total becomes wrong |
| BundleData.AddModuleKeepsTotals | scripts/generate-bundle-data.ts:87-97 | One loop pass keeps every directory total exact (the root included, since its value grows by the same size) when the module's path is not a known directory path |
| BundleData.AddModule | scripts/generate-bundle-data.ts:87-97 | One pass of the inner loop: a module rendering nothing is skipped, otherwise the root grows by its size and the module is filed under its segments; AddModuleKeepsTotals states what it preserves |
| BundleData.AddModules | scripts/generate-bundle-data.ts:85-97 | The loop as a fold over the modules in order; AddModulesRootValue and AddModulesKeepsTotals state its properties |
| BundleData.AddModulesKeepsTotals | scripts/generate-bundle-data.ts:83-99 | If no module's file path is another module's directory path, every directory of the built tree holds exactly the sum of its children |
| BundleData.AddModulesRootValue | scripts/generate-bundle-data.ts:87-90 | The root value grows by the rendered length of every module, and modules that render nothing add nothing |
| BundleData.Segments | scripts/generate-bundle-data.ts:93-96 | At least one segment, none containing "/" |
| BundleData.SegmentsRoundTrip | scripts/generate-bundle-data.ts:93-96 | For an id under root + "/es6/", that prefix followed by the segments joined with "/" is the id again |
| BundleData.CountLeaves | scripts/generate-bundle-data.ts:35-38 | At least 1 for every node |
| BundleData.LeafTotal | scripts/generate-bundle-data.ts:37 | The children's leaf total is at least the number of children |
| BundleData.InsertDesc | scripts/generate-bundle-data.ts:31 | Inserting into a descending list gives a descending list holding exactly one more element |
| BundleData.SortDesc | scripts/generate-bundle-data.ts:31 | The result is in descending value order and is a permutation of the input |
| BundleData.SortDescKeepsTotals | scripts/generate-bundle-data.ts:31 | Sorting a children list keeps its (name, value) pairs, its value total and its leaf total |
| BundleData.SortTree | scripts/generate-bundle-data.ts:29-33 | Sorting keeps a node's name, value and kind, and a directory's number of children |
| BundleData.SortTreeSorts | scripts/generate-bundle-data.ts:29-33 | After sorting, every children list at every depth is in descending value order |
| BundleData.SortTreeKeepsLabels | scripts/generate-bundle-data.ts:29-33 | A sorted directory's children have the same (name, value) pairs as before, reordered |
| BundleData.SortTreePermutesChildren | scripts/generate-bundle-data.ts:29-33 | A sorted directory's children are exactly its old children, each sorted in turn, reordered (as multisets); applied at every level, sorting adds and loses no node |
| BundleData.SortTreeKeepsBranchTotals | scripts/generate-bundle-data.ts:29-33 | Sorting keeps every directory total exact |
| BundleData.SortTreeKeepsLeafCount | scripts/generate-bundle-data.ts:29-38 | Sorting does not change the leaf count |
| BundleData.RequestedComponents | scripts/generate-bundle-data.ts:75-76 | Never empty: the command-line names when there are any, otherwise every tracked component |
| BundleData.FileChunkModules | scripts/generate-bundle-data.ts:86-98 | The inner loop's tree equals filing the chunk's modules in order, skipping those that render nothing |
| BundleData.FileModule | scripts/generate-bundle-data.ts:89-97 | For a module that renders something, the root grows by its size and the module is filed under its segments, exactly one step of the fold |
| BundleData.BuildTree | scripts/generate-bundle-data.ts:83-99 | The tree after both loops equals filing every chunk module of the output in order, starting from an empty "recharts" root |
| BundleData.GenerateBundleData | scripts/generate-bundle-data.ts:75-109 | The written data holds the requested components, the supplied time stamp, a sorted "recharts" tree (descending at every depth) and a total that is the root's value and the sum of all rendered lengths; every directory total is exact when no file path is a directory path |

## Left out

- Running Rollup, terser and gzip (`treeshake`, `bundle.generate`, `minify`, `gzipSync`, the `buildEnd` hook that captures the import edges). These are foreign code. Their results are parameters: the output artifacts, the captured edges, a minifier returning `None` for no code, and a compressed-length function.
- File-system work: `getDirectorySizeInBytes` (its result is a parameter), writing and deleting the temporary entry file, reading package.json (its dependency lists are parameters), writing bundle-data.json, and the `fs.existsSync` checks of the scripts' `main` functions.
- The resolver's `path.resolve`/`path.dirname`. These are a parameter of `ResolveDirectoryIndex`, and the file system is an abstract set of directories and files.
- The temporary file's name, built from `Date.now()` and `Math.random()`. The entry's import path is a parameter.
- The clock: `generatedAt` in bundle-data.json is the parameter `now` of `GenerateBundleData`.
- Digit rendering with `toFixed(2)`, and the kB figures printed by the scripts:
  - `FormatBundleSize` returns the value and the unit it would print;
  - `ReductionPercent` is the exact percentage over reals, before rounding.
- Floating-point division: `FormatBundleSize` and `ReductionPercent` use exact real arithmetic.
- Command-line parsing, usage text, exit codes and console output, including the path-tree drawing and the module listing shown when no target matches.
- The regular-expression engine. Component names are inserted into the detector's patterns unescaped, and names are assumed free of regular-expression metacharacters (the tracked names are plain identifiers).
- Non-ASCII case mapping: `toLowerCase` is modelled on ASCII letters only.
- InsertModule: models `insertModule` on values, not as an in-place update of shared node objects. It is the same function of the tree, but the model does not capture aliasing between the `current` cursor and the tree.
- SortTree: models the in-place recursive `sortTree` on values. `SortDesc` is the stable sort the comparator describes, but stability itself (equal values keep their order) is not stated.
- Module tables are sequences of (id, rendered length) pairs rather than objects, so an id may repeat within one chunk. The model handles repeats like a later chunk overwriting an earlier one.
- The upload script, the visualisation app (whose `countLeaves` duplicates the one modelled here), the tests, the treeshaking-groups and known-issues tables, and the storybook story are not part of this model.
