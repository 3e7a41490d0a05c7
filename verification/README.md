# vscode-atest result model in Dafny

This project models the data core of the ATest VS Code extension:

- **The result tree.** Test results are kept in a tree addressed by code-path.
  - Items are inserted one at a time, along a dotted code-path or along a slash-separated file path.
  - Items are looked up by path.
  - `optimize` recounts the tree bottom-up and builds a failed-only index.
  - A flattening view collapses chains of single-child items for display.
- **The output set.** An older tree of test outputs whose counts are kept up to date on every `add`.
- **The xUnit handler.** It turns parsed `<testcase>` records into leaf records, walking suites in document order.
- **The Python scanner.** It finds the closest test class and test method around a cursor line.

Everything is modelled as immutable datatypes and pure functions. The only exception is the line scan, which is a method with a loop.

- **Children.** A JavaScript `Map<string, ResultTreeItem>` of children is an insertion-ordered `seq<Node>`. Each entry's key is the node's own `name`, because every insertion in the source keys the map by the inserted item's name. `Map.set` on a present key keeps that key's position (`ResultTree.Put`).
- **Parents.** Parent links are replaced by path context. A node is known by the path that leads to it, and `flattenedLabel` takes its ancestors as a parameter. This agrees with the source only for items whose parent chain follows their position in the tree (see "Left out").
- **Exceptions.** An operation that throws after it has already mutated the tree returns an `Outcome`: the tree as it stands plus the `Result`. This is what happens when `addChildRecursiveByPath` has created Generic nodes before a deeper `addChild` throws.

The files:

| file | module | models |
|---|---|---|
| `common.dfy` | `Common` | `Option`/`Result`, JavaScript truthiness, `split`/`join`, `trim`, `startsWith`, ASCII lower-casing, `indexOf`, `parseInt(s, 10)` |
| `result_tree.dfy` | `ResultTree` | items, child insertion, the path insertions, lookup, `pathArray`/`dottedPath`, `clearResults`, the running flag |
| `aggregation.dfy` | `ResultTreeAggregation` | `optimize`, `getAllFailedTestResultItems`, `getFailedByPathArray`, `containsFailed` |
| `flattening.dfy` | `ResultTreeFlattening` | `canBeFlattened`, `flattened`, `flattenedChildren`, `flattenedFailed`, `flattenedFailedChildren`, `flattenedLabel` |
| `output_set.dfy` | `OutputSets` | `SingleTestOutput` and `TestOutputSet` |
| `xunit.dfy` | `Xunit` | `XunitOutputHandler` over parsed records |
| `pyscan.dfy` | `PyScan` | `PythonFileParser.parse` over lines |

Behaviour of the code worth noting:

- `flattenedFailedChildren` maps `flattenedFailed` over the failed index, not `flattened`. For a flattenable item, `flattenedFailed` continues with `flattened` of its first *failed* child, and it throws when there is none.
- The file node's name is the part of the file name before the first `.`. Only one extension is stripped when the name has a single dot.
- File-path insertion returns an existing child of that name, of any kind, and leaves the tree unchanged. It does not always return a File node.
- A malformed `<testcase>` aborts the rest of the document. Records added before it stay added; no later valid record is added.
- Failure texts are joined with a fixed `#####` separator line, and no message line is put first.

## Model

| member | source | states |
|---|---|---|
| Common.JoinSplit | src/outputhandlers/XunitOutputHandler.ts:36 | joining the parts of `split(c)` with `c` gives back the original string |
| Common.SplitJoin | src/ResultTreeItem.ts:362-367 | splitting the join of one or more `c`-free parts on `c` gives back exactly those parts |
| Common.JoinLength | src/outputhandlers/XunitOutputHandler.ts:13-19 | a joined string is as long as its parts plus one separator between each neighbouring pair |
| Common.ParseIntOfRendering | src/outputhandlers/XunitOutputHandler.ts:48 | `parseInt(s, 10)` of a decimal rendering followed by a non-digit is the rendered number |
| Common.Split | src/outputhandlers/XunitOutputHandler.ts:36 | `split(c)` yields one more part than the string has `c`s, and no part contains `c` |
| Common.TrimStart | src/PythonFileParser.ts:23 | trimming the front leaves a suffix of the string that does not start with whitespace, and everything removed is whitespace |
| Common.TrimEnd | src/PythonFileParser.ts:23 | trimming the end leaves a prefix of the string that does not end with whitespace, and everything removed is whitespace |
| Common.Trim | src/PythonFileParser.ts:23 | no contract; the body is the model; see `TrimStart` and `TrimEnd`, which it composes |
| Common.ParseInt10 | src/outputhandlers/XunitOutputHandler.ts:48 | no contract; the body is the model; see `ParseIntOfRendering` |
| ResultTree.Child | src/ResultTreeItem.ts:280 | `children.get(k)` is defined exactly when `k` is a key, and then it is the entry named `k` |
| ResultTree.Put | src/ResultTreeItem.ts:255 | after `Map.set` the key leads to the new entry; the size grows only for a new key |
| ResultTree.PutNames | src/ResultTreeItem.ts:264 | `Map.set` keeps the key order and puts a new key last |
| ResultTree.PutOther | src/ResultTreeItem.ts:264 | `Map.set` leaves every other key's entry alone |
| ResultTree.PutKeepsUnique | src/ResultTreeItem.ts:255 | `Map.set` never creates a duplicate key |
| ResultTree.AddChild | src/ResultTreeItem.ts:248-257 | throws exactly on an empty name (nameless-item error) or a present key (duplicate error); otherwise only the children change, and they gain the item last under its name |
| ResultTree.AddChildKeepsOthers | src/ResultTreeItem.ts:255 | a successful `addChild` keeps the entry of every other key |
| ResultTree.AddChildIsPut | src/ResultTreeItem.ts:255 | a successful `addChild` is `Map.set` of the item |
| ResultTree.ChildOfUnique | src/ResultTreeItem.ts:280 | with unique keys, each entry is what its own key leads to |
| ResultTree.PutKeepsWellFormed | src/ResultTreeItem.ts:264 | `Map.set` of a named, well-formed item keeps a well-formed node well-formed |
| ResultTree.AddChildKeepsWellFormed | src/ResultTreeItem.ts:248-257 | a successful `addChild` of a well-formed item keeps keys unique and non-empty at every level |
| ResultTree.AddOrReplaceChild | src/ResultTreeItem.ts:259-270 | throws exactly on an empty name; returns true exactly when the key was present; the children become `Map.set` of the item |
| ResultTree.AddOrReplaceChildEntries | src/ResultTreeItem.ts:259-270 | afterwards the key leads to the item, every other key to its old entry, and a new key is added last |
| ResultTree.GetByPathArrayConcat | src/ResultTreeItem.ts:325-338 | looking up `p + q` is looking up `p`, then `q` from the node found; a miss on `p` is a miss |
| ResultTree.LookupCons | src/ResultTreeItem.ts:329-336 | a non-empty path misses when its first key is not a child and otherwise continues in that child |
| ResultTree.GetByPathArray | src/ResultTreeItem.ts:325-338 | no contract; the body is the model; see `LookupCons`, `LookupEdges`, `GetByPathArrayConcat` and `MissingSegmentMisses` |
| ResultTree.LookupEdges | src/ResultTreeItem.ts:325-367 | the empty segment path finds the node itself, and the empty dotted path finds nothing |
| ResultTree.MissingSegmentMisses | src/ResultTreeItem.ts:329-336 | once a segment is not a key of the node its prefix leads to, the whole lookup is undefined |
| ResultTree.DottedLookupAgreesWithArrayLookup | src/ResultTreeItem.ts:362-367 | with non-empty, dot-free segments, the dotted lookup finds what the segment lookup finds |
| ResultTree.GetByDottedPath | src/ResultTreeItem.ts:362-367 | no contract; the body is the model; see `DottedLookupAgreesWithArrayLookup` |
| ResultTree.ClosestExistingParentIsLongestExistingPrefix | src/ResultTreeItem.ts:340-360 | the closest existing parent path is the longest proper prefix of the path that exists; one segment more no longer exists |
| ResultTree.GetClosestExistingParentPathArray | src/ResultTreeItem.ts:340-360 | no contract; the body is the model; see `ClosestExistingParentIsLongestExistingPrefix` |
| ResultTree.Enter | src/ResultTreeItem.ts:279-288 | one step succeeds exactly when the key is present and reuse is allowed, or the key is new and non-empty; a new key gets a fresh Generic child appended |
| ResultTree.AddChildRecursiveByPath | src/ResultTreeItem.ts:272-291 | insertion changes only the children of the node it starts at |
| ResultTree.AddByPathSucceedsIff | src/ResultTreeItem.ts:272-291 | on a well-formed tree, insertion succeeds exactly when the item and every segment are named and, without `skipExisting`, the first segment is new |
| ResultTree.AddByPathThenLookup | src/ResultTreeItem.ts:272-291 | after a successful insertion, `getByPathArray(path + [item.name])` is the item |
| ResultTree.AddByPathCreatesGeneric | src/ResultTreeItem.ts:285-288 | every path prefix that did not exist before a successful insertion now leads to a Generic item named after its segment |
| ResultTree.AddByPathKeepsExisting | src/ResultTreeItem.ts:280-284 | every path prefix that existed before a successful insertion leads to the same item, with only its children changed |
| ResultTree.AddByPathFrame | src/ResultTreeItem.ts:272-291 | a lookup path that leaves the insertion path, or ends in another key at its end, finds what it found before |
| ResultTree.AddByPathKeepsWellFormed | src/ResultTreeItem.ts:272-291 | insertion keeps keys unique and non-empty, also when it throws midway |
| ResultTree.AddByFileSegments | src/ResultTreeItem.ts:293-318 | file-path insertion changes only the children of the node it starts at |
| ResultTree.EnterFolder | src/ResultTreeItem.ts:307-313 | a directory step reuses the existing child of that name, of any kind; otherwise it appends a new Folder, and it fails exactly when there is no such child and the name is empty |
| ResultTree.AddByFileCreatesFolder | src/ResultTreeItem.ts:306-316 | every directory prefix that did not exist before now leads to a new Folder named after its segment and located at the segments walked so far, provided those segments are non-empty, also when the insertion fails further down |
| ResultTree.AddByFileKeepsExisting | src/ResultTreeItem.ts:306-316 | every directory prefix that existed before leads to the same item afterwards, with only its children changed, also when the insertion fails further down |
| ResultTree.AddByFileSegmentsResult | src/ResultTreeItem.ts:293-323 | on a well-formed tree it succeeds exactly when every directory segment and the stem are non-empty; the returned item is found at the directories followed by the stem |
| ResultTree.AddByFileSegmentsReturns | src/ResultTreeItem.ts:294-305 | a node already at the directories and the stem is returned, with the tree unchanged; otherwise a new childless File item at the whole relative path is returned |
| ResultTree.AddChildRecursiveByFilePath | src/ResultTreeItem.ts:320-323 | no contract; the body is the model; see `AddByFileSegmentsResult` and `AddByFileSegmentsReturns` on the segments of the path split at `/` |
| ResultTree.PathArrayIsRootThenPath | src/ResultTreeItem.ts:219-230 | the path array of a node is the root's own name followed by the lookup path |
| ResultTree.DottedPathRoundTrip | src/ResultTreeItem.ts:232-234 | with dot-free names, the dotted path splits back into the root name and the path, and the split path without the root finds the node again |
| ResultTree.PathArray | src/ResultTreeItem.ts:219-230 | no contract; the body is the model; see `PathArrayIsRootThenPath` |
| ResultTree.DottedPath | src/ResultTreeItem.ts:232-234 | no contract; the body is the model; see `DottedPathRoundTrip` |
| ResultTree.ClearResults | src/ResultTreeItem.ts:107-115 | clears children, the failed index, counts, the failure and the optimized flag, sets the status to WaitingToStart, and keeps name, kind and the other data; no non-empty path finds anything afterwards |
| ResultTree.SetIsRunningTests | src/ResultTreeItem.ts:100-123 | setting the flag from any node changes only the root's running flag, and that node then reads back the new value |
| ResultTree.IsRunningTests | src/ResultTreeItem.ts:121-123 | no contract; the body is the model; see `SetIsRunningTests` |
| ResultTree.LookupDependsOnChildren | src/ResultTreeItem.ts:325-338 | two nodes with the same children answer every non-empty lookup the same |
| ResultTreeAggregation.FailedOnly | src/ResultTreeItem.ts:423-428 | the failed index is no longer than the children and holds only items with failures |
| ResultTreeAggregation.ChildOfFailedOnly | src/ResultTreeItem.ts:423-428 | with unique keys, a key leads into the failed index exactly when it leads to a child with failures, and then to that same child |
| ResultTreeFlattening.FailedOnlyElements | src/ResultTreeItem.ts:423-428 | every entry of the failed index is one of the children |
| ResultTreeAggregation.Optimize | src/ResultTreeItem.ts:410-436 | `optimize` sets the optimized flag and keeps name, kind, data and the key order |
| ResultTreeAggregation.OptimizeAggregates | src/ResultTreeItem.ts:410-436 | after `optimize` every node is optimized, counts its own test plus its children's, counts its children's failures plus its own, and indexes exactly its failed children |
| ResultTreeAggregation.AggregatedIsFixed | src/ResultTreeItem.ts:410-436 | `optimize` leaves an aggregated tree as it is, since everything is recomputed from scratch |
| ResultTreeAggregation.OptimizeIdempotent | src/ResultTreeItem.ts:410-436 | running `optimize` twice gives the same tree as running it once |
| ResultTreeAggregation.OptimizeAfterClear | src/ResultTreeItem.ts:107-115 | after `clearResults`, `optimize` counts only the node's own test, with no failure and an empty failed index |
| ResultTreeAggregation.OptimizeCountsSubtree | src/ResultTreeItem.ts:410-436 | after `optimize`, `testCount` is the number of Test items in the subtree and `failedTestCount` the number of failed ones |
| ResultTreeAggregation.AllFailedArePreorderFailures | src/ResultTreeItem.ts:391-404 | the collected failed tests are the failed Test items of the subtree in pre-order; their number is the optimized failed count, and every item is collected exactly when it is a failed test of the subtree |
| ResultTreeAggregation.GetAllFailedTestResultItems | src/ResultTreeItem.ts:391-404 | no contract; the body is the model; see `AllFailedArePreorderFailures` |
| ResultTreeAggregation.LookupInPreorder | src/ResultTreeItem.ts:325-338 | every item a lookup finds is in the subtree's pre-order |
| ResultTreeAggregation.PreorderReachable | src/ResultTreeItem.ts:391-398 | on a well-formed tree every item of the pre-order is found by some path |
| ResultTreeAggregation.DescendantFailuresBounded | src/ResultTreeItem.ts:421-431 | in an aggregated tree no item has more failures than an ancestor, and none has fewer than zero |
| ResultTreeAggregation.FailedLookupIff | src/ResultTreeItem.ts:369-382 | on an aggregated tree a non-empty path finds an item through the failed index exactly when the ordinary lookup finds it and it has failures |
| ResultTreeAggregation.GetFailedByPathArray | src/ResultTreeItem.ts:369-382 | no contract; the body is the model; see `FailedLookupIff` |
| ResultTreeAggregation.GetFailedByDottedPath | src/ResultTreeItem.ts:384-389 | no contract; the body is the model; see `FailedDottedLookupIff` |
| ResultTreeAggregation.FailedDottedLookupIff | src/ResultTreeItem.ts:384-389 | on an aggregated tree, a dotted path of non-empty, dot-free segments finds an item in the failed index exactly when the plain dotted lookup finds it and it has failures |
| ResultTreeAggregation.ContainsFailedIffSomeFailure | src/ResultTreeItem.ts:153-158 | after `optimize`, `containsFailed` holds exactly when some failed test is collected |
| ResultTreeAggregation.ContainsFailed | src/ResultTreeItem.ts:153-158 | no contract; the body is the model; see `ContainsFailedIffSomeFailure` |
| ResultTreeFlattening.Flattened | src/ResultTreeItem.ts:455-460 | `flattened` ends at an item that cannot be flattened |
| ResultTreeFlattening.CanBeFlattened | src/ResultTreeItem.ts:451-453 | no contract; the body is the model; see `OptimizedFlattenable` |
| ResultTreeFlattening.FlattenedIsReached | src/ResultTreeItem.ts:451-460 | `flattened` is the item its collapsed keys lead to, and every item passed on the way can be flattened |
| ResultTreeFlattening.FlattenAll | src/ResultTreeItem.ts:462-468 | the flattened children are one per child, none of them flattenable |
| ResultTreeFlattening.FlattenedChildrenAreReached | src/ResultTreeItem.ts:462-468 | on a well-formed tree the i-th flattened child is found at the i-th key followed by that child's collapsed keys |
| ResultTreeFlattening.FlattenedChildren | src/ResultTreeItem.ts:462-468 | no contract; the body is the model; see `FlattenAll` and `FlattenedChildrenAreReached` |
| ResultTreeFlattening.FlattenedFailedIsFlattened | src/ResultTreeItem.ts:470-476 | on an aggregated item with failures that is not a failed test, `flattenedFailed` is `flattened` |
| ResultTreeFlattening.FlattenedFailedThrowsOnPassingChild | src/ResultTreeItem.ts:470-476 | a flattenable item whose only child passes has no first failed child, so `flattenedFailed` throws |
| ResultTreeFlattening.FlattenedFailed | src/ResultTreeItem.ts:470-476 | no contract; the body is the model; see `FlattenedFailedIsFlattened` and `FlattenedFailedThrowsOnPassingChild` |
| ResultTreeFlattening.FlattenedFailedChildren | src/ResultTreeItem.ts:478-485 | no contract; the body is the model; see `FlattenedFailedChildrenOfAggregated` |
| ResultTreeFlattening.FlattenedFailedChildrenOfAggregated | src/ResultTreeItem.ts:478-485 | on an aggregated tree whose tests are leaves, `flattenedFailedChildren` does not throw and is `flattened` of each failed child, in order |
| ResultTreeFlattening.FlattenedKeepsCounts | src/ResultTreeItem.ts:455-460 | on an optimized tree where no item on the collapsed chain is a test, `flattened` keeps both counts |
| ResultTreeFlattening.LeavesChainNotTest | src/ResultTreeItem.ts:451-460 | when tests are leaves, no item on the chain `flattened` collapses is a test, so the count lemma applies |
| ResultTreeFlattening.OptimizedFlattenable | src/ResultTreeItem.ts:451-453 | after `optimize`, an item can be flattened exactly when it is not a workspace folder and has one child |
| ResultTreeFlattening.TrailingFlattenableIsMaximal | src/ResultTreeItem.ts:440-445 | the label walk collects the longest run of flattenable nearest ancestors: each can be flattened, and the next one up cannot |
| ResultTreeFlattening.FlattenedLabelSplits | src/ResultTreeItem.ts:438-449 | without a flattenable parent the label is unchanged; otherwise, with dot-free names, it splits into the run's names followed by the item's name |
| ResultTreeFlattening.FlattenedLabel | src/ResultTreeItem.ts:438-449 | no contract; the body is the model; see `TrailingFlattenableIsMaximal` and `FlattenedLabelSplits` |
| OutputSets.OutputName | src/TestOutputSet.ts:24-26 | `name` is defined exactly when the code-path is non-empty |
| OutputSets.DottedCodePathRoundTrip | src/TestOutputSet.ts:67-69 | with dot-free segments, the dotted code-path splits back into the code-path, whose last part is the name |
| OutputSets.SubIndex | src/TestOutputSet.ts:135-138 | a key's position holds the set with that name, and a missing key matches no set |
| OutputSets.AddAt | src/TestOutputSet.ts:117-147 | `_add` bumps `testCount` by one and `failedTestCount` by one exactly for a failure; a one-segment path appends the output, and the failure, here; a longer path leaves this level's outputs alone |
| OutputSets.Add | src/TestOutputSet.ts:117-120 | `add` throws exactly on an empty code-path; otherwise the root's counts grow as `_add` says |
| OutputSets.NewSetIsValid | src/TestOutputSet.ts:108-115 | a new set has consistent counts and is also a valid failed-only tree |
| OutputSets.SubOrNew | src/TestOutputSet.ts:135-138 | the subset taken or created for a key carries that key as its name |
| OutputSets.UpsertSums | src/TestOutputSet.ts:135-145 | replacing or appending a subset changes the sums of counts by exactly the difference it brings |
| OutputSets.AddKeepsValid | src/TestOutputSet.ts:117-147 | with no empty segment before the last, `_add` keeps every level's counts equal to its outputs plus its subsets' counts, keeps the failed index mirroring the failures, and keeps failed keys among the keys |
| OutputSets.AddKeepsFailedOnly | src/TestOutputSet.ts:140-145 | adding a failure to the failed-only tree keeps it failed-only: equal counts, equal output lists, same subsets |
| OutputSets.EmptySegmentBreaksValid | src/TestOutputSet.ts:131-134 | an empty segment before the last drops the output after both counts were bumped, so the counts no longer match what is stored |
| OutputSets.AddPlacesOutput | src/TestOutputSet.ts:125-145 | with named leading segments, the output ends up last among the outputs of the set those segments lead to, and a failure also last in the failed tree |
| OutputSets.UpsertFinds | src/TestOutputSet.ts:135-138 | after `set(k, x)` the key `k` leads to `x` |
| OutputSets.ValidCountsStored | src/TestOutputSet.ts:105-106 | in a consistent set `testCount` is the number of stored outputs and `failedTestCount` the number of stored failures |
| OutputSets.ContainsFailedIffStoredFailure | src/TestOutputSet.ts:158-160 | in a consistent set `containsFailed` holds exactly when some stored output is a failure |
| OutputSets.NoFailuresIffEmpty | src/TestOutputSet.ts:140-145 | the failures of a list are empty exactly when none of its outputs is a failure |
| Xunit.JoinFailureElementsLength | src/outputhandlers/XunitOutputHandler.ts:13-19 | one element yields its text unchanged; more yield every text plus one fixed separator between each pair |
| Xunit.JoinFailureElements | src/outputhandlers/XunitOutputHandler.ts:13-19 | no contract; the body is the model; see `JoinFailureElementsLength` |
| Xunit.AddTestCase | src/outputhandlers/XunitOutputHandler.ts:21-54 | a test case is accepted exactly when classname, name, file and line are all truthy |
| Xunit.AddTestCaseErrorOrder | src/outputhandlers/XunitOutputHandler.ts:22-34 | the checks run in the order classname, name, file, line, and the first failing one names the error |
| Xunit.CodePathShape | src/outputhandlers/XunitOutputHandler.ts:36-37 | the code-path has as many segments as the classname has dots, plus two; all but the last join back into the classname, and the last is the name |
| Xunit.FailureMessagePresence | src/outputhandlers/XunitOutputHandler.ts:39-42 | a failure message is present exactly when the case has at least one failure element, and then it is their join |
| Xunit.LineIsParsedDecimal | src/outputhandlers/XunitOutputHandler.ts:48 | a line attribute holding a decimal number, maybe followed by a non-digit, is stored as that number |
| Xunit.FirstRejected | src/outputhandlers/XunitOutputHandler.ts:59-61 | every case before the first rejected position is accepted and the case at it is not |
| Xunit.AddTestSuiteIsPrefixRun | src/outputhandlers/XunitOutputHandler.ts:56-62 | one suite yields the records of its accepted prefix in order, then the error of its first malformed case; a missing list yields nothing |
| Xunit.AddCases | src/outputhandlers/XunitOutputHandler.ts:59-61 | no contract; the body is the model; see `AddTestSuiteIsPrefixRun` |
| Xunit.AddTestSuite | src/outputhandlers/XunitOutputHandler.ts:56-62 | no contract; the body is the model; see `AddTestSuiteIsPrefixRun` |
| Xunit.AddSuitesIsPrefixRun | src/outputhandlers/XunitOutputHandler.ts:64-69 | all suites together behave as one walk over every case in document order that stops at the first malformed case and keeps what came before |
| Xunit.AddSuites | src/outputhandlers/XunitOutputHandler.ts:66-68 | no contract; the body is the model; see `AddSuitesIsPrefixRun` |
| Xunit.AddTestSuites | src/outputhandlers/XunitOutputHandler.ts:64-69 | no contract; the body is the model; see `AddSuitesIsPrefixRun` |
| Xunit.PrefixRunConcat | src/outputhandlers/XunitOutputHandler.ts:64-69 | a run that stopped is the run of a longer sequence, and a clean run followed by a run is the run of the concatenation |
| Xunit.HandleDocument | src/outputhandlers/XunitOutputHandler.ts:73-79 | a document with neither root element is rejected with no records |
| Xunit.RootPrefersTestSuites | src/outputhandlers/XunitOutputHandler.ts:73-76 | with `<testsuites>` at the root, it is processed, even when `<testsuite>` is also present |
| Xunit.HandleDocumentIsPrefixRun | src/outputhandlers/XunitOutputHandler.ts:71-79 | the document yields the prefix run over every case of every suite, or over the cases of the single suite |
| PyScan.ClassifyAllAt | src/PythonFileParser.ts:22-34 | every line is classified by the same rule, position by position |
| PyScan.FirstStopFrom | src/PythonFileParser.ts:35-40 | the stopping line found from `i` stops the scan, and no earlier line from `i` does |
| PyScan.Parse | src/PythonFileParser.ts:19-45 | the loop reports the names as they stand after the first stopping line, or after the last line when it never stops |
| PyScan.ScanLine | src/PythonFileParser.ts:23-34 | one line's updates are the step of the reference scan |
| PyScan.Advance | src/PythonFileParser.ts:21-43 | each line advances the reference state by one step, and the stop search moves past a line that does not stop |
| PyScan.CommentLinesIgnored | src/PythonFileParser.ts:22-23 | a comment line changes neither name and never stops the scan |
| PyScan.ClassNameIsLatest | src/PythonFileParser.ts:24-27 | the class name is defined exactly when some earlier non-comment line set one, and then it is the latest such line's |
| PyScan.MethodNameIsLatest | src/PythonFileParser.ts:28-33 | the method name is defined exactly when some earlier line recorded one with a test class known, and then it is the latest such line's |
| PyScan.MethodOnlyAfterClass | src/PythonFileParser.ts:28-33 | a method name is only ever recorded once a test class has been seen |
| PyScan.NamesPersist | src/PythonFileParser.ts:24-33 | names are never cleared: a name defined after some lines stays defined after more |
| PyScan.StopNoLaterThan | src/PythonFileParser.ts:35-40 | any non-comment line at or past the target after which both names are known bounds the stopping line from above |

## Left out

- Presentation and I/O are not modelled. This covers icons, context values, collapsible state, descriptions, summaries, `navigateTo`, `logTestResult`, `show`, the output channel and `refresh`.
- Process running and the runner registry are not modelled: `run`, `reRun` and `reRunFailed` call into code outside this model.
- `makeReRunnableResultTreeItem` is left out. It shares mutable child maps between two items, which has no meaning for immutable values.
- `toPlainObject` and `toJson` are debugging output and are left out.
- Parent links are left out. Nodes are values, and `rootItem` is the root of the tree a path is looked up in. In the source, `addChild` sets the item's parent, but the replace branch of `addOrReplaceChild` (src/ResultTreeItem.ts:263-265) does not. `rootItem`, `pathArray`, `isRunningTests`, `setIsRunningTests` and `flattenedLabel` follow the parent chain, so for an item placed by that branch they start at the item itself. The members below cover only items whose parent chain follows their position in the tree.
- ResultTree.AddOrReplaceChild: the replace branch leaves the new item's parent unset; the model does not record this.
- ResultTree.PathArrayIsRootThenPath: an item placed by the replace branch of `addOrReplaceChild` has the path array `[name]` in the source; the lemma covers only items reached through parent links.
- ResultTree.DottedPathRoundTrip: as for `PathArrayIsRootThenPath`, an item placed by the replace branch has the dotted path `name`.
- ResultTree.SetIsRunningTests: on an item placed by the replace branch, the source sets and reads that item's own flag, not the root's.
- ResultTree.IsRunningTests: on an item placed by the replace branch, the source reads that item's own flag.
- ResultTreeFlattening.FlattenedLabelSplits: on an item placed by the replace branch, the source has no parent and returns the current label.
- An empty root element is not modelled as present. For an empty `<testsuites/>`, xml2js gives `''`. That value is falsy, so src/outputhandlers/XunitOutputHandler.ts:73-78 falls through to `testsuite` and then throws; the `Document` datatype represents that input as `None`.
- The label of an item is not stored. `flattenedLabel` takes the current label as a parameter, and `optimize` does not assign it.
- The `failedChildren` map after `optimize` is modelled as a copy of the failed children. In the source it holds the same objects as `children`; a later mutation of one is not reflected in the other here either way, since nothing mutates.
- `vscode.Uri.file(path.join(root, ...))` is replaced by an opaque `Location` of the root and the joined segments.
- `workspaceFolderHelper.absoluteFsPath` is a function parameter (`absolute`).
- Reading and splitting the Python file, and the regular expressions, are left out. `Parse` takes the lines, and the class and method expressions are matcher parameters that return the captured name.
- XML parsing is left out. The xUnit model starts from parsed records with absent values as `None`. xml2js turns a text-only `<failure>` into a plain string, so `failureElement._` is undefined; only the element's text is modelled.
- The hand-off from the xUnit handler to `TestOutputSet` is left out. The handler passes `undefined` for a passing test while `isFailure` tests `!== null`, and the handler's fields differ from the output type. Each file's own contract is modelled instead.
- `TestOutputSet.add` copies the code-path before `_add` shifts it. The copy cannot be observed with immutable sequences, so no property about it is stated.
- Common.IsSpace: `trim` removes only ASCII whitespace here. The JavaScript set also includes Unicode spaces and line terminators.
- Common.ToLowerAscii: `toLocaleLowerCase` lower-cases only ASCII letters here.
- Common.ParseInt10: the result is a mathematical integer. A very long digit run does not lose precision as a double would, and `-0` is 0.
- The `Running` status and the refusal of a second run belong to the runner and are left out. Only `WaitingToStart` and `Done` are set by this code.
