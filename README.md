# TODO tree view: a verified model of the annotation scanner

The extension adds a "TODO" tree view to the editor. When the view asks for its children,
the provider checks that a workspace folder is open. It then reads the `todo.exclude`
setting, which defaults to `["**/node_modules/**"]`, and asks the host for every
`.ts`/`.js`/`.jsx`/`.tsx` file outside those globs. It reads each file and runs a global
regular expression over the text. The expression has two alternatives:

- a line comment `// TODO: text`, whose text runs to the end of the line;
- a JSX block comment `{/* TODO: text */}`, whose text stops at the first `*/}` on the same line.

Group 1 is trimmed when it is non-empty; otherwise group 2 is trimmed, which throws for a
line marker whose capture is empty (see Findings). Each match becomes an item labelled
with that text, whose command opens the file. The items of all files are collected into one
list.

This project models that core in Dafny:

- `wrappers.dfy`: `Option` and `Result`.
- `text.dfy` (module `Text`):
  - the ECMAScript character classes the code relies on (white space and line
    terminators, shared by `\s` and `String.prototype.trim`);
  - `Trim`;
  - `Join` and `Split` on a separator character.
- `todo_regex.dfy` (module `TodoRegex`): the regular expression as a scanner.
  - `MatchAt` tries alternative 1, then alternative 2, at one position, with the
    backtracking semantics of ECMAScript: `\s*` is greedy, `.*` is greedy up to a line
    terminator, and `.*?` is lazy.
  - `NextMatch` is the leftmost match at or after `lastIndex`. `Exec` is the
    `RegExp.prototype.exec` loop that finds it.
  - `Matches` is the sequence of matches that the `while ((match = regex.exec(content)) !== null)`
    loop visits. After each match it resumes at the match's end; every match is at least
    seven characters long, so the empty-match case of `exec` never arises.
  - The lemmas tie the scanner to a declarative description of a parse (`LineParse`,
    `BlockParse`). They show that the matches are ordered and disjoint, that no
    occurrence of the pattern is skipped, and that every capture lies on one line.
- `promises.dfy` (module `Promises`): `Array.prototype.map` and `Promise.all` over
  outcomes that each either fulfil with a list of items or reject.
- `todo_provider.dfy` (module `TodoProvider`):
  - the items and the per-match text selection;
  - the per-file loop `ScanFile` and the whole scan `GetTodos`, both imperative and
    proved against the functions `FileTodos` and `Aggregate`;
  - the exclude glob with its default;
  - the empty-workspace guard of `getChildren`;
  - the corrected reading of the selection on line 54 (see Findings).

Reading a file is an input: a `SourceFile` carries its path and either its text or `None`
for a failed read. The host's answers to `getConfiguration` and `findFiles` are parameters.
The concurrent callbacks are modelled in the order they run. Every file's push happens in one
callback without an `await` between the pushes, so the shared `todos` array equals the
concatenation of the per-file item lists in completion order.

## Model

| member | source | states |
|---|---|---|
| Text.IsLineTerminator | src/extension.ts:51 | the ECMAScript line terminators LF, CR, U+2028 and U+2029, which `.` does not match; none of them is a literal character of the pattern |
| Text.IsWhitespace | src/extension.ts:51-54 | the class of `\s` and of `trim()`: ECMAScript WhiteSpace together with LineTerminator; it includes every line terminator and no literal character of the pattern, so `\s*` never consumes the `T` of `TODO:` |
| Text.Trim | src/extension.ts:54 | `String.prototype.trim`: strips white space and line terminators from both ends; the label is never longer than the capture |
| Text.TrimSpec | src/extension.ts:54 | `trim()` removes only white space and line terminators, and only from the two ends: the result is an infix of the input with whitespace-only prefix and suffix removed, and it neither starts nor ends with whitespace |
| Text.TrimStartSpec | src/extension.ts:54 | the leading part `trim()` removes is all whitespace; what remains is a suffix that does not start with whitespace |
| Text.TrimEndSpec | src/extension.ts:54 | the trailing part `trim()` removes is all whitespace; what remains is a prefix that does not end with whitespace |
| Text.TrimSingleLine | src/extension.ts:54 | trimming a text with no line terminator yields a text with no line terminator |
| Text.TrimAllWhitespace | src/extension.ts:54 | a capture made only of blanks trims to the empty label |
| Text.TrimIdempotent | src/extension.ts:54 | trimming a label again changes nothing |
| Text.Join | src/extension.ts:46 | `Array.prototype.join` with one separator character: the patterns with one separator between neighbours, so at least as many characters as separators (one fewer than there are patterns) |
| Text.SplitJoin | src/extension.ts:46 | `join(',')` can be undone: splitting the joined glob list at commas gives back the patterns when none contains a comma |
| Text.JoinSplit | src/extension.ts:46 | joining the comma-separated pieces of a text gives back the text |
| Text.SplitNoSeparator | src/extension.ts:46 | a pattern without a comma is a single alternative |
| Text.SplitPrefix | src/extension.ts:46 | splitting distributes over a comma-free prefix |
| TodoRegex.WhitespaceRun | src/extension.ts:51 | the greedy `\s*` consumes a maximal run of whitespace and stops at the first non-whitespace character or the end |
| TodoRegex.LineEnd | src/extension.ts:51 | the greedy `(.*)` stops at the first line terminator or the end of the text and crosses no terminator |
| TodoRegex.BlockClose | src/extension.ts:51 | the lazy `(.*?)\*\/}` ends at the first `*/}` on the same line, and there is none before it; when there is none on the line, the alternative fails |
| TodoRegex.LineMatchAt | src/extension.ts:51 | alternative 1 tried at one position: `//`, the whitespace run, `TODO:` and the rest of the line; a match starts at that position and captures group 1 |
| TodoRegex.BlockMatchAt | src/extension.ts:51 | alternative 2 tried at one position: `{/*`, the whitespace run, `TODO:`, the shortest text on the line and `*/}`; a match starts at that position and captures group 2 |
| TodoRegex.MatchAt | src/extension.ts:51 | a match starts where it was tried, is at least seven characters long (`//TODO:`) and ends within the text |
| TodoRegex.WhitespaceIsRun | src/extension.ts:51 | any whitespace span followed by `TODO:` is exactly the greedy run, so backtracking into `\s*` never yields another parse |
| TodoRegex.LineMatchIsParse | src/extension.ts:51 | an alternative-1 match is a parse of `//`, `\s*`, `TODO:` and a capture up to a line terminator or the end |
| TodoRegex.LineParseIsMatched | src/extension.ts:51 | whenever alternative 1 can parse at a position, the scanner matches there with the same whitespace and a capture at least as long (greedy) |
| TodoRegex.BlockMatchIsParse | src/extension.ts:51 | an alternative-2 match is a parse of `{/*`, `\s*`, `TODO:`, the capture and `*/}`, and it is the shortest such parse (lazy) |
| TodoRegex.BlockParseIsMatched | src/extension.ts:51 | whenever alternative 2 can parse at a position, the scanner matches there, with a capture no longer than that parse's |
| TodoRegex.AlternativesExclusive | src/extension.ts:51 | at any position at most one alternative applies, since one needs `//` and the other `{/*` |
| TodoRegex.NextMatch | src/extension.ts:53 | `exec` with `lastIndex` returns the leftmost match at or after `lastIndex`, and no position before it matches |
| TodoRegex.Exec | src/extension.ts:53 | the `exec` loop's result is exactly `NextMatch(s, lastIndex)`, and it lies after `lastIndex` within the text |
| TodoRegex.Matches | src/extension.ts:51-53 | the matches the `exec` loop visits, each search resuming at the previous match's end; since a match is at least seven characters long, there are at most a seventh as many matches as characters scanned |
| TodoRegex.MatchesAreMatches | src/extension.ts:53 | every match the loop visits is a genuine match at its start, within the text |
| TodoRegex.MatchesDoNotOverlap | src/extension.ts:53 | the matches the loop visits are in increasing order and do not overlap |
| TodoRegex.MatchesCoverEveryMarker | src/extension.ts:53 | every position where the pattern matches lies inside some visited match, whose index it returns, so no annotation is skipped, only absorbed |
| TodoRegex.NoMatchesIffNoMarker | src/extension.ts:53 | a file yields no matches exactly when the pattern matches at no position |
| TodoRegex.NoTodoNoMatches | src/extension.ts:51-53 | a text without `TODO:` yields no matches |
| TodoRegex.CaptureOnOneLine | src/extension.ts:51 | both captures lie on one line and are shorter than the match |
| Promises.Map | src/extension.ts:49 | `files.map` gives exactly one outcome per file |
| Promises.MapAt | src/extension.ts:49 | the i-th outcome is the callback's outcome for the i-th file |
| Promises.MapElements | src/extension.ts:49 | every outcome is the callback's outcome for the file at the same position |
| Promises.MapAround | src/extension.ts:49 | the outcomes are those of the files before a given file, that file's own, and those of the files after it |
| Promises.MapSlices | src/extension.ts:49 | the outcomes of the files before (or after) a position are the leading (or trailing) outcomes |
| Promises.MapConcat | src/extension.ts:49 | mapping distributes over concatenation |
| Promises.MapPermutes | src/extension.ts:49 | permuting the files permutes their outcomes |
| Promises.All | src/extension.ts:49-62 | `Promise.all` over the callbacks' outcomes in completion order: the items of all of them concatenated, or a rejection that is one callback's own rejection |
| Promises.AllConcat | src/extension.ts:49-62 | `Promise.all` over two groups of callbacks fulfils exactly when both do, with the items of the first group followed by those of the second |
| Promises.AllSingle | src/extension.ts:49-62 | one callback's outcome is the whole outcome |
| Promises.AllOkIff | src/extension.ts:49-62 | `Promise.all` fulfils exactly when every callback fulfils |
| Promises.AllAround | src/extension.ts:49-62 | `Promise.all` around one callback fulfils exactly when the callbacks before it, that callback and those after it all fulfil, with their items in that order |
| Promises.AllContiguous | src/extension.ts:60-64 | each fulfilled callback's items appear as one contiguous block of the result |
| Promises.AllPrefixErr | src/extension.ts:49-62 | once a callback rejects, the outcome is that rejection, whatever comes after |
| Promises.AllOrderIrrelevant | src/extension.ts:47-62 | the completion order does not affect whether the scan fulfils, nor the multiset of items it collects |
| Promises.AllItemSource | src/extension.ts:60-64 | every collected item comes from some callback's own items |
| TodoProvider.Item | src/extension.ts:55-59 | the tree item for one match: labelled with the selected text, with the command `vscode.open`, title `""` and the file as its only argument |
| TodoProvider.SelectText | src/extension.ts:54 | the label of one match: it throws exactly on an empty group-1 capture, and then a `TypeError`; otherwise it is the trimmed capture of whichever group participated |
| TodoProvider.Collect | src/extension.ts:53-61 | the loop body over the remaining matches, pushing one item each after those already pushed: it can only throw a `TypeError`, and on completion it has added exactly one item per match |
| TodoProvider.Records | src/extension.ts:53-61 | the items of one file's matches: it can only throw a `TypeError`, and otherwise gives exactly one item per match |
| TodoProvider.FileTodos | src/extension.ts:50-61 | one file's callback after the read: it can only throw a `TypeError`, and otherwise gives exactly one item per match in the file's text |
| TodoProvider.FileResult | src/extension.ts:50 | one file's callback: it rejects with a read failure exactly when the read failed, and that failure names the file |
| TodoProvider.SelectTextSpec | src/extension.ts:54 | the selection throws exactly when the line capture is empty; otherwise it is the trimmed capture, which has no surrounding whitespace and no line terminator |
| TodoProvider.CollectErrIff | src/extension.ts:53-61 | the per-file loop throws a `TypeError` exactly when some match's selection throws |
| TodoProvider.CollectOk | src/extension.ts:53-61 | when the loop completes, it has pushed one item per match, in match order, each labelled with the selected text and opening the file |
| TodoProvider.RecordsSpec | src/extension.ts:53-61 | a file's loop throws exactly when a selection throws; otherwise it yields one item per match, in order, labelled with that match's text |
| TodoProvider.ScanFile | src/extension.ts:50-61 | the per-file `exec` loop computes exactly `FileTodos(path, content)`, the items of the matches in order or the `TypeError` |
| TodoProvider.GetTodos | src/extension.ts:44-65 | the scan computes exactly `Aggregate(files)`: the concatenation, in completion order, of the per-file results, rejecting on the first read failure or thrown selection |
| TodoProvider.Aggregate | src/extension.ts:49-62 | the whole scan: `Promise.all` over the files' callbacks; a read-failure rejection names a file whose read failed |
| TodoProvider.AggregateOkIff | src/extension.ts:49-64 | the scan fulfils exactly when every file is read and scanned without throwing |
| TodoProvider.FileItemsContiguous | src/extension.ts:49-64 | in a fulfilled scan, each file's items form one contiguous block between the items of the files before and after it |
| TodoProvider.AggregateOrderIrrelevant | src/extension.ts:47-64 | files finishing in any order give the same verdict and the same multiset of items |
| TodoProvider.ItemsOpenTheirFile | src/extension.ts:55-59 | every collected item's command is `vscode.open` with exactly one argument, the path of a scanned file |
| TodoProvider.ExcludePatterns | src/extension.ts:39 | the configured exclude patterns, or `["**/node_modules/**"]` when the setting is falsy; the list is empty exactly when an empty list is configured |
| TodoProvider.ExcludeGlob | src/extension.ts:46 | the patterns joined with commas inside braces; the result is always a brace group |
| TodoProvider.ExcludeGlobAlternatives | src/extension.ts:46 | the exclude glob is a brace group whose comma-separated alternatives are exactly the configured patterns, provided there is at least one and none contains a comma (an empty list gives `{}`, whose one alternative is empty) |
| TodoProvider.BraceGroupIsExcludeGlob | src/extension.ts:46 | every brace group is the exclude glob of its own alternatives |
| TodoProvider.ExcludeDefaulting | src/extension.ts:39 | a falsy setting gives `{**/node_modules/**}`; a configured list, even an empty one, is used as is |
| TodoProvider.GetChildren | src/extension.ts:32-41 | `getChildren`: the host calls it makes and the items it resolves to; its first host call is the "No workspace folder open" notice exactly when the workspace root is empty |
| TodoProvider.GetChildrenSpec | src/extension.ts:32-41 | with an empty workspace root the result is `[]` and the only host call is the "No workspace folder open" notice; otherwise the configuration is read, files are searched with the include glob and the built exclude glob, and the result is the scan of the files found |
| TodoProvider.IntendedRecords | src/extension.ts:54 | the corrected selection over a file's matches, labelling each with its trimmed capture without throwing; exactly one item per match |
| TodoProvider.IntendedRecordsAgree | src/extension.ts:54 | the corrected selection yields one item per match labelled with the trimmed capture, and it agrees with the code wherever the code does not throw |
| TodoProvider.SourceThrowsOnlyOnEmptyLineCapture | src/extension.ts:54 | a file's scan throws exactly when some line marker has an empty capture; otherwise it equals the corrected scan |
| TodoProvider.EmptyLineMarkerThrows | src/extension.ts:51-54 | a file whose text is `//TODO:` makes the scan throw a `TypeError`, while the corrected selection gives one item with the empty label |

## Left out

- The editor integration is outside the model: `activate`, `deactivate`, the command
  registration, `refresh` with its event emitter, and `getTreeItem`, which returns its
  argument.
- `TodoItem`'s `collapsibleState` (always `None`) and `contextValue` (always `'todo'`) are
  constants of the tree view. Only the label and the command are modelled.
- The `Uri` passed as the command argument and read through `fsPath` is modelled as its
  path string.
- `fs.readFile` (lines 67-77) is an input: the file's text, or `None` for a failed read,
  which rejects the scan. The error's contents and the UTF-8 decoding are not modelled.
- `findFiles` is a parameter. Its glob matching, result order and `node_modules` handling
  belong to the host. The model builds the glob arguments exactly and takes the files found
  as given.
- `pLimit(10)` caps concurrent reads at ten. This affects timing only, not the items, so it
  is not modelled. The callbacks are modelled in the order they complete, which the host
  decides.
- TodoProvider.GetTodos: when several callbacks reject, the model reports the first one in
  completion order. That is what `Promise.all` reports. Since the completion order is a
  parameter, the model does not say which failure will come first.
- TodoProvider.GetTodos: on a rejection, `Promise.all` settles while the other callbacks may
  still push onto the abandoned array. The model stops at the rejection because nothing
  observes that array afterwards.
- TodoProvider.ScanFile returns a file's items instead of pushing them onto the shared array
  one by one. No `await` separates the pushes, so each file's items reach the shared array
  as one block, and `GetTodos` appends that block.
- Texts are sequences of code points. JavaScript strings are UTF-16 and the pattern has no
  `u` flag, so a surrogate pair counts as two positions. No character of the pattern is a
  surrogate, so the matches are the same, but the model's indices count code points.
- An empty line marker (`// TODO:` followed by a line end or the end of the text)
  evidently should give an item with an empty label, as a blank line capture or an empty
  block capture does. The code throws a `TypeError` on line 54 instead. The model follows
  the code; see Findings.

## Findings

| source | as written | input that shows it | evidently intended | confidence | as-written member | corrected member |
|---|---|---|---|---|---|---|
| src/extension.ts:54 | `match[1] ? match[1].trim() : match[2].trim()` tests the line capture for truthiness. An empty capture is falsy, so it reads `match[2]`, which is `undefined` for a line match, and `.trim()` throws a `TypeError` that rejects the whole scan | a file containing `// TODO:` at the end of a line or of the text, e.g. `"//TODO:"` or `"// TODO:\n"` | use whichever group participated, so the line gives an item with the empty label | not executed | TodoProvider.EmptyLineMarkerThrows | TodoProvider.IntendedRecordsAgree |
