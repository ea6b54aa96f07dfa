# Drop committed console calls: a Dafny model

This project models the decision logic of `unplugin-drop-committed-console`. It is a build-time plugin that deletes `console.log`-style calls from a source file. It keeps calls on lines the developer has changed and not yet committed, and deletes the calls on committed lines. The model covers four parts:

- **Git output readers** (`src/core/git.ts`).
  - The status enum, and the reader of the two-letter `XY` code printed by `git status`.
  - The hunk-header reader and the parser of zero-context unified diffs (`git diff --minimal -U0`). This is the "Unified Format" of section 2.2.2 of the GNU diffutils manual. Each hunk carries a map from line number to the previous and current text of that line and to its state.
- **The removal decision** (`src/core/ctx.ts`).
  - Option defaults and the "any object is a console" flag.
  - The repository check and the status gate.
  - The set of changed lines, the skip rule for calls that touch a changed line, the console-call classifier, and the text that results from deleting the chosen ranges.
- **Line records and position lookup** (`src/utils/string.ts`). `getLines` over a string and over a list of chunks, and the binary search `getLineBySpan`.
- **Line pieces and URL cleanup** (`src/core/utils.ts`). `getLines`, which yields raw pieces, and `cleanUrl`.

Files and modules:

- `wrappers.dfy` (`Wrappers`): `Option` and `Result`.
- `jsstring.dfy` (`JsString`): the JavaScript string operations the code relies on: `split`, `join`, `trim`, `indexOf`, `startsWith`, `slice(1)`.
- `jsnumber.dfy` (`JsNumber`): `Number(text)` on the numerals git prints, with NaN, and `+`/`||` on such numbers.
- `gitstatus.dfy` (`GitStatus`): the status enum and `parseStatus`.
- `gitdiff.dfy` (`GitDiff`): `parseHunkHeaderPart` and `parseDiff`.
- Lemmas about the diff parser:
  - `gitdiff_lemmas.dfy` (`GitDiffLemmas`): runs of changes and the hunk count;
  - `hunkheader_lemmas.dfy` (`HunkHeaderLemmas`): header round trips;
  - `hunkbody_lemmas.dfy` (`HunkBodyLemmas`): hunk bodies and `contents`.
- `lineindex.dfy` (`LineIndex`): the records and the search of `src/utils/string.ts`.
- `coreutils.dfy` (`CoreUtils`): the pieces and `cleanUrl` of `src/core/utils.ts`.
- `removal.dfy` (`Removal`): deleting ranges that are given in the coordinates of the original text, as the editing buffer does.
- `context.dfy` (`Context`) and `context_lemmas.dfy` (`ContextLemmas`): `createContext` and `transform`.

Everything that talks to the outside world is an input to the model:

- **Git answers.** Each git command is a `Context.GitAnswer` parameter of `Context.TransformFile`: either the text git printed or `CommandFailed`, which stands for a missing git executable or a non-zero exit. Their parsed forms are parameters of `Context.Transform`.
- **Call expressions.** The parser and the traverser supply the call expressions of the source. `Context.TransformFile` takes the parser's answer as a `Context.ParseAnswer`: either `Parsed` with a list of `Context.Site` values, or `ParseFailed`, which stands for a syntax error or a parser package that cannot be loaded. `Context.Transform` takes the list itself. Each site gives:
  - the callee's shape;
  - the 1-based first and last line of the call;
  - the call's `[start, end)` range of offsets into the code.
- **Callee names.** Each name of a callee is the `name` field of the parser's node, and `None` exactly when the node has no such field (a literal such as `console['log']`, a call, a nested member access). The source then reads `undefined`, which is in no list. A private name such as `this.#log()` is a `PrivateIdentifier` node whose `name` is `log` without the `#`; it is supplied as `Some("log")`, so with `reference` set to `'*'` that call is removed.

Points of the code's behaviour that are easy to misread:

- **No scope policies or blame.** The only policy is the boolean `strict` option plus the diff; there is no blame check.
- **Conflicted files in strict mode.** Under `strict`, a file whose status is `BOTH_MODIFIED` (`UU`) passes the gate and is cleaned (`ContextLemmas.GateIff`).
- **`reference` is not typed.** The `reference` option is absent from the option typings (`src/types.ts`), but `createContext` reads it. The model takes it to be either `'*'` or a list of names.

## Model

| member | source | states |
|---|---|---|
| GitStatus.ParseStatus | src/core/git.ts:150-180 | Checked against the short codes `git status` prints: a combined code (`??`, `!!` or one of the seven unmerged codes) yields the status printed with exactly that code. Otherwise an index letter M/A/D/R/C alone decides the status, the index-side one printed with that letter, whatever the work-tree letter is. Otherwise a work-tree letter M/D/A/R/T decides the work-tree-side status printed with it. There is no status exactly when none of the three applies; the result is a conflict status exactly for the seven unmerged codes. |
| GitStatus.CombinedCodesWin | src/core/git.ts:151-169 | `UU` is `BOTH_MODIFIED`, `AA` is `BOTH_ADDED` and `DD` is `BOTH_DELETED`, although `A` and `D` alone are index letters. `MM` is `INDEX_MODIFIED`. The empty code has no status. |
| GitStatus.GateStatusCodes | src/core/git.ts:150-180 | For one-letter sides: `INDEX_MODIFIED` exactly when the index letter is M; `BOTH_MODIFIED` exactly for `UU`; `MODIFIED` exactly when the work-tree letter is M and the index letter is not an index letter. |
| GitStatus.ParseShortCode | src/core/git.ts:150-180 | Every status is read back from the short code `git status` prints for it, so every enum value is reachable. |
| GitStatus.StatusCode | src/core/git.ts:313 | `charAt(0)` and `charAt(1)` give at most one character each, and together they are the first two characters of the output, or all of it when it is shorter. The first is empty only for empty output, so one character of output is always the index letter. |
| GitStatus.StatusOfPrintedCode | src/core/git.ts:311-315 | `getStatus` reads the status back from what `git status -z` prints for a path: its two-letter code followed by anything at all. |
| GitStatus.EmptyOutputUnclassified | src/core/git.ts:311-315 | Empty status output (a clean, committed file) has no status, and no error. |
| GitStatus.TruthyStatus | src/core/git.ts:10-32 | Only `INDEX_MODIFIED`, the enum's ordinal 0, is a falsy status; no status is falsy too. |
| JsNumber.ToNumberDecimal | src/core/git.ts:184 | `Number` reads every decimal numeral git prints back as its value (exact in the model; JavaScript agrees below 2^53). |
| JsNumber.ToNumberReads | src/core/git.ts:184-185 | `Number` reads a plain digit string as its decimal value, and any text that reads as a number consists only of digits, signs and white space. |
| JsNumber.ToNumberNegative | src/core/git.ts:184-185 | A number read from text is negative only if the text has a minus sign. |
| JsNumber.OrElse | src/core/git.ts:185 | `value \|\| 1` is the value when it is a non-zero number and the fallback when it is NaN or zero, so it is never 0. |
| GitDiff.ParseHunkHeaderPart | src/core/git.ts:182-187 | The count of a header part is never 0, and `end` is `start + count - 1`. A NaN start gives a NaN end. |
| HunkHeaderLemmas.CountAtLeastOne | src/core/git.ts:182-187 | A header part without a minus sign has a count of at least 1, so its `end` is never before its `start`. |
| HunkHeaderLemmas.RangeRoundTrip | src/core/git.ts:182-187 | `start,count` as git prints it reads back as that range, with a zero count read as 1. |
| HunkHeaderLemmas.RangeWithoutCount | src/core/git.ts:182-187 | A printed start without a count reads back with a count of 1. |
| GitDiff.HeaderTextStops | src/core/git.ts:214 | `line.split('@@')[1]` is the text after the opening `@@` up to the next `@@` or the end of the line. |
| GitDiff.ParseHunkHeader | src/core/git.ts:214-218 | Reading a header fails exactly when its trimmed text has no space, so that there is no second word to slice; the error names the header line. A successful read has a non-zero count on both sides. |
| HunkHeaderLemmas.HeaderTextOf | src/core/git.ts:214 | For a line `@@` + text + `@@` where the text has no `@`, the header text is exactly that text. |
| GitDiff.HeaderFailure | src/core/git.ts:214-218 | Reading a header fails, like the `TypeError` of the source, exactly when the trimmed header text has no space, so there is no second word to slice. |
| HunkHeaderLemmas.HeaderWords | src/core/git.ts:214-215 | The header `@@ a b @@` splits into exactly the words `a` and `b`. |
| HunkHeaderLemmas.HeaderRoundTrip | src/core/git.ts:214-218 | A header `@@ -a,b +c,d @@` as git prints it reads back as its previous and current ranges, in that order. |
| GitDiff.DeleteRunShape | src/core/git.ts:230-239 | A run of deleted lines stops at the first line that does not start with `-`. The counter never moves backwards. Entries numbered below the run's start are left as they were. |
| GitDiff.AddRunShape | src/core/git.ts:241-257 | A run of added lines stops at the first line that does not start with `+`. The counter never moves backwards. Entries below the run's start are left as they were. |
| GitDiff.StepShape | src/core/git.ts:228-289 | The contract of `GitDiff.Step`, one pass of the body loop: it consumes at least one line, and only `-` and `+` lines beyond the first. It never disturbs the entries below the counter. |
| GitDiff.BodyShape | src/core/git.ts:227-290 | The contract of `GitDiff.Body`, the body loop: a hunk body ends at the next `@@` line or at the end of the text, and contains no `@@` line. The counter never moves backwards, and entries below the starting number stay as they were. |
| GitDiff.FirstHeader | src/core/git.ts:197-203 | The header skip stops at the first line starting with `@@`, or at the end. |
| GitDiff.ParseDiff | src/core/git.ts:189-191 | Empty diff text yields no hunks. |
| GitDiffLemmas.DeleteRunEnd | src/core/git.ts:230-239 | A run of `d` deleted lines ends after them. The counter has advanced by `d`, and exactly the line numbers `n .. n+d-1` are added to the map. |
| GitDiffLemmas.DeleteRunEntries | src/core/git.ts:230-239 | Each deleted line is recorded as `removed`, with its text without the sign as `previous` and no `current`. |
| GitDiffLemmas.AddRunEnd | src/core/git.ts:241-258 | A run of `a` added lines ends after them, and the counter has advanced by `a`. |
| GitDiffLemmas.AddRunEntries | src/core/git.ts:241-257 | An added line whose number already has an entry turns that entry into `changed` with the new text as `current`. Any other added line is `added` with no `previous`. |
| GitDiffLemmas.ChangeRun | src/core/git.ts:230-263 | For `d` deleted lines followed by `a` added lines at line `n`, the keys `n .. n+max(d,a)-1` are set. The first `min(d,a)` are `changed` and pair the texts by position. The rest are `removed` or `added`. Earlier entries are unchanged. The counter continues at `n+a`, or at `n+d` when nothing was added. |
| GitDiffLemmas.ChangeRunStep | src/core/git.ts:230-262 | A change run is one pass of the loop: the deletions, then the additions read over the deletions' entries. |
| GitDiffLemmas.HunksPerHeader | src/core/git.ts:207-300 | The contract of `GitDiff.Hunks`, the hunk loop: from any line on, it yields one hunk per line starting with `@@`, and fails exactly when one of those lines has no current-side range. |
| GitDiffLemmas.ParseDiffHunkCount | src/core/git.ts:189-303 | `parseDiff` yields one hunk per line of the diff that starts with `@@`, skipping the lines before the first. It fails exactly when such a line lacks its range words. |
| HunkBodyLemmas.BodyEndsAtHeader | src/core/git.ts:227 | The body that the loop reads ends at the first `@@` line after the header. |
| HunkBodyLemmas.StepPlain | src/core/git.ts:265-288 | A `+` line is `added` and a ` ` line is `unchanged` with equal texts; each takes the next number. Any other line adds nothing and keeps the counter. |
| HunkBodyLemmas.BodyWithoutDeletionsKeys | src/core/git.ts:265-288 | A body without deletions advances the counter by its number of `+` and ` ` lines, and adds exactly those numbers as keys. |
| HunkBodyLemmas.BodyWithoutDeletionsEntries | src/core/git.ts:265-288 | In a body without deletions, the `k`-th `+` or ` ` line gets the entry numbered `n + k`. |
| HunkBodyLemmas.HunkAt | src/core/git.ts:214-297 | The hunk at a header takes its ranges from that header. It numbers its body from the start of the current range, and its `contents` is the body lines joined by newlines plus a final newline. |
| HunkBodyLemmas.HunkContents | src/core/git.ts:223-224 | `contents` splits back into exactly the body lines up to the next header, followed by one empty field. An empty body gives a lone newline. |
| HunkBodyLemmas.ContentsLines | src/core/git.ts:293 | Text built as `parts.join('\n') + '\n'` splits back into the parts and one empty field. |
| HunkBodyLemmas.HunkNumbering | src/core/git.ts:221-284 | When a hunk body deletes nothing, its map numbers the `+` and ` ` lines consecutively from the current range's start, in order, and has no other key. |
| Context.CreateContext | src/core/ctx.ts:9-12 | `type` defaults to `['log']` and `reference` to `['console']`; given values are kept. Any object counts as a console exactly when `reference` is `'*'` or empty. |
| Context.HunkKeys | src/core/ctx.ts:34 | A line number is a changed line exactly when it is a key of some hunk's line map. |
| Context.DiffLines | src/core/ctx.ts:33-34 | The changed lines are the keys of the hunks' maps when the status is truthy, and none otherwise. |
| Context.RemovedRanges | src/core/ctx.ts:40-62 | A range is removed exactly when it is the range of a call the decision removes. |
| Context.Blocked | src/core/ctx.ts:43-50 | A call is kept for its lines exactly when some line of its span is a changed line. The `diffLines.length` guard changes nothing, and an empty span or an empty list never blocks. |
| Context.PassesGate | src/core/ctx.ts:29-30 | In strict mode a file passes exactly when it has no status or one of `BOTH_MODIFIED`, `INDEX_MODIFIED` and `MODIFIED`. Otherwise it passes exactly when it has no status or `INDEX_MODIFIED`, the falsy zero of the enum. |
| Context.Transform | src/core/ctx.ts:22-67 | Outside a work tree, or when the gate stops the file, the code comes back unchanged. The output is never longer than the input. |
| Context.IsRepoOutput | src/core/git.ts:306-309 | An answer counts as a work tree exactly when it is the word `true` with only white space around it; such an answer has at least four characters. |
| Context.TransformFile | src/core/ctx.ts:22-67 | A failed repository check rejects the transform; an answer other than `true` returns the code unchanged, whatever the parser says. A successful output is never longer than the code. |
| ContextLemmas.GateIff | src/core/ctx.ts:29-30 | The gate lets a file through exactly when it has no status, or is `INDEX_MODIFIED`, or, in strict mode, is `BOTH_MODIFIED` or `MODIFIED`. |
| ContextLemmas.LenientGate | src/core/ctx.ts:29-30 | Without strict mode, only a file with a falsy status is cleaned. |
| ContextLemmas.IndexModifiedQuirk | src/core/ctx.ts:29-33 | A file staged as `INDEX_MODIFIED` passes the gate in either mode and its diff is never read. Every console call with both positions is removed from it, even on changed lines. |
| ContextLemmas.DefaultClassifier | src/core/ctx.ts:52-58 | With the default options, the only console call is `console.log(...)`: no bare `log(...)`, no other object, no other method. |
| ContextLemmas.AnyConsoleClassifier | src/core/ctx.ts:53-57 | With `reference` set to `'*'` or empty, a call is a console call exactly when its bare name, or its property name, is one of the configured types. |
| ContextLemmas.ConsoleCallIff | src/core/ctx.ts:52-58 | For any options: a bare call counts only when any object does; a member call needs its object among the reference names (`console` by default) unless any object counts; both need the called name among the types (`log` by default); no other callee ever counts. |
| ContextLemmas.EmptyTypeMatchesNothing | src/core/ctx.ts:52-58 | An empty `type` list matches no call at all. |
| ContextLemmas.RemovesIff | src/core/ctx.ts:40-58 | The contract of `Context.Removes`, the per-call decision: a call is removed exactly when it has both positions, is a console call, and, for a truthy status, none of the lines it spans is a key of any hunk. |
| ContextLemmas.NoDiffRemovesAll | src/core/ctx.ts:43-50 | With no hunks, every console call with both positions is removed. |
| ContextLemmas.TransformCuts | src/core/ctx.ts:59-67 | For a file past the gate, the output is the code with the removed calls' ranges cut. An offset is cut exactly when it lies in the range of a removed call. |
| ContextLemmas.TransformOutput | src/core/ctx.ts:59-67 | For a file past the gate, the output keeps exactly the code units outside the removed calls' ranges, unchanged and in order. Its length is the input's length minus the size of the union of those ranges. |
| ContextLemmas.GateStopsAll | src/core/ctx.ts:29-30 | A file the gate stops keeps all its calls. |
| ContextLemmas.TransformFileAgrees | src/core/ctx.ts:22-67 | Inside a work tree, reading git's texts agrees with the decision on parsed values: a failed status command rejects; a status that is not truthy cleans with no diff; a truthy status stopped by the gate returns the code; past the gate, a failed diff command or a bad diff header rejects; once the diff is read, a failed parse rejects, and otherwise the diff's hunks and the parsed calls decide. |
| ContextLemmas.TransformFileRejects | src/core/ctx.ts:22-36 | The transform is rejected exactly when the repository check fails, or inside a work tree the status command fails, or past the gate the diff command fails or its diff has a bad header, or past the gate with the diff read (or not needed) the parse fails. |
| ContextLemmas.OutsideWorkTree | src/core/ctx.ts:23-25 | When git answers `false` to the repository check, the code comes back unchanged whatever the other answers are. |
| ContextLemmas.RepoAnswer | src/core/git.ts:308 | The answer `true` plus a newline is a work tree; `false` plus a newline is not. |
| ContextLemmas.ExampleCommitted | src/core/ctx.ts:22-67 | `a;console.log(1);b` with no status and no diff becomes `a;;b`. |
| ContextLemmas.ExampleChanged | src/core/ctx.ts:43-50 | In strict mode, a modified file whose first line is changed keeps its `console.log` call on that line. |
| Removal.CutKeeps | src/core/ctx.ts:59-61 | The contract of `Removal.Cut`: deleting ranges keeps every code unit that no range covers, unchanged and in order, and nothing else. |
| Removal.CutSize | src/core/ctx.ts:59-61 | The output is shorter than the input by the number of covered offsets: the size of the union of the ranges. |
| Removal.CutSameCover | src/core/ctx.ts:59-61 | Only the union of the ranges matters: reordering, repeating or merging ranges that cover the same offsets gives the same text. |
| Removal.NestedRemoval | src/core/ctx.ts:59-61 | Removing a range nested in another removed range (a call inside a removed call) changes nothing. |
| Removal.CutNothing | src/core/ctx.ts:67 | With nothing removed, the text is returned as it is. |
| LineIndex.LineStop | src/utils/string.ts:13-18 | The end of a line is one past its separator, or the end of the text. There is no separator before it. |
| LineIndex.GetLines | src/utils/string.ts:8-31 | The empty string has no records, and any other string has at least one. |
| LineIndex.GetLinesTile | src/utils/string.ts:10-28 | The records tile the text. The first starts at 0, lines are numbered 1, 2, 3, …, and each record starts one past the previous `end`. `end` is the separator's index, or the last index; `raw` is `data[start..end]` inclusive. |
| LineIndex.GetLinesConcat | src/utils/string.ts:11-27 | The `raw` fields put together give back the text exactly. |
| LineIndex.TilesSorted | src/utils/string.ts:10-28 | The records of a text are sorted by `start`, with disjoint ranges. |
| LineIndex.SpecLine | src/utils/string.ts:67-85 | The linear reference search returns the `line` of a record holding the offset, or -1 exactly when none holds it. |
| LineIndex.SpecLineSorted | src/utils/string.ts:67-85 | In sorted, disjoint records, the reference search returns the `line` of the record that holds the offset. |
| LineIndex.GetLineBySpan | src/utils/string.ts:67-85 | The binary search returns the line of a record that holds the offset, or -1. For sorted records it agrees with the reference search, so it returns -1 only when no record holds the offset. |
| LineIndex.SpecLineOfRecords | src/utils/string.ts:8-31 | Over the records of a text, the line of an offset inside the text is 1 plus the number of separators before it. Outside the text there is none. |
| LineIndex.LineOfOffset | src/utils/string.ts:67-85 | Composed with `getLines`, the search gives 1 plus the number of separators before the offset for an offset inside the text, and -1 otherwise. |
| LineIndex.ChunkRecords | src/utils/string.ts:42-63 | Within one chunk, lines are numbered consecutively. Each record's `end` is the offset of its separator, or the chunk's length for the unterminated end of the final chunk. Its `raw` is `s[start..end)` and never contains the separator. An unterminated tail of a chunk that is not the last is carried over instead; it is never empty and has no separator. |
| LineIndex.ChunkRecordsTile | src/utils/string.ts:42-63 | The records tile the chunk from the starting offset: the first starts there, each next one starts just past the previous separator, and what is left after the last separator is either the carried tail of a chunk that is not the last, or nothing. The final chunk leaves nothing over. |
| LineIndex.GetChunkLines | src/utils/string.ts:33-64 | Over a list of chunks, no record's `raw` contains the separator. |
| LineIndex.ChunkLinesRestart | src/utils/string.ts:35-44 | Offsets and line numbers restart in every chunk: the first record read from a chunk starts at offset 0 with line 1, and the chunk's records come first in the rest of the result. |
| LineIndex.ChunkLinesExample | src/utils/string.ts:33-64 | For the chunks `"a\nb\n"` and `"c"`, the records are `a` at line 1, `b` at line 2 (offset 2) and `c` at line 1 (offset 0). |
| CoreUtils.Pieces | src/core/utils.ts:2-17 | The empty string yields no pieces, and any other string yields at least one. |
| CoreUtils.PiecesAreRaws | src/core/utils.ts:2-17 | The pieces of `src/core/utils.ts` are exactly the `raw` fields of the records of `src/utils/string.ts`. |
| CoreUtils.PiecesConcat | src/core/utils.ts:2-15 | The pieces put together give back the input exactly. |
| CoreUtils.PiecesShape | src/core/utils.ts:4-13 | Every piece is non-empty, and the separator can appear only as a piece's last character. Every piece except possibly the last ends with the separator. |
| CoreUtils.ChunkPieces | src/core/utils.ts:19-43 | Pieces of a chunk list never contain the separator. |
| CoreUtils.ChunkPiecesSplit | src/core/utils.ts:19-43 | The pieces of a chunk list are the separator-split fields of the chunks put together, with a trailing empty field dropped. An unterminated tail of a chunk is carried into the next chunk and never yielded alone. |
| CoreUtils.SingleChunkPieces | src/core/utils.ts:19-43 | For one chunk, the pieces are its split fields with a trailing empty field dropped. |
| CoreUtils.CarriedTailExample | src/core/utils.ts:23-37 | `['ab', 'c\nd']` yields `abc` and `d`: the tail `ab` is carried into the next chunk. |
| CoreUtils.ChunkLinesSplit | src/utils/string.ts:33-64 | The `raw` fields of the chunk-list records are the split fields of the chunks put together, with a trailing empty field dropped. |
| CoreUtils.CleanUrl | src/core/utils.ts:46-48 | The result is a prefix of the URL. It ends at the first `?` or `#` that the rest of the URL, up to a line terminator, follows to the end; otherwise it is the whole URL. |
| CoreUtils.CleanUrlPrefix | src/core/utils.ts:46-48 | For a URL without line terminators, the result is the longest prefix containing no `?` and no `#`. |
| CoreUtils.CleanUrlUnchanged | src/core/utils.ts:46-48 | A URL with neither `?` nor `#` is returned unchanged. |
| CoreUtils.CleanUrlIdempotent | src/core/utils.ts:46-48 | Cleaning a cleaned URL changes nothing. |

## Left out

- Git discovery and process execution (`findGit`, `run`, `runGit`, `createGit` in `src/core/git.ts`): these are external processes, the environment and asynchronous I/O. Their answers, including failure, are `Context.GitAnswer` parameters of `Context.TransformFile`; why a command failed is not modelled. The repository check runs once per context in the source; the model takes its answer as a parameter of each transform.
- The parsers in `src/core/parser.ts` and `src/core/parser/` and the AST traverser: these wrap Babel, typescript-eslint and the Vue compiler. The call expressions they produce, or their failure, are the `Context.ParseAnswer` input of `Context.TransformFile`; why a parse failed is not modelled. The traverser visits calls nested inside removed calls too. The model reflects this only through `Removal.NestedRemoval`.
- `createFilter` (which files are transformed) and the editing buffer's source maps: these are foreign libraries. The buffer is modelled only as "delete the union of the ranges".
- Context.Transform: a range that is reversed or reaches outside the code makes the buffer's `remove` throw. The model instead lets such a range cut only the offsets inside both the range and the code.
- Plugin registration (`src/index.ts`, `src/nuxt.ts`), package installation and loading, and `hasOwn`: these are host integration with no decision logic.
- JsNumber.ToNumber: reads only an optional sign followed by decimal digits, with surrounding spaces. Fractions, exponents, `Infinity` and `0x`/`0o`/`0b` numerals read as NaN here, because git prints only decimal numerals in hunk headers. Numbers are exact integers, while JavaScript numbers are doubles: above 2^53 `Number` rounds (`Number('9007199254740993')` is 9007199254740992) and the line counter's `++` stops advancing. Line numbers that large are not modelled, and `JsNumber.ToNumberDecimal` and `JsNumber.Add` are exact where JavaScript is not.
- Context.Options: a `reference` given as a string other than `'*'` is not modelled, because the source then runs string operations on it by accident (`length`, substring `includes`).
- HunkBodyLemmas.HunkNumbering: states the numbering of a whole hunk body only for bodies without deletions. Bodies with deletions are covered run by run, through `GitDiffLemmas.ChangeRun` and `HunkBodyLemmas.StepPlain`.
- LineIndex.GetLineBySpan: the promise that only indices in `[0, |lines|)` are read holds because Dafny checks every index; it is not a separate clause.
- Strings: a `char` here is a Unicode scalar value, while a JavaScript string is a sequence of UTF-16 code units. The model represents each code unit by one `char` (a lone or paired surrogate unit maps to a distinct value outside the Basic Multilingual Plane), so lengths and offsets are counted in code units. No modelled operation inspects a character beyond comparing it with the separators, white space and ASCII letters and digits.
- The separator of both `getLines` is a single character, since both functions step past it with `indexOf + 1`.
