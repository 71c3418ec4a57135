# Todoist CSV export to HTML pages — a verified model

The `todoist` command of this CLI reads a CSV file exported from Todoist. It groups its rows into
tasks, each with its notes, and writes one HTML page per task into `./output/<name of the CSV
file>/`. The model covers that command:

* **Record assembly** (`Assembler`). The CSV rows are already parsed into maps from column name to
  cell text. They are folded into tasks by an imperative loop (`Assembler.Assemble`). That loop is
  proved equal to a functional specification (`Assembler.Group`), and the lemmas are stated about
  that specification:
  * there is one task per task row;
  * notes go, in order, under the most recent task;
  * other rows leave no trace;
  * a note before any task makes assembly fail. In the source this is the dereference of
    `undefined`, and it is modelled as an `Err`.
* **Title extraction** (`Text`, `Patterns`, `Extract`). Every regular expression of the command is
  written out as a hand-made scanner with JavaScript semantics:
  * `\s` and `trim` use ECMAScript's WhiteSpace and LineTerminator sets;
  * `\w` is ASCII only;
  * `\b`/`\B` are defined from `\w`;
  * `.` excludes line terminators.

  Each scanner (`MatchAt`) is proved equal to a declarative description of the match the engine
  picks (`Matches`): greedy runs, backtracking for the label pattern, and the lazy group of the
  bracket pattern. Generic functions then give the remaining regex behaviour:
  * `FirstMatch` finds the leftmost match;
  * `Scan` finds the successive leftmost matches of a `g` pattern;
  * `ReplaceAll` is a global replace by the empty string. It is proved to delete exactly the
    spans of the scan.

  The title steps follow: trimming, unwrapping the first bracket pair, removing the first slash, and
  the `FIX_ME` fallback.
* **Document assembly** (`Document`). The page is built from four parts: the hashtag header (extra
  labels first), the optional link line, the notes folded in order, and the HTML shell. Then every
  line feed is replaced by `<br/>`. `Document.PageLayout` gives the finished page piece by piece
  and shows that it holds no line feed.
* **Writing the pages** (`Export`, `OutputDir`). The output folder is a class whose map field goes
  from path to content. `FreeName` is the loop that appends `E` until the path is free. `Export` is
  the handler's loop. No existing file is overwritten, no two tasks of one run share a file, and each
  name is the title with the fewest `E`s that was free. The folder name comes from the CSV path
  through the pattern `.*\/(.*?)\.csv` (`OutputDir.OutputDirName`).

Missing CSV cells are `undefined` in JavaScript. They are modelled as `Option<string>`. A missing
note date, note content or ingredient list is rendered as the text `undefined`, as a template
literal does. A task without a `CONTENT` cell makes `Transform` fail, because calling `match` on
`undefined` throws.

Three consequences of the code are worth stating plainly:

* Ingredient-list removal is global. The removal pattern has the `g` flag, so every list is removed,
  not only the first (`Extract.RemoveIngredientListDeletesEveryMatch`).
* `replace("/", "")` has a string pattern, so only the first `/` of a title is removed
  (`Extract.RemoveFirstSlashSpec`).
* For `"Fix bug (https://example.com/x) now"`, removing the URL leaves two spaces between "bug" and
  "now", and `trim` only removes whitespace at the ends. So the title is `"Fix bug  now"`, with both
  spaces.

## Model

| member | source | states |
|---|---|---|
| Assembler.Group | src/commands/todoist.ts:85-104 | the grouping of the rows into tasks as a fold; what it yields is stated by `GroupOpensTask`, `GroupAppendsNote`, `GroupIgnoresOtherRows`, `GroupFailsOnOrphanNote` and `GroupFlattensToRows` |
| Assembler.Assemble | src/commands/todoist.ts:85-104 | the loop's result equals the fold `Group` over the rows, including the failure on an orphan note |
| Assembler.GroupFailureSticks | src/commands/todoist.ts:97 | once a prefix of the rows fails, the whole input fails with the same error |
| Assembler.GroupIgnoresOtherRows | src/commands/todoist.ts:89-101 | a row that is neither a task nor a note leaves the tasks unchanged |
| Assembler.GroupOpensTask | src/commands/todoist.ts:90-95 | a task row appends a task with the row's CONTENT and DESCRIPTION and no notes |
| Assembler.GroupAppendsNote | src/commands/todoist.ts:96-100 | a note row appends, last, a note with the row's CONTENT and DATE to the most recent task; the other tasks and the task count are unchanged |
| Assembler.GroupCountsTasks | src/commands/todoist.ts:89-95 | on success there are exactly as many tasks as task rows |
| Assembler.GroupFailsOnOrphanNote | src/commands/todoist.ts:97 | assembly fails if and only if some note row has no task row before it |
| Assembler.GroupFlattensToRows | src/commands/todoist.ts:89-101 | writing each task followed by its notes gives back the task and note rows in input order, so every note sits under the task that most recently preceded it |
| Text.RunEnd | src/commands/todoist.ts:108 | a greedy character-class run ends at the first character outside the class |
| Text.Trim | src/commands/todoist.ts:59-60 | `trim` returns a substring with only whitespace around it in the input, without whitespace at either end, and empty exactly when the input is all whitespace |
| Text.TrimIdempotent | src/commands/todoist.ts:59-60 | trimming twice is trimming once |
| Patterns.UrlAtCorrect | src/commands/todoist.ts:108 | the URL scanner matches exactly `http://` or `https://` followed by a maximal non-empty run of characters that are neither whitespace nor `)` |
| Patterns.WrappedUrlAtCorrect | src/commands/todoist.ts:117 | the removal scanner matches exactly a URL with an optional `(` before it and an optional `)` after it |
| Patterns.ListAtCorrect | src/commands/todoist.ts:136-144 | the list scanner matches exactly `(` + a body in the list language + `)`, with `'` admitted only by the removal pattern |
| Patterns.LabelAtCorrect | src/commands/todoist.ts:122-131 | the label scanner matches exactly `@` at a `\B` position and the longest run of label characters whose end is a word boundary not followed by `;` |
| Patterns.BracketAtCorrect | src/commands/todoist.ts:59 | the bracket scanner matches exactly an opener, the shortest line-terminator-free run, and a closer of either kind |
| Patterns.MatchAtCorrect | src/commands/todoist.ts:106-145 | for every pattern, the scanner returns an end exactly when the declarative description of the engine's match holds for it |
| Patterns.FirstMatch | src/commands/todoist.ts:112-113 | a search returns a non-empty span inside the input, starting no earlier than the search start |
| Patterns.FirstMatchLeftmost | src/commands/todoist.ts:112-113 | the search finds a match with no match starting earlier, and finds none exactly when none exists |
| Patterns.ScanLeftmost | src/commands/todoist.ts:126-131 | each span of a global scan is the leftmost match after the end of the previous one |
| Patterns.ReplaceAllDeletesScan | src/commands/todoist.ts:116-117 | a global replace by "" deletes exactly the spans of the global scan and keeps all text between them |
| Extract.GetURL | src/commands/todoist.ts:106-114 | a captured URL starts with `http://` or `https://` and holds only URL characters |
| Extract.UrlMatchChars | src/commands/todoist.ts:108 | every character of a URL match, scheme included, is neither whitespace nor `)` |
| Extract.GetURLIsLeftmost | src/commands/todoist.ts:106-114 | the captured URL is the leftmost URL match, and there is none exactly when no URL occurs |
| Extract.RemoveURLs | src/commands/todoist.ts:116-118 | `removeURLs` never lengthens the text; what it deletes is stated by `RemoveURLsDeletesEveryMatch` |
| Extract.RemoveURLsDeletesEveryMatch | src/commands/todoist.ts:116-118 | `removeURLs` deletes every URL, with its optional `(` and `)`, as successive leftmost matches |
| Extract.GetIngredientList | src/commands/todoist.ts:134-141 | a captured list is in the list language of the capture pattern |
| Extract.IngredientListIsLeftmost | src/commands/todoist.ts:134-141 | the capture is the inside of the leftmost ingredient list, since the match is not global |
| Extract.IngredientListAbsent | src/commands/todoist.ts:139-140 | there is no capture exactly when no parenthesised list occurs |
| Extract.IngredientListShape | src/commands/todoist.ts:134-141 | a captured list t occurs as "(" + t + ")", holds a comma, has whitespace after every comma, and neither starts nor ends with a comma |
| Extract.RemoveIngredientList | src/commands/todoist.ts:143-145 | `removeIngredientList` never lengthens the text; what it deletes is stated by `RemoveIngredientListDeletesEveryMatch` |
| Extract.RemoveIngredientListDeletesEveryMatch | src/commands/todoist.ts:143-145 | removal deletes every list of a global scan, not only the first |
| Extract.CapturedListIsRemovable | src/commands/todoist.ts:136-144 | every list the capture accepts is accepted by the removal pattern at the same place |
| Extract.GetLabels | src/commands/todoist.ts:120-128 | the labels of a global match, `@` dropped; stated by `LabelsAreRemovedTokens` and `LabelsAreWords` |
| Extract.RemoveLabels | src/commands/todoist.ts:130-132 | `removeLabels` never lengthens the text; what it deletes is stated by `LabelsAreRemovedTokens` |
| Extract.LabelsAreRemovedTokens | src/commands/todoist.ts:120-132 | the k-th label is the k-th token of the global scan without its `@`; every token is `@` and label characters, not followed by `;`; and removal deletes exactly those tokens |
| Extract.LabelsAreWords | src/commands/todoist.ts:120-128 | every label is non-empty and made of ASCII letters, `-` and `_` |
| Extract.LabelBacktracking | src/commands/todoist.ts:122 | `@a-b;` yields the label `a-`, and `@foo;` yields no label |
| Extract.UnwrapFirstBracket | src/commands/todoist.ts:59 | the non-global bracket replace; stated by `UnwrapOnlyFirst` |
| Extract.UnwrapOnlyFirst | src/commands/todoist.ts:59 | only the leftmost bracketed segment is unwrapped, losing only its two delimiters; without one the title is unchanged |
| Extract.RemoveFirstSlash | src/commands/todoist.ts:60 | `replace("/", "")`; stated by `RemoveFirstSlashSpec` |
| Extract.RemoveFirstSlashSpec | src/commands/todoist.ts:60 | only the first `/` is removed; without one the title is unchanged |
| Extract.FinishTitle | src/commands/todoist.ts:59-61 | the bracket unwrap, the slash removal, both trims and the `FIX_ME` fallback; stated by `FinishTitleNonEmpty` |
| Extract.FinishTitleNonEmpty | src/commands/todoist.ts:59-61 | the finished title is never empty; it is `FIX_ME` when cleanup leaves nothing, and otherwise has no surrounding whitespace |
| Document.SplitTitle | src/commands/todoist.ts:47-57 | the three extraction stages never lengthen the title |
| Document.Tagged | src/commands/todoist.ts:68 | each label becomes "#" + label, in the same order |
| Document.JoinAppend | src/commands/todoist.ts:68 | joining two non-empty lists puts exactly one separator between them |
| Document.Hashtags | src/commands/todoist.ts:68 | `concat(...).map(...).join(" ")`; stated by `HashtagsExtraFirst` and `HashtagsExample` |
| Document.HashtagsExtraFirst | src/commands/todoist.ts:68 | the header is the extra labels' hashtags, a space, then the extracted labels' hashtags |
| Document.HashtagsExample | src/commands/todoist.ts:68 | extra label `meal` with labels `quick`, `dinner` gives `#meal #quick #dinner` |
| Document.Anchor | src/commands/todoist.ts:69 | the link line is empty exactly when no URL was captured |
| Document.FoldNotes | src/commands/todoist.ts:70-71 | the reduce over the notes; stated by `FoldNotesAppendsBlocks` |
| Document.FoldNotesAppendsBlocks | src/commands/todoist.ts:70-71 | the reduce appends one block per note, in note order, after the header |
| Document.BreakLines | src/commands/todoist.ts:74 | `replace(/\n/g, "<br/>")`; stated by `BreakLinesNoLineFeed`, `BreakLinesAppend` and `BreakLinesKeeps` |
| Document.BreakLinesNoLineFeed | src/commands/todoist.ts:74 | after the replacement no line feed is left, and the result is no shorter than the input |
| Document.BreakLinesAppend | src/commands/todoist.ts:74 | the replacement distributes over concatenation |
| Document.BreakLinesKeeps | src/commands/todoist.ts:74 | text without a line feed is left as it is |
| Document.NoteBlocksBreak | src/commands/todoist.ts:70-74 | after replacement the notes read `<br/></b>date</b>:<br/><br/>content<br/>`, in order, with the stray `</b>` kept |
| Document.AnchorBreak | src/commands/todoist.ts:69-74 | the link line survives replacement verbatim apart from its two trailing line breaks |
| Document.RenderLayout | src/commands/todoist.ts:68-74 | the page after replacement is the shell, title, ingredient list, header, link and notes, piece by piece |
| Document.Transform | src/commands/todoist.ts:47-74 | one iteration's conversion of a task into its base name and page; stated by `TransformTitle` and `PageLayout` |
| Document.PageHtml | src/commands/todoist.ts:68-74 | the page text built from its parts; stated by `RenderLayout` and `PageLayout` |
| Document.TransformTitle | src/commands/todoist.ts:48-61 | a task converts exactly when it has a title cell, and its base name is then non-empty and trimmed or `FIX_ME` |
| Document.PageLayout | src/commands/todoist.ts:47-74 | the finished page: title, ingredient list (`undefined` when none), hashtags with extra labels first, the link exactly when a URL was captured, the notes in order, and no line feed anywhere |
| Export.Es | src/commands/todoist.ts:77 | k appended letters are k letters `E` |
| Export.PagePath | src/commands/todoist.ts:76 | the page path's length accounts for folder, name and fixed parts |
| Export.PagePathInjective | src/commands/todoist.ts:76-80 | within one folder, equal page paths mean equal names |
| Export.OutputFolder.constructor | src/commands/todoist.ts:42-44 | the folder is named from the CSV path and starts with the files already there |
| Export.OutputFolder.FreeName | src/commands/todoist.ts:76-78 | the chosen name is the title plus k `E`s, is free, and every name with fewer `E`s is taken |
| Export.OutputFolder.Write | src/commands/todoist.ts:80 | writing sets the page path's content and changes nothing else |
| Export.OutputFolder.Place | src/commands/todoist.ts:76-80 | a page goes to the first free name, at a path that did not exist before |
| Export.SameTitleTwice | src/commands/todoist.ts:76-80 | two pages titled alike, written into an empty folder under the loop's guarantees, are named `title` and then `titleE` |
| Export.OutputFolder.WriteAll | src/commands/todoist.ts:45-81 | the loop writes each converted page under the name with the fewest `E`s that was free when it was written (each shorter name existed before or went to an earlier page), stops at the first failed conversion, never writes an existing or an already-written path, and adds exactly the written paths |
| Export.OutputFolder.Export | src/commands/todoist.ts:36-81 | an assembly failure writes nothing; otherwise pages are written in task order until a task without a title, each under its title with the fewest `E`s that was free when it was written, with pairwise distinct names, no overwrite, and existing files unchanged |
| OutputDir.OutputDirName | src/commands/todoist.ts:42 | the single replace that names the output folder; stated by `OutputDirUnmatched` and `OutputDirOfPath` |
| OutputDir.DirMatchAtCorrect | src/commands/todoist.ts:42 | the scanner finds the match the engine picks at a start (last qualifying `/`, then first `.csv` after it), and none exactly when no match exists there |
| OutputDir.FirstDirMatch | src/commands/todoist.ts:42 | the match used is the leftmost one |
| OutputDir.OutputDirUnmatched | src/commands/todoist.ts:42 | a path without a `/` followed by `.csv` on the same line is used unchanged |
| OutputDir.OutputDirOfPath | src/commands/todoist.ts:42 | `folder/name.csv` on one line, with no `/` and no earlier `.csv` in the name, gives `name` |

## Left out

- Reading and parsing the CSV file is not modelled. This covers `readCSVFile`, the `csv` parser, `get-stream` and `ensureFileExists`. The rows are taken as already-parsed maps. src/util/file_util.ts is not part of this model.
- Directory creation (`writeDir`) and the file system are not modelled. The folder is a map from path to content. `fs.existsSync` becomes membership and `writeFile` becomes a map update.
- Export.OutputFolder.Write: never fails. In the source, `writeFile` rejects when the target directory does not exist, and the `await` then ends the run, so later tasks are not written. This happens, for example, for a title whose remaining `/` (only the first is removed) names a sub-directory that is not there: `1/2 cup/beans` becomes `12 cup/beans`, and the write to `./output/<dir>/12 cup/beans.html` fails. The model treats the path as an opaque string, and its write always succeeds and the loop goes on.
- The yargs `command`, `desc` and `builder` wiring is left out. So are the `console.log` progress lines and `JSON.stringify`. None of them affects the pages.
- `async`/`await` is left out. The loop is modelled as sequential, and nothing runs concurrently.
- JavaScript strings are sequences of UTF-16 code units. The model works on characters, so a character outside the Basic Multilingual Plane is one element here rather than two. No pattern names such a character, so the matches are the same.
- Export.OutputFolder.Export: the handler receives a run-time exception for an orphan note or a title-less task. The model returns it as an error value. The pages written before the failure stay written, as in the source.
- Document.SplitTitle: states only that the title does not grow. What each stage captures and removes is stated by the lemmas on the `Extract` functions it calls.
