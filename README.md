# llm-paste file viewer — a Dafny model

The `FileViewer` page lets a user drop files into the browser. It reads each
file as text and classifies it by extension into a format name such as
`python` or `typescript`. JSON content is pretty-printed and other text has
its line endings normalised. A file can be copied to the clipboard as a
Markdown fenced code block tagged with its format (CommonMark section 4.5,
"Fenced code blocks"), and all files can be copied at once. This project
models the engine behind that page and proves its behaviour:

- `FileFormat`: `getFileFormat`. ASCII lower-casing, `split('.').pop()`, and a lookup in the 22-entry
  extension table with `"plaintext"` as the fallback.
- `Normalize`: `formatContent`. JSON parsing and printing are parameters `parse: string -> Option<J>`
  and `stringify: J -> string`. The `\r\n` → `\n` rewrite is modelled concretely.
- `Clipboard`: the single-file fenced block and the copy-all text. Only the single-file block
  is proved to read back through the reference reader `ParseFence`; the copy-all text is
  characterised by where each file's segment sits in it.
- `FileList`: the `{name, content, format}` records, what one drop adds to the list, and
  removal by name.
- `Viewer`: class `FileViewer`, whose fields `files`, `copied` (`copiedStates`) and `allCopied`
  are updated by the handlers. The outcome of each file read and of each clipboard write is an
  input to the handler. The 2-second timers become the methods `ResetCopied` and `ResetAllCopied`.
- `Strings`: `join`, `split` with a one-character separator, and a first-index search.
- `Wrappers`: `Option`.

Three behaviours of the code the model keeps:

- "Clear all" (`src/app/page.tsx:206`) empties the list but leaves the per-file copy flags set.
- File names are not unique keys. A drop appends a duplicate name without checking, and
  `removeFile` removes every record with that name.
- `handleCopy` treats an empty file name as falsy. A successful copy with an empty name sets
  the "all copied" flag instead of a per-file flag (`src/app/page.tsx:56-64`).

In the two cases listed under "## Findings" (the extension lookup and a file read that
errors), the main definitions take the intended behaviour, and the code as written is
modelled next to them.

## Model

| member | source | states |
|---|---|---|
| `FileFormat.GetFileFormat` | src/app/page.tsx:11-38 | the format of any name is never empty (the `\|\| 'plaintext'` fallback) |
| `FileFormat.GetFileFormatRange` | src/app/page.tsx:13-37 | the format of any name is `"plaintext"` or one of the table's values |
| `FileFormat.GetFileFormatTable` | src/app/page.tsx:13-37 | `stem.ext` for each of the 22 listed extensions gets that extension's table value, whatever the stem |
| `FileFormat.GetFileFormatOfExtension` | src/app/page.tsx:12-37 | for a dot-free `ext`, the extension of `stem.ext` is lower-cased `ext`; the format is its table value, or `"plaintext"` when it is not in the table |
| `FileFormat.GetFileFormatWithoutDot` | src/app/page.tsx:12 | a name with no `.` is looked up whole (a file named `json` is JSON) |
| `FileFormat.GetFileFormatTrailingDot` | src/app/page.tsx:12-37 | a name ending in `.` has the empty extension and is `"plaintext"` |
| `FileFormat.GetFileFormatIgnoresCase` | src/app/page.tsx:12 | lower-casing the name first does not change its format |
| `FileFormat.GetFileFormatPythonExample` | src/app/page.tsx:18 | `a.py` is `python` |
| `FileFormat.TableKeysPlain` | src/app/page.tsx:13-36 | every table key is lower case and has no `.`, so every entry can be reached |
| `FileFormat.GetFileFormatAsWrittenPrototype` | src/app/page.tsx:37 | as written, an extension naming an inherited `Object.prototype` member yields that member as the format, where the corrected lookup gives `"plaintext"` |
| `FileFormat.GetFileFormatAsWrittenConstructor` | src/app/page.tsx:37 | as written, `notes.constructor` gets the `Object` function as its format, not a string |
| `FileFormat.GetFileFormatAsWrittenAgrees` | src/app/page.tsx:13-37 | the written lookup and the corrected one agree exactly when the extension is not `constructor` or `__proto__` |
| `Strings.Split` | src/app/page.tsx:12 | `split` yields at least one piece, and no piece holds the separator |
| `Strings.JoinSplit` | src/app/page.tsx:12 | joining the pieces of a split with the separator gives the string back |
| `Strings.LastPieceIsAfterLastSeparator` | src/app/page.tsx:12 | `pop()` of the split is a separator-free suffix that is the whole string or follows a separator, so it is the text after the last `.` |
| `Strings.LastPieceWithoutSeparator` | src/app/page.tsx:12 | a string without the separator is its own last piece |
| `Strings.LastPieceAfterSeparator` | src/app/page.tsx:12 | the last piece of `a + "." + b` with dot-free `b` is `b`, whatever `a` is |
| `Normalize.CrlfToLfDeletesCrBeforeLf` | src/app/page.tsx:47 | the rewrite deletes exactly those `\r` immediately followed by `\n` and keeps every other character, in order |
| `Normalize.CrlfToLfUnchanged` | src/app/page.tsx:47 | a string comes back unchanged exactly when it contains no `\r\n` |
| `Normalize.CrlfToLfLength` | src/app/page.tsx:47 | the rewrite never lengthens, and it shortens exactly when there is a `\r\n` |
| `Normalize.CrlfToLfNotIdempotent` | src/app/page.tsx:47 | `"\r\r\n"` becomes `"\r\n"`, which shrinks again if rewritten a second time |
| `Normalize.NoCrWithoutCrlf` | src/app/page.tsx:47 | text without `\r` has no `\r\n` |
| `Normalize.FormatContent` | src/app/page.tsx:40-48 | parsed content becomes the printing of its value; otherwise the result is the content with each CR before an LF deleted, never longer, and equal to the content exactly when it has no CRLF |
| `Normalize.FormatContentWithoutCr` | src/app/page.tsx:45-47 | non-JSON text without `\r` is shown and copied exactly as read |
| `Normalize.FormatContentByParsedValue` | src/app/page.tsx:43-44 | any two texts with the same parsed value normalise to the same text |
| `Normalize.FormatContentJsonStable` | src/app/page.tsx:43-44 | if the printer's output parses back to the same value, normalised JSON keeps the content's parsed value and a second normalisation changes nothing |
| `Clipboard.FenceRoundTrip` | src/app/page.tsx:53 | the single-copy block of a format without line feeds reads back as exactly that format (info string) and content |
| `Clipboard.ParseFenceSound` | src/app/page.tsx:53 | any text the fence reader accepts is exactly the block built from the info string and content it returns |
| `Clipboard.SingleCopyRoundTrip` | src/app/page.tsx:243-247 | the copy button's payload for a classified file reads back as its format and normalised content |
| `Clipboard.FormatNamesHaveNoLineFeed` | src/app/page.tsx:13-37 | no format the classifier returns holds a line feed, so each fits the opening fence line |
| `Clipboard.SegmentIsHeaderAndFence` | src/app/page.tsx:72 | a copy-all segment is the name, a blank line, the single-copy block and a line feed; its length follows |
| `Clipboard.FileSegmentWrapsSingleCopy` | src/app/page.tsx:71-73 | a file's copy-all segment wraps exactly what its own copy button writes |
| `Clipboard.CopyAllEmpty` | src/app/page.tsx:71-73 | copy-all of an empty list is `""` |
| `Clipboard.CopyAllSingle` | src/app/page.tsx:71-73 | copy-all of one file is its segment alone, with no separator |
| `Clipboard.CopyAllSnoc` | src/app/page.tsx:71-73 | one more file at the end adds `"\n"` and that file's segment at the end |
| `Clipboard.CopyAllSegmentAt` | src/app/page.tsx:71-73 | the i-th file's segment occurs at offset `PieceOffset(i)` of the copy-all text |
| `Clipboard.CopyAllNameAt` | src/app/page.tsx:71-73 | each file's name opens its own segment, and the next segment starts one line feed after it, so the segments appear in list order |
| `Clipboard.CopyAllLength` | src/app/page.tsx:71-73 | the copy-all text is as long as its segments plus one line feed between each pair |
| `FileList.Ingest` | src/app/page.tsx:99-118 | a drop contributes at most one record per dropped file |
| `FileList.IngestClassified` | src/app/page.tsx:109-114 | every ingested record carries the format of its own name |
| `FileList.IngestAppend` | src/app/page.tsx:101-118 | ingestion distributes over concatenation of drops, so records keep drop order |
| `FileList.IngestLength` | src/app/page.tsx:99-118 | exactly one record per successful read and none per failed one; names are not de-duplicated |
| `FileList.IngestMembers` | src/app/page.tsx:101-118 | a record is ingested exactly when some dropped file with that name read that content |
| `FileList.IngestAllLoaded` | src/app/page.tsx:101-114 | when every read succeeds, the i-th record is the i-th dropped file |
| `FileList.IngestNoneLoaded` | src/app/page.tsx:115-117 | when every read fails, nothing is added |
| `FileList.IngestSkipsFailedRead` | src/app/page.tsx:101-118 | of three dropped files with the middle one unreadable, exactly the other two are added, in order |
| `FileList.IngestAsWrittenStalls` | src/app/page.tsx:103-107 | as written, a drop completes exactly when no read ends in a reader error |
| `FileList.IngestAsWrittenAgrees` | src/app/page.tsx:101-120 | without reader errors, the written loop and `Ingest` add the same records |
| `FileList.IngestAsWrittenLosesReadableFile` | src/app/page.tsx:103-120 | one readable file and one reader error: as written nothing is added, while `Ingest` adds the readable file |
| `FileList.RemoveNamed` | src/app/page.tsx:124 | a record survives exactly when it was in the list and has another name |
| `FileList.RemoveNamedAppend` | src/app/page.tsx:124 | removal works piecewise, so the kept records stay in their original order |
| `FileList.RemoveNamedUnchanged` | src/app/page.tsx:124 | the list is unchanged exactly when no record has the name |
| `FileList.RemoveNamedIdempotent` | src/app/page.tsx:124 | removing the same name twice is removing it once |
| `FileList.RemoveNamedClassified` | src/app/page.tsx:124 | removal keeps every record classified by its name |
| `Viewer.FileViewer.constructor` | src/app/page.tsx:6-9 | the session starts with no files and no flags set |
| `Viewer.FileViewer.Drop` | src/app/page.tsx:94-121 | the old list is an unchanged prefix of the new one; what follows is `Ingest` of the drop (one record per read file, in drop order); the flags are untouched; the loop keeps the collected records equal to `Ingest` of the files seen so far; this is the corrected ingestion, which skips a file whose reader errors, and when no read errors the appended records are exactly `IngestAsWritten` of the drop |
| `Viewer.FileViewer.RemoveFile` | src/app/page.tsx:123-125 | the list becomes `RemoveNamed` of the old one; the flags are untouched |
| `Viewer.FileViewer.ClearAll` | src/app/page.tsx:206 | the list becomes empty; the copy flags are untouched |
| `Viewer.FileViewer.Copy` | src/app/page.tsx:51-68 | the payload is the fenced block; a successful copy sets the named file's flag (or `allCopied` for an empty name) and leaves every other key unchanged; a failed copy changes nothing |
| `Viewer.FileViewer.CopyFile` | src/app/page.tsx:243-247 | the copy button of the i-th file writes `SingleCopyPayload` of it and sets its flag on success; on a classified list the payload reads back as the file's format and normalised content, and the list stays classified |
| `Viewer.FileViewer.ShowsCopied` | src/app/page.tsx:252 | the own "Copied!" flag of a name: set by a successful `Copy` of that name, cleared by `ResetCopied` |
| `Viewer.FileViewer.ResetCopied` | src/app/page.tsx:58-60 | the file's flag becomes false; nothing else changes |
| `Viewer.FileViewer.CopyAll` | src/app/page.tsx:70-82 | the payload is `CopyAllPayload` of the current list; success sets `allCopied`; the list and per-file flags are untouched |
| `Viewer.FileViewer.ResetAllCopied` | src/app/page.tsx:62-63 | `allCopied` becomes false; nothing else changes |

## Left out

- JSX rendering, CSS classes, the `FileTypeIcon` colour table and the `isDragging` drag state: these are presentation only.
- `navigator.clipboard.writeText` and `FileReader`: host I/O. Each clipboard write is a `written` flag given to the handler, and each read is a `ReadOutcome` (`Loaded`, `Rejected` when the promise executor throws, `Errored` for a reader `error` event).
- The 2000 ms `setTimeout` resets: timing. Each is an explicit reset method. Overlapping timers, and a reset arriving after a later copy, are not modelled.
- The asynchronous interleaving of a drop with other handlers: the model runs each handler to completion. A removal made while a drop is still reading is not modelled, and neither is `removeFile` reading a stale `files` closure.
- The internals of `JSON.parse` and `JSON.stringify`: foreign library code. They are the parameters `parse` and `stringify`, so the model only decides which branch runs. It does not say which texts are JSON, so content that parses (a bare number or a quoted string) is re-printed, just as in the source. The read-back hypothesis of `FormatContentJsonStable` (`parse(stringify(v)) == Some(v)`) does not hold for the real pair: a number outside double range such as `1e400` parses to `Infinity`, which prints as `null`, and `-0` comes back as `0`. For such files the source does not keep the value either.
- FileFormat.Lower: `toLowerCase` is modelled as ASCII-only lower-casing. Unicode case mapping is not modelled.
- The size display `(length / 1024).toFixed(1)`: floating point and presentation only.
- `console.error` logging on failures.
- Viewer.FileViewer.Drop: runs the corrected ingestion `Ingest`, not the loop as written; a reader `error` event skips the file instead of leaving the drop pending forever (see the second finding). Its contract ties it to the loop as written only when no read errors.
- Viewer.FileViewer.ShowsCopied: reads only the flags the copy handlers set. As written, `copiedStates[file.name]` on the `{}` literal also finds inherited `Object.prototype` members, so a file named after any `Object.prototype` member (such as `constructor`, `toString`, `valueOf`, `__proto__`) shows "Copied!" before any copy; this inherited-key case is not modelled.
- The number of entries in the table is not stated as a lemma. The table is written out entry for entry, as in the source.
- The fenced block does not escape backticks in the content: a content line of three backticks closes the block early for a CommonMark reader. The model reproduces this. `ParseFence` takes the last line as the closing fence, so it does not capture this CommonMark behaviour.

## Findings

| source | as written | input that shows it | evidently intended | confidence | as-written member | corrected member |
|---|---|---|---|---|---|---|
| src/app/page.tsx:37 | `formatMap[ext]` reads a plain object literal, so an extension naming an inherited `Object.prototype` property returns that property (truthy, not a string) | a file named `notes.constructor` gets the `Object` function as its format, and `x.__proto__` gets the prototype object | look up the table's own entries only, so both names are `"plaintext"` | not executed | `FileFormat.GetFileFormatAsWrittenConstructor` | `FileFormat.GetFileFormat` |
| src/app/page.tsx:103-107 | the read promise resolves only on the reader's `load` event; on an `error` event it never settles, so the loop stops at that file, line 120 never runs, and the `catch` at line 115 is never reached | drop `a.py` (readable) then `b.py` (read error): nothing is added, not even `a.py` | skip the unreadable file and add the others, in drop order | not executed | `FileList.IngestAsWrittenLosesReadableFile` | `FileList.Ingest` |
