# dufsx front end: upload scheduler and string helpers, in Dafny

This project models the core of `assets/index.js`, the browser script of the
dufsx file server, and proves properties of the model.

- **Upload scheduler** (`uploader.dfy`). Each file becomes an `Uploader` task.
  - A task gets its id from a global counter and its URL from `newUrl`.
  - Tasks wait in a FIFO queue. Each call of `runQueue` starts the head of
    the queue, at most one task, when the counter `runnings` is below
    `DUFS_MAX_UPLOADINGS`. The counter is admissions by `runQueue` minus
    finishes, retried transfers' finishes included. A retry sends without
    being admitted, so the counter undercounts and more transfers can run
    than the limit (`Scenarios.RetryExceedsLimit`).
  - The first start probes authentication. A failed probe re-arms it.
  - A transfer is a `PUT` of the whole file, or a `PATCH` with
    `X-Update-Range: append` from the offset that a `HEAD` request reports.
  - A finished transfer (`complete`) or a failed one (`fail`) frees its slot.
    A failed task is filed under its id for its retry button.
  - `complete` clears the task's status cell (`$uploadStatus = null`). A later
    `complete` or `fail` of the same task throws on it before changing
    anything. The model keeps the cell as the flag `hasStatusCell`.
  - The class statics (`globalIdx`, `runnings`, `auth`, `queues`) and the
    global `failUploaders` map are the fields of one `UploadSession` object.
    `Uploader` is a class with the per-task fields.
- **Helpers**:
  - `extName`, `padZero`, `formatDuration`, `formatDirSize`, `encodedStr`,
    `getEncoding`, `detectLanguage`, `isMarkdownFile` and `getFileType`
    (`helpers.dfy`);
  - `newUrl`, `baseUrl` and a concrete `encodeURIComponent` (`url.dfy`);
  - the editor's `formatCode` (`editor.dfy`);
  - the sidebar's `buildTreeStructure` (`tree.dfy`).
- **JavaScript primitives they rely on** (`text.dfy`): `String(n)`,
  `parseInt`, `lastIndexOf`, `split`/`join` on one character, `trim` and
  `toLowerCase`. `Text.IndexOf` (the first position of a character) is not
  a primitive the helpers call; it is the proof helper that locates the end
  of `split`'s first field. `jsobject.dfy` models property lookup on an
  object literal, which also finds the members inherited from
  `Object.prototype`.
- **Scenarios** (`scenarios.dfy`): runs of the scheduler with one slot,
  stated as what the methods' contracts imply.

The browser and the network are parameters:

- the outcome of the authentication probe (`authProbeOk`);
- the status a transfer ends with;
- the answer to `HEAD`, where `None` means the request failed;
- the page URL (`href`).

`formatCode` and `buildTreeStructure` are loops in the source, so they are
methods here. Each is proved equal to a function (`Formatted`, `Build`), and
the properties are lemmas about that function.

The Python test `/:\s*$/` of `formatCode` runs on a line that is already
trimmed, so it is the test "ends with `:`", and the model states it so.

## Model

| member | source | states |
|---|---|---|
| Helpers.ExtName | assets/index.js:2220-2228 | The extension is non-empty exactly when the last `.` is neither the first nor the last character. It is then the suffix from that dot. |
| Helpers.ExtNameOfLower | assets/index.js:2220-2228 | Taking the extension commutes with lower-casing the name. |
| Helpers.PadZero | assets/index.js:2254-2256 | For `size > 0` the result has exactly `size` characters, all digits. |
| Helpers.PadZeroValue | assets/index.js:2254-2256 | Read back, the padded text is `value mod 10^size`: shorter values survive and longer ones lose their leading digits. |
| Helpers.PadZeroSizeZero | assets/index.js:2254-2256 | With `size` 0, `slice(-0)` keeps the whole text: the unpadded digits. |
| Helpers.Ceil | assets/index.js:2277 | `Math.ceil`: the least integer not below `x`. |
| Helpers.Hms | assets/index.js:2278-2280 | Hours, minutes and seconds recombine to the total, with minutes and seconds below 60. |
| Helpers.FormatDuration | assets/index.js:2276-2282 | Eight characters with `:` at positions 2 and 5. |
| Helpers.DurationFields | assets/index.js:2281 | Each two-digit field reads back as its component modulo 100. |
| Helpers.HoursWrap | assets/index.js:2278-2281 | Keeping only the last two digits of the hours gives the total modulo 360000 seconds. |
| Helpers.FormatDurationReadsBack | assets/index.js:2276-2282 | The text is `HH:MM:SS` and reads back as the ceiled seconds modulo 100 hours. Minutes and seconds read below 60. |
| Helpers.FormatDurationExact | assets/index.js:2276-2282 | Below 100 hours the text reads back as exactly the ceiled seconds. |
| Helpers.DirSizeCount | assets/index.js:2260 | The count field holds no space. |
| Helpers.CapText | assets/index.js:2260 | `MAX_SUBPATHS_COUNT - 1` prints as `999`. |
| Helpers.DirSizeFields | assets/index.js:2258-2262 | The text splits at spaces into an empty field, the count and the unit. |
| Helpers.FormatDirSizeReadsBack | assets/index.js:2258-2262 | The text of `formatDirSize` (`FormatDirSize`) has three space-separated fields. The unit is `item` exactly when the size is 1. Below the cap the count reads back as the size; at or above it, the count is `>999` and does not parse as a number. |
| Helpers.EncodedStr | assets/index.js:2292-2296 | The output holds no `<`, no `>` and no character in U+00A0 to U+9999. |
| Helpers.CharRefAtRef | assets/index.js:2294 | The reference `&#n;` written for a character reads back as that character, whatever follows it. |
| Helpers.EncodedStrRoundTrip | assets/index.js:2292-2296 | Decoding the character references of `encodedStr(s)` gives back `s`. |
| Helpers.GetEncoding | assets/index.js:2304-2313 | The result is non-empty and lower-case. With no header, or a header without `;`, it is `utf-8`. |
| Helpers.EncodingOfField | assets/index.js:2306-2312 | The encoding read from the second field is non-empty and lower-case. |
| Helpers.SecondFieldOf | assets/index.js:2305 | The second `;` field of `type;FIELD`, alone or followed by further `;` fields, is `FIELD`. |
| Helpers.MentionsCharset | assets/index.js:2306 | A field that passes the case-insensitive `charset` test before its `=` still passes it with the value appended. |
| Helpers.EncodingOfCharsetField | assets/index.js:2306-2310 | From a field `KEY=NAME` whose key mentions `charset` in any case, the encoding is `NAME` lower-cased. |
| Helpers.SecondField | assets/index.js:2305 | `contentType?.split(";")[1]` is missing for a missing header and for a header without `;`. |
| Helpers.GetEncodingReadsCharset | assets/index.js:2304-2313 | A header `type;KEY=NAME` yields `NAME` lower-cased, with or without a space (or other text) before the key, with the key `charset` in any case, and with or without further `;` parameters after it. |
| Helpers.GetEncodingFallback | assets/index.js:2304-2313 | A header whose second `;` field does not mention `charset` yields `utf-8`, even when a later field names a charset: only `split(";")[1]` is read. |
| Helpers.DetectLanguage | assets/index.js:1155-1192 | The corrected lookup: the result is `text` or one of the table's languages. |
| Helpers.LastOfSplit | assets/index.js:1158 | The last field of a split is what follows the last separator. |
| Helpers.LanguageKeyOfExtension | assets/index.js:1158 | The key looked up (`LanguageKey`) for `stem.ext` is `ext` lower-cased. |
| Helpers.DetectLanguageOfExtension | assets/index.js:1155-1192 | A path ending in `.ext`, for any extension without a dot and in any mix of cases, gets the table's language for `ext` lower-cased, or `text` when the table has none; so it gets the same language as the path with the extension lower-cased. |
| Helpers.DetectLanguageAgrees | assets/index.js:1155-1192 | When the key is not an inherited member, the code as written (`DetectLanguageAsWritten`) and the corrected lookup agree. |
| Helpers.DetectLanguageAsWrittenInherited | assets/index.js:1155-1192 | For `a.constructor` the code as written yields the inherited `constructor` member. The corrected lookup yields `text`. |
| Helpers.TypeOfExtension | assets/index.js:663-677 | The type is image, video, audio, PDF, markdown or plain text exactly when the image, video, audio, PDF, markdown or text list holds the extension. It is binary exactly when no list holds it, and anything shorter than two characters is binary. |
| Helpers.GetFileType | assets/index.js:661-678 | Each type is given exactly by its list holding the file's lower-cased extension; binary exactly when no list holds it. Without an extension a file is binary. |
| Helpers.GetFileTypeMarkdown | assets/index.js:656-668 | The type is markdown exactly when `isMarkdownFile` (`IsMarkdownFile`) holds: no earlier list shadows a markdown extension. |
| Helpers.FileTypeIgnoresCase | assets/index.js:661-678 | Lower-casing the file name does not change its type. |
| Url.BaseUrl | assets/index.js:2212-2214 | The result is the prefix of the page URL before its first `?` or `#`, and contains neither character. |
| Url.Directory | assets/index.js:2206-2207 | The result is `baseUrl()` itself when that ends in `/`, and `baseUrl()` with one `/` appended otherwise; it holds no `?` or `#`. |
| Url.Utf8Value | assets/index.js:2208 | The UTF-8 bytes of a character form one well-formed sequence whose value is the character. |
| Url.DecodeUtf8Bytes | assets/index.js:2208 | Decoding the UTF-8 bytes of a string gives back the string. |
| Url.PercentByte | assets/index.js:2208 | `%XX` has upper-case hexadecimal digits that denote the byte. |
| Url.PercentDecodeFirst | assets/index.js:2208 | The first byte's `%XX` escape decodes to that byte, in front of whatever follows. |
| Url.PercentDecodeBytes | assets/index.js:2208 | Percent-decoding the `%XX` escapes of some bytes gives back those bytes. |
| Url.EncodeUriComponent | assets/index.js:2208 | Every output character is unreserved or `%`. |
| Url.EncodeUriComponentDecodes | assets/index.js:2208 | Percent-decoding `encodeURIComponent(s)` gives the UTF-8 bytes of `s`. |
| Url.EncodeUriComponentInjective | assets/index.js:2208 | Two strings with the same encoding are equal. |
| Url.EncodeSegments | assets/index.js:2208 | `map(encodeURIComponent)`: one encoded segment per segment, in order. |
| Url.UrlPathSegments | assets/index.js:2208 | The appended path (`UrlPath`) splits at `/` into exactly the encoded segments of the name. |
| Url.UrlPathDecodes | assets/index.js:2208 | Each encoded segment decodes to the UTF-8 bytes of its segment. |
| Url.NewUrlParts | assets/index.js:2205-2210 | `newUrl(name)` (`NewUrl`) is the page's directory followed by a path whose `/`-separated fields are the encoded segments of `name`. |
| Url.NewUrlHasNoQuery | assets/index.js:2205-2210 | No file name can give the new URL a query or a fragment. |
| Url.NewUrlInjective | assets/index.js:2205-2210 | Different names get different URLs on the same page. |
| Editor.FormatCode | assets/index.js:1235-1259 | The result is `Formatted(code, language)`: split, re-indent and join. |
| Editor.IndentLines | assets/index.js:1240-1258 | The `map` loop that threads `indentLevel` yields the formatted lines of the trimmed input. |
| Editor.IndentLine | assets/index.js:1241-1257 | One callback: the formatted line and the level after it, including the outdent that never goes below zero. |
| Editor.FormatLinesElement | assets/index.js:1240-1258 | Output line `k` of `FormatLines` is line `k` trimmed, at the level the lines before it leave. |
| Editor.FormatLineShape | assets/index.js:1242-1251 | A formatted line trims back to the trimmed input and adds no line break. |
| Editor.OutputLines | assets/index.js:1235-1259 | The lines of the result are exactly the formatted lines. |
| Editor.FormatShape | assets/index.js:1235-1259 | The line count is kept, and each line keeps its trimmed text. A blank line becomes empty; any other line is its trimmed text behind an even number of spaces. |
| Editor.FormattedIdempotent | assets/index.js:1235-1259 | Formatting formatted code (`Formatted`) changes nothing. |
| Tree.BuildTreeStructure | assets/index.js:1648-1662 | The loop as written yields `Build(paths, InheritedKeys)`: the first directory of each name, except names that an object literal already has as inherited members. |
| JsObject.Get | assets/index.js:1653 | `obj[key]` on an object literal finds the own entry when there is one, otherwise an inherited member of `Object.prototype` when the key names one, otherwise `undefined`. |
| Tree.NonDirs | assets/index.js:1657-1658 | The file list holds exactly the non-directory entries. |
| Tree.BuildFiles | assets/index.js:1650-1659 | The tree's files are the non-directory entries in listing order. |
| Tree.BuildChildren | assets/index.js:1650-1659 | In `Build`, a name is a key exactly when some directory entry has it and it is not skipped. Its node is the first such entry. |
| Tree.SameNode | assets/index.js:1652-1654 | Skipping names never changes the node of a kept directory. |
| Tree.AsWrittenDropsInherited | assets/index.js:1652-1654 | The tree as written is the intended tree (`DirectoryTree`) minus the directories named after inherited members. The files are the same. |
| Tree.ConstructorDirectoryDropped | assets/index.js:1652-1654 | For a listing that holds only a directory `constructor`, the tree as written is empty and the intended tree has that directory. |
| Text.NatToString | assets/index.js:2255 | `String(n)` is a non-empty run of decimal digits with no leading zero. |
| Text.NatToStringValue | assets/index.js:2255 | `String(n)` reads back as `n`. |
| Text.ParseIntOfNatToString | assets/index.js:261 | `parseInt` (`ParseInt`) reads `String(n)` back as `n`. |
| Text.TrimIsTrimmed | assets/index.js:1242 | `trim` (`Trim`) leaves no whitespace at either end, and is the substring of its input left after dropping only whitespace before and after it. |
| Text.TrimAfterIndent | assets/index.js:1250 | Trimming an indented trimmed line gives the line back. |
| Text.Split | assets/index.js:2208 | There is at least one field, even for the empty string. |
| Text.SplitFieldsLack | assets/index.js:1237 | No field of a split contains the separator. |
| Text.SplitWithout | assets/index.js:2305 | A string without the separator is a single field. |
| Text.SplitAfterFirst | assets/index.js:2305 | The first field is the text before the first separator; the rest is the split of what follows it. |
| Text.JoinSplit | assets/index.js:2208 | `split` then `join` (`Join`) gives back the string. |
| Text.SplitJoin | assets/index.js:2208 | `join` then `split` gives back fields that lack the separator. |
| Text.IndexOf | assets/index.js:2305 | Proof helper for `split(";")`, not a call of `indexOf`: the first position of the character, or -1 exactly when it is absent, which is where the first field of the split ends. |
| Text.ToLower | assets/index.js:662 | `toLowerCase` keeps the length and maps each character to its lower-case form. |
| Text.LastIndexOf | assets/index.js:2221 | The last position of the character, or -1 exactly when it is absent. |
| Upload.SliceFrom | assets/index.js:294 | `file.slice(offset)`: the bytes from `offset` on, or none past the end. |
| Upload.RequestFor | assets/index.js:291-298 | A positive offset sends a `PATCH` with `X-Update-Range: append` and the bytes from the offset. Otherwise the whole file is sent with `PUT`. The URL is always the task's. |
| Upload.ResumeOffset | assets/index.js:305-311 | Any status other than 200, a missing length, or a length `parseInt` cannot read gives offset 0. A length it reads gives exactly the number read, negative values included. |
| Upload.ResumeRestoresFile | assets/index.js:302-314 | When the server holds the first `n` bytes and reports them, the retry leaves it holding the whole file. |
| Upload.RestartSendsWholeFile | assets/index.js:305-313 | Any other status restarts with a `PUT` of the whole file. |
| Upload.ParseRetryId | assets/index.js:259-263 | An id is found only in `retry` followed by digits. |
| Upload.ParseRetryIdOfButton | assets/index.js:259-263 | Clicking the button `fail` renders for a task finds that task's id. |
| Upload.ParseRetryIdNeedsPrefix | assets/index.js:259-260 | Other element ids find nothing. |
| Upload.UploadSession.constructor | assets/index.js:346-355 | The counter, the running count, the probe flag and the queue start at 0, 0, false and empty. |
| Upload.UploadSession.RunQueue | assets/index.js:358-372 | With a free slot and a waiting task, the head task gets the slot and is sent, probing first if the probe is unarmed; a failed probe re-arms it. Otherwise nothing changes. The counter never exceeds the limit (it can undercount the running transfers, see `Scenarios.RetryExceedsLimit`). |
| Upload.UploadSession.RetryClicked | assets/index.js:256-265 | A click on the retry button of a filed task resumes that task at the offset `HEAD` reports, and every other filed task is unchanged. Any other click changes nothing. |
| Upload.Uploader.constructor | assets/index.js:226-238 | The task takes the next id and the path `pathParts/name` with its `newUrl`; it has no status cell yet. |
| Upload.Uploader.Upload | assets/index.js:255-267 | The task gets its status cell, and is appended to the queue and the queue runs: with a free slot the head of the queue starts with its progress reset. No waiting task's offset or progress changes. |
| Upload.Uploader.Ajax | assets/index.js:270-300 | The progress resets and the pending request is sent. |
| Upload.Uploader.Retry | assets/index.js:302-314 | The resume offset is set from `HEAD` and the request is re-sent. If `HEAD` fails, nothing changes. |
| Upload.Uploader.Complete | assets/index.js:328-336 | With a status cell: the cell is cleared, the task leaves the failed registry, its slot is freed, and the head of the queue, if any, takes the slot with its progress reset. Without one (already completed): it throws, the session is unchanged and every queued task, the head included, keeps its progress. Either way the other queued tasks keep their offset, progress and status cell. |
| Upload.Uploader.Fail | assets/index.js:338-343 | With a status cell: the task is filed under its id, its slot is freed, and the head of the queue, if any, takes the slot with its progress reset. Without one (already completed): it throws, the session is unchanged and every queued task, the head included, keeps its progress. Either way the other queued tasks keep their offset, progress and status cell. |
| Upload.Uploader.OnDone | assets/index.js:278-288 | A 2xx status completes the task, status 0 changes nothing, and any other status fails it; on a task already completed, completing or failing changes nothing. The id counter and the queued tasks' offsets and progress are kept, except the progress of the task that starts; when nothing starts (status 0, or no status cell), every queued task keeps its progress. |
| Upload.Uploader.OnErrorOrAbort | assets/index.js:289-290 | A network error or an abort fails the task (nothing changes on a task already completed): it is filed under its id, the id counter is kept, and the head of the queue, if any, is sent. The queued tasks keep their offsets and, except the one that starts, their progress; on a task already completed, the head keeps its progress too. |
| Scenarios.FifoWithOneSlot | assets/index.js:358-372 | With one slot the second upload waits. The first one's completion starts it without a second probe. |
| Scenarios.IdsIncrease | assets/index.js:235 | Ids follow creation order from 0. |
| Scenarios.FailedProbeRetried | assets/index.js:362-368 | After a failed probe the next start probes again. |
| Scenarios.StatusZeroThenError | assets/index.js:278-290 | At status 0 the `readystatechange` handler alone frees no slot, so the queued task still waits; the `error` event that follows fails the transfer and starts the queued task with a `PUT` of its file. |
| Scenarios.ResumeAfterFailure | assets/index.js:302-314 | After a failure, the retry sends the missing tail with `PATCH`, and the server ends up with the whole file. |
| Scenarios.RetryUnderflows | assets/index.js:302-343 | Fail, retry, then fail again drives the running count to -1. |
| Scenarios.CompletedTwice | assets/index.js:256-265 | Two retry clicks send the task twice. The first answer (200) completes it; the second, whatever its status, throws on the cleared cell: the running count ends at -1 and the task is not filed. |
| Scenarios.RetryExceedsLimit | assets/index.js:302-314 | A retried transfer runs outside the slot count, so a new upload starts beside it and two transfers run with one slot. |

## Left out

- `progress`, `formatFileSize`, `formatPercent`: the progress display.
  - They need floating point, clocks (`Date.now`, `lastUptime`) and the DOM.
- The DOM: the status cells, the retry button's markup and the `title` that carries `fail`'s reason text and `statusText`.
  - Only the button's id `retry<idx>` is modelled, because the click handler reads it.
- The `await` in `runQueue` and `retry` is collapsed into one step.
  - The probe's outcome and the `HEAD` answer are parameters.
  - Interleavings of other events during the wait are not modelled.
- The server is modelled only as the reference function `ServerAfter`: what a `PUT` or an appending `PATCH` leaves stored.
- Upload.ResumeOffset: `parseInt` works here on unbounded integers.
  - The double-precision rounding of very long digit strings (above 2^53) is not modelled.
- Text.NatToString, Helpers.PadZero, Helpers.FormatDuration: numbers are exact unbounded integers. JavaScript's `String(n)` switches to exponent form from 1e21 (so `padZero(1e21, 2)` is `"21"`), and its double arithmetic rounds above 2^53; neither is modelled.
- Text.ToLower: only the ASCII letters are lower-cased. JavaScript's full Unicode case mapping is not modelled.
- Helpers.FormatDuration: requires a non-negative number of seconds.
  - `NaN`, `Infinity` and negative inputs (from a zero or negative speed in `progress`) are not modelled.
- Helpers.DetectLanguage: a missing path (`null` or `undefined`) is modelled as the empty string. Both give `text`.
- Url.EncodeUriComponent: Dafny characters are Unicode scalar values, so the lone surrogates on which JavaScript throws `URIError` cannot occur.
- Helpers.DecodeCharRefs covers only decimal references. It is the reading of what `encodedStr` writes, not a full HTML parser.
- `DUFS_MAX_UPLOADINGS` defaults to 1 (`assets/index.js:25`). It is a constructor parameter of `UploadSession`, because the page may set it.
- `decodeBase64`, `baseName`, the editor set-up, the viewers and the remaining DOM handlers are outside the modelled core.
- Upload.UploadSession.Valid: it gives no lower bound for `runnings`, because the source has none. `Scenarios.RetryUnderflows` shows it reaching -1.

## Findings

| source | as written | input that shows it | evidently intended | confidence | as-written member | corrected member |
|---|---|---|---|---|---|---|
| assets/index.js:1159-1191 | `languageMap[ext] \|\| 'text'` looks `ext` up on an object literal, so it also finds the members inherited from `Object.prototype`. | The path `a.constructor` yields the `Object` constructor function, not a language name. | `text` for every extension the table does not list. | not executed | Helpers.DetectLanguageAsWritten, Helpers.DetectLanguageAsWrittenInherited | Helpers.DetectLanguage, Helpers.DetectLanguageOfExtension, Helpers.DetectLanguageAgrees |
| assets/index.js:1649-1655 | `!tree.children[item.name]` on an object literal treats inherited members as already-present directories. | A listing that holds one directory named `constructor` (or `toString`, `valueOf`, ...) gives a tree without that directory. | Every directory appears, under its name. | not executed | Tree.BuildTreeStructure, Tree.ConstructorDirectoryDropped | Tree.DirectoryTree, Tree.BuildChildren, Tree.AsWrittenDropsInherited |
