# Chat capture core: file extraction dispatcher and segment builder

This project models, in Dafny, the two pieces of decision logic behind the
chat endpoint of the sera service:

- **The extraction dispatcher** (`services/extract.js`). It classifies an
  uploaded file into one of six format families: text-like, PDF, DOCX, XLSX,
  RTF, or binary fallback. It uses the declared MIME type and the lower-cased
  path, and the first family that either signal speaks for wins. It then runs
  that family's strategy and bounds the output: 20000 characters for text
  and RTF, 30000 for PDF and DOCX, 20000 for spreadsheets. The binary
  fallback instead builds the fixed description
  `Binary file (<mime>), size=<bytes> bytes, preview=<hex>`.
- **The segment builder** (the POST handler in `routes/chat.js`). It turns a
  request's `text`, `attachments` and `mode` into an ordered list of tagged
  segments: the trimmed user text, one attachment per file in order, the
  mode, and a final timestamp.

Files:

- `wrappers.dfy`: `Option` and `Result`. A `Failure` stands for a thrown exception.
- `strings.dfy`: the JavaScript string operations the core uses:
  `startsWith`, an anchored suffix match, `substring(0, n)`, `toLowerCase`,
  `trim`, and the decimal rendering of a number. `toLowerCase`, `trim` and
  the decimal rendering come with lemmas about them.
- `hex.dfy`: bytes, their lowercase hex encoding (`buf.toString('hex')`), a
  decoder, and the round trip in both directions.
- `extraction.dfy`: format classification, the five strategies and the
  dispatcher `Extract`.
- `chat.dfy`: segments, the builder `BuildSegments`, and lemmas about the
  lists it builds. This includes the builder run with the real dispatcher.

File contents and tool outputs are inputs to the model. `Inputs.file` is
what `readFileSync` returns, as decoded text plus raw bytes, and `None`
means the read throws. `pdfRun` is the PDF converter's run: its standard
output as text plus the number of bytes it wrote, and `None` when the
converter fails. `execSync` also throws when that output passes Node's
default `maxBuffer` of 1048576 bytes, since services/extract.js:40 sets no
`maxBuffer`; the model applies that limit (`ExecSyncOutcome`). `docxText`
and `xlsxCsv` are the outputs of the DOCX reader and the spreadsheet
reader, and `None` means the reader threw. The route gets its timestamp string as the
parameter `now`. The extraction service reaches the builder as a function
from `(path, mimeType)` to a `Result`.

Behaviours of the code worth noting:

- Whitespace-only `text` is still truthy. It yields a `user_text` segment
  with empty content; it does not drop the segment.
- No placeholder stands in for a failed attachment. One extraction that
  throws abandons the loop, and the whole request fails, in the handler's
  500 branch.
- The binary fallback reads the whole file and then slices 32768 bytes. The
  reported size is always the full length, and the read cap never shortens
  the 200-character preview (`PreviewIsHexOfLeadingBytes`).
- PDF, DOCX and XLSX tool failures become `''`, and so does a PDF whose
  converter output passes 1048576 bytes, whether or not the converter would have finished: `execSync` kills it and throws. Text, RTF and binary files
  are read directly, so an unreadable one of those does make `extract` throw.

## Model

| member | source | states |
|---|---|---|
| Strings.Prefix | services/extract.js:31 | `substring(0, n)`: the result is a prefix of the input of length min(len, n), and an input no longer than n comes back unchanged |
| Strings.ToLower | services/extract.js:94 | lower-casing keeps the length, turns each upper-case ASCII letter into its lower-case partner (code point + 32), and leaves every other character unchanged |
| Strings.ToLowerIdempotent | services/extract.js:94 | lower-casing an already lower-cased path changes nothing |
| Strings.TrimStartCuts | routes/chat.js:26 | the start-trimming step drops exactly the longest whitespace prefix: what is removed is all whitespace and what remains does not start with whitespace |
| Strings.TrimEndCuts | routes/chat.js:26 | the end-trimming step drops exactly the longest whitespace suffix: what is removed is all whitespace and what remains does not end with whitespace |
| Strings.TrimIsSlice | routes/chat.js:26 | `trim()` returns a contiguous slice of the input, with only whitespace cut on either side, and the slice neither starts nor ends with whitespace |
| Strings.TrimEmptyIff | routes/chat.js:26 | trimming gives the empty string if and only if the text is entirely whitespace |
| Strings.TrimIdempotent | routes/chat.js:26 | trimming twice is the same as trimming once |
| Strings.DecimalString | services/extract.js:85 | the rendered size is a non-empty string of digits with no leading zero |
| Strings.DecimalRoundTrip | services/extract.js:85 | reading the rendered size back gives the number |
| Hex.ToHex | services/extract.js:84 | the hex encoding has two characters per byte |
| Hex.ToHexIsLowerHex | services/extract.js:84 | every character of the encoding is one of `0-9a-f` |
| Hex.ToHexPrefix | services/extract.js:84 | encoding the first k bytes gives the first 2k characters of the whole encoding |
| Hex.HexRoundTrip | services/extract.js:84 | decoding the hex encoding of any byte sequence gives the bytes back |
| Hex.HexDecodeIsInverse | services/extract.js:84 | every string the decoder accepts is the encoding of what it decodes to, so encoding is a bijection onto lowercase even-length hex |
| Extraction.Classify | services/extract.js:93-126 | the chosen family's own signal, the MIME type or the lower-cased path suffix, holds, and no family earlier in the order text, PDF, DOCX, XLSX, RTF does |
| Extraction.ClassifyIff | services/extract.js:96-125 | both directions: a file is put in family f exactly when f is signalled and no earlier family is, so first match wins |
| Extraction.TextMimeWins | services/extract.js:98 | a MIME type starting with `text/` selects the text strategy whatever the path |
| Extraction.ClassifyIgnoresPathCase | services/extract.js:94 | classification never depends on the case of the path |
| Extraction.EitherSignalSuffices | services/extract.js:105-122 | for PDF, DOCX, XLSX and RTF, the exact MIME type alone or the extension alone selects the family when no earlier family is signalled |
| Extraction.TextExtensionBeatsPdfMime | services/extract.js:97-107 | `a.json` declared `application/pdf` is treated as text: a text signal beats every later one |
| Extraction.UpperCaseExtensionRecognised | services/extract.js:94-106 | `REPORT.PDF` with an uninformative MIME type is a PDF, because the path is lower-cased first |
| Extraction.MimeIsCaseSensitive | services/extract.js:98 | `TEXT/PLAIN` is not a text type: it classifies exactly as `application/octet-stream` does |
| Extraction.UnknownMimeDefersToPath | services/extract.js:96-125 | any two unrecognised MIME types classify a path alike: only the path decides |
| Extraction.NoSignalIsBinary | services/extract.js:124-125 | with neither signal recognised, the file takes the binary fallback |
| Extraction.NearMissExtensionIsBinary | services/extract.js:99 | the extension match is anchored at the end of the path: `data.jsonl` is not text and falls back to binary |
| Extraction.ExtractTextFile | services/extract.js:29-32 | an unreadable file throws; otherwise the result is the first min(len, 20000) characters of the file's text, and the whole text when it fits |
| Extraction.ExtractPdf | services/extract.js:37-46 | a failed converter, or one whose output passes the 1048576-byte `execSync` buffer, yields `''`; otherwise the first min(len, 30000) characters of the converter output |
| Extraction.ExecSyncOutcome | services/extract.js:40 | `execSync` returns the converter output exactly when the converter succeeded and wrote at most 1048576 bytes, and throws otherwise |
| Extraction.ExtractDocx | services/extract.js:51-59 | a failed reader yields `''`; otherwise the first min(len, 30000) characters of the raw text |
| Extraction.ExtractXlsx | services/extract.js:66-77 | a failed reader yields `''`; otherwise the first min(len, 20000) characters of the CSV text |
| Extraction.PreviewIsHexOfLeadingBytes | services/extract.js:84 | the first 200 hex characters of the first 32768 bytes are exactly the encoding of the first 100 bytes |
| Extraction.Preview | services/extract.js:84 | the preview has min(200, 2·size) characters and is a prefix of the whole file's hex encoding |
| Extraction.PreviewDecodes | services/extract.js:84 | the preview decodes back to the file's leading bytes |
| Extraction.ExtractFallback | services/extract.js:82-86 | an unreadable file throws; otherwise the description has the fixed shape, with the MIME type verbatim, the full byte length and the preview |
| Extraction.DescribedSizeReadsBack | services/extract.js:85 | the size field sits right after `), size=` and reads back as the full byte length |
| Extraction.Extract | services/extract.js:93-126 | fails only for an unreadable file on a text, RTF or binary path; non-binary output is at most 30000 characters; each family's result has that family's prefix, length, empty-on-failure or description shape |
| Chat.AttachmentSegments | routes/chat.js:32-42 | succeeds if and only if every extraction succeeds, and then has one segment per file, in order, with the file's name (or `unnamed`), its MIME type verbatim and its extracted text; on failure it returns the error of the first file that failed |
| Chat.BuildSegments | routes/chat.js:16-57 | fails if and only if an attachment's extraction fails; otherwise it has length (text?1:0)+n+(mode?1:0)+1, with the trimmed text first, the attachments in order, the mode verbatim, and the timestamp last |
| Chat.BuildCounts | routes/chat.js:20-57 | a successful build holds one user-text segment when text is truthy and none otherwise, exactly n attachment segments, one mode segment when mode is truthy, and exactly one timestamp |
| Chat.KindAt | routes/chat.js:20-57 | in a successful build the kind of each segment is fixed by its position: user text, then the n attachments, then mode, then the timestamp last |
| Chat.TimestampLastAndUnique | routes/chat.js:54-57 | the last segment is the timestamp with the supplied clock string, and no other segment is a timestamp |
| Chat.UserTextIffTruthy | routes/chat.js:23-28 | a user-text segment exists if and only if `text` is truthy, and it is then first, holding the trimmed text |
| Chat.WhitespaceTextYieldsEmptyUserText | routes/chat.js:23-27 | whitespace-only text still yields a user-text segment, with empty content |
| Chat.ModeIffTruthy | routes/chat.js:46-51 | a mode segment exists if and only if `mode` is truthy; it then holds the mode verbatim, comes after every attachment, and sits immediately before the timestamp |
| Chat.KindsInOrder | routes/chat.js:20-57 | segment kinds never go backwards: user text, attachments, mode, timestamp |
| Chat.NoArrayNoAttachments | routes/chat.js:32 | without an attachments array the build succeeds and holds no attachment segment |
| Chat.OneFailureFailsRequest | routes/chat.js:33-34 | one attachment whose extraction throws fails the whole request: failures are not isolated per file |
| Chat.DispatchedBuildFailsOnlyOnUnreadable | routes/chat.js:33-41 | with the real dispatcher, a request fails exactly when some attachment is an unreadable text, RTF or binary file |
| Chat.DispatchFailsIffUnreadable | services/extract.js:93-126 | the real dispatcher throws on one file exactly when that file is read directly and cannot be read |
| Chat.DispatchedAttachmentsBounded | routes/chat.js:34-39 | with the real dispatcher, each non-binary attachment carries at most 30000 characters, and a PDF whose conversion threw carries `''` |

## Left out

- File reads (`readFileSync`), the `pdftotext` subprocess, and the `mammoth` and `xlsx` libraries are foreign code and I/O. Their outcomes are inputs: decoded text, raw bytes, and optional tool outputs. The UTF-8 decoding of the bytes is not modelled.
- `sheetRows: 50` (services/extract.js:68) and the choice of the first sheet (services/extract.js:69-70) are folded into the input `xlsxCsv`, the CSV of the first sheet's first 50 rows.
- `console.error` and `console.log` diagnostics are side effects with no bearing on results.
- async/await: nothing runs concurrently, so the calls are treated as sequential.
- `new Date().toISOString()` reads the wall clock. The timestamp string is the parameter `now`.
- Express routing, `req.body` parsing, `res.json` and status codes are HTTP plumbing. A failed build stands for the 500 branch. Its message is the thrown error's message, abstracted as a string.
- server.js is application wiring, and db/index.js is an unused connection pool. Neither is part of this model.
- Strings.ToLower: lowers only ASCII letters, while JavaScript's `toLowerCase` applies full Unicode case mapping. Classification is unaffected: every recognised extension is ASCII, a case-insensitive regular expression without the `u` flag never matches a non-ASCII character against an ASCII letter, and the only non-ASCII characters that lower-case to ASCII are U+212A (to `k`, in no extension) and U+0130 (to `i` followed by U+0307, which cannot end a matching suffix). Only the lower-cased string itself differs.
- Strings.Trim: uses the exact ECMAScript whitespace and line-terminator set, but strings are sequences of code points rather than UTF-16 code units. `substring` lengths are counted the same way.
- `text` and `mode` are modelled as optional strings. A truthy non-string JSON value is not modelled: a number as `text` makes `trim` throw, and a non-string `mode` would be copied as is.
- Each attachment is modelled as a record with a string `path` and `mimeType`. A missing `mimeType`, or a `null` element in the array, makes the JavaScript code throw; neither is modelled.
- The handler deletes no temporary upload and puts no placeholder in place of a failed attachment, so neither is modelled.
- The stream `execSync` counts against `maxBuffer` is the converter's raw standard output; its decoding to text is not modelled, so `stdoutBytes` and `stdout` are independent inputs. Standard error is left out: `pdftotext -q` writes no messages.
