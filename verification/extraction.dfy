/**
 * The extraction dispatcher: classifies an uploaded file by its declared MIME
 * type and its lower-cased path, then runs the strategy of that format family
 * and bounds its output.
 *
 * File reads and the external tools are not performed here: their outcomes
 * arrive as inputs. `FileData` is what `readFileSync` would return (`None`
 * when it throws), and each tool output is `None` when the tool threw.
 */
module Extraction {
  import opened Wrappers
  import opened Strings
  import opened Hex

  /** Output bound of the plain-text strategy, shared by text and RTF files. */
  const TextLimit: nat := 20000
  /** Output bound of the PDF and DOCX strategies. */
  const DocumentLimit: nat := 30000
  /** Output bound of the spreadsheet strategy. */
  const SheetLimit: nat := 20000
  /** Bytes of a binary file the preview is taken from. */
  const PreviewReadLimit: nat := 32768
  /** Characters of hex shown in a binary preview. */
  const PreviewHexLimit: nat := 200

  const PdfMime: string := "application/pdf"
  const DocxMime: string := "application/vnd.openxmlformats-officedocument.wordprocessingml.document"
  const XlsxMime: string := "application/vnd.openxmlformats-officedocument.spreadsheetml.sheet"
  const RtfMime: string := "application/rtf"

  /** The extensions that select the plain-text strategy (`html?` and `ya?ml` spelled out). */
  const TextExtensions: set<string> := {
    "txt", "md", "csv", "log", "html", "htm", "json", "yaml", "yml", "ini",
    "conf", "js", "ts", "py", "php", "css", "java", "c", "cpp"
  }

  /** The six format families, in the order the dispatcher tests them. */
  datatype Format = Text | Pdf | Docx | Xlsx | Rtf | Binary

  /** True when the (already lower-cased) path ends in `.` followed by `ext`. */
  predicate HasExtension(lower: string, ext: string)
  {
    EndsWith(lower, "." + ext)
  }

  predicate HasTextExtension(lower: string)
  {
    exists ext :: ext in TextExtensions && HasExtension(lower, ext)
  }

  predicate TextSignal(mime: string, lower: string)
  {
    StartsWith(mime, "text/") || HasTextExtension(lower)
  }

  predicate PdfSignal(mime: string, lower: string)
  {
    mime == PdfMime || HasExtension(lower, "pdf")
  }

  predicate DocxSignal(mime: string, lower: string)
  {
    mime == DocxMime || HasExtension(lower, "docx")
  }

  predicate XlsxSignal(mime: string, lower: string)
  {
    mime == XlsxMime || HasExtension(lower, "xlsx")
  }

  predicate RtfSignal(mime: string, lower: string)
  {
    mime == RtfMime || HasExtension(lower, "rtf")
  }

  /** Whether the MIME type or the lower-cased path speaks for format `f`; the fallback accepts everything. */
  predicate Signals(f: Format, mime: string, lower: string)
  {
    match f
    case Text => TextSignal(mime, lower)
    case Pdf => PdfSignal(mime, lower)
    case Docx => DocxSignal(mime, lower)
    case Xlsx => XlsxSignal(mime, lower)
    case Rtf => RtfSignal(mime, lower)
    case Binary => true
  }

  /** No family tested before `f` is signalled: the order is text, PDF, DOCX, XLSX, RTF, fallback. */
  predicate NoEarlierSignal(f: Format, mime: string, lower: string)
  {
    match f
    case Text => true
    case Pdf => !TextSignal(mime, lower)
    case Docx => !TextSignal(mime, lower) && !PdfSignal(mime, lower)
    case Xlsx => !TextSignal(mime, lower) && !PdfSignal(mime, lower) && !DocxSignal(mime, lower)
    case Rtf => !TextSignal(mime, lower) && !PdfSignal(mime, lower) && !DocxSignal(mime, lower) && !XlsxSignal(mime, lower)
    case Binary =>
      !TextSignal(mime, lower) && !PdfSignal(mime, lower) && !DocxSignal(mime, lower) && !XlsxSignal(mime, lower)
      && !RtfSignal(mime, lower)
  }

  /**
   * The dispatcher's choice of strategy: the first family in test order that
   * either signal speaks for. Its own signal holds and no earlier family's does.
   */
  function Classify(mime: string, path: string): (f: Format)
    ensures Signals(f, mime, ToLower(path))
    ensures NoEarlierSignal(f, mime, ToLower(path))
  {
    var lower := ToLower(path);
    if TextSignal(mime, lower) then Text
    else if PdfSignal(mime, lower) then Pdf
    else if DocxSignal(mime, lower) then Docx
    else if XlsxSignal(mime, lower) then Xlsx
    else if RtfSignal(mime, lower) then Rtf
    else Binary
  }

  /** `Classify` picks `f` exactly when `f` is the first family whose signal holds: first match wins. */
  lemma ClassifyIff(mime: string, path: string, f: Format)
    ensures Classify(mime, path) == f <==> Signals(f, mime, ToLower(path)) && NoEarlierSignal(f, mime, ToLower(path))
  {
  }

  /** A declared MIME type starting with `text/` selects the text strategy whatever the path. */
  lemma TextMimeWins(mime: string, path: string)
    requires StartsWith(mime, "text/")
    ensures Classify(mime, path) == Text
  {
  }

  /** The path's case never matters: classification looks only at its lower-cased form. */
  lemma ClassifyIgnoresPathCase(mime: string, path: string)
    ensures Classify(mime, path) == Classify(mime, ToLower(path))
  {
    ToLowerIdempotent(path);
  }

  /** Either signal on its own selects a later family, provided no earlier family is signalled. */
  lemma EitherSignalSuffices(mime: string, path: string, f: Format, ext: string, exact: string)
    requires (f, ext, exact) in {(Pdf, "pdf", PdfMime), (Docx, "docx", DocxMime), (Xlsx, "xlsx", XlsxMime), (Rtf, "rtf", RtfMime)}
    requires mime == exact || HasExtension(ToLower(path), ext)
    requires NoEarlierSignal(f, mime, ToLower(path))
    ensures Classify(mime, path) == f
  {
    ClassifyIff(mime, path, f);
  }

  /** A text extension beats a conflicting MIME type: `a.json` declared as a PDF is text. */
  lemma TextExtensionBeatsPdfMime()
    ensures Classify(PdfMime, "a.json") == Text
  {
    assert ToLower("a.json") == "a.json";
    assert HasExtension("a.json", "json");
  }

  /** The MIME type carries no signal of its own: it neither starts with `text/` nor equals a recognised type. */
  predicate UnknownMime(mime: string)
  {
    !StartsWith(mime, "text/") && mime != PdfMime && mime != DocxMime && mime != XlsxMime && mime != RtfMime
  }

  /** The lower-cased path ends in none of the recognised extensions. */
  predicate UnknownExtension(lower: string)
  {
    && !HasTextExtension(lower) && !HasExtension(lower, "pdf") && !HasExtension(lower, "docx")
    && !HasExtension(lower, "xlsx") && !HasExtension(lower, "rtf")
  }

  /** With an unknown MIME type, the path alone decides: any two such types classify alike. */
  lemma UnknownMimeDefersToPath(mime1: string, mime2: string, path: string)
    requires UnknownMime(mime1) && UnknownMime(mime2)
    ensures Classify(mime1, path) == Classify(mime2, path)
  {
  }

  /** Neither signal recognised: the file takes the binary fallback. */
  lemma NoSignalIsBinary(mime: string, path: string)
    requires UnknownMime(mime) && UnknownExtension(ToLower(path))
    ensures Classify(mime, path) == Binary
  {
  }

  /** `application/octet-stream` carries no signal for any family. */
  lemma OctetStreamIsUnknown()
    ensures UnknownMime("application/octet-stream")
  {
    assert "application/octet-stream"[0] == 'a';
  }

  /** An upper-case `TEXT/PLAIN` declaration counts for no more than `application/octet-stream`: MIME types compare case-sensitively. */
  lemma MimeIsCaseSensitive(path: string)
    ensures Classify("TEXT/PLAIN", path) == Classify("application/octet-stream", path)
  {
    assert UnknownMime("TEXT/PLAIN") by {
      assert "TEXT/PLAIN"[0] == 'T';
    }
    OctetStreamIsUnknown();
  }

  /** Lower-casing `REPORT.PDF`, as services/extract.js:94 does, gives `report.pdf`. */
  lemma LowerReportPdf()
    ensures ToLower("REPORT.PDF") == "report.pdf"
  {
  }

  /** `report.pdf` ends in none of the text extensions of services/extract.js:99. */
  lemma ReportPdfHasNoTextExtension()
    ensures !HasTextExtension("report.pdf")
  {
    assert "report.pdf"[9] == 'f' && "report.pdf"[8] == 'd';
  }

  /** An upper-case extension with an uninformative MIME type is still recognised. */
  lemma UpperCaseExtensionRecognised()
    ensures Classify("application/octet-stream", "REPORT.PDF") == Pdf
  {
    LowerReportPdf();
    ReportPdfHasNoTextExtension();
    OctetStreamIsUnknown();
    assert !TextSignal("application/octet-stream", "report.pdf");
    assert HasExtension("report.pdf", "pdf");
    assert PdfSignal("application/octet-stream", "report.pdf");
  }

  /** `data.jsonl` ends in none of the recognised extensions. */
  lemma JsonlIsUnknownExtension()
    ensures UnknownExtension("data.jsonl")
  {
    assert "data.jsonl"[9] == 'l' && "data.jsonl"[8] == 'n';
  }

  /** The extension must be the whole final component after a dot: `.jsonl` is not `.json`. */
  lemma NearMissExtensionIsBinary()
    ensures Classify("application/octet-stream", "data.jsonl") == Binary
  {
    assert ToLower("data.jsonl") == "data.jsonl";
    JsonlIsUnknownExtension();
    OctetStreamIsUnknown();
    NoSignalIsBinary("application/octet-stream", "data.jsonl");
  }

  /** What `readFileSync` returns: the file decoded as UTF-8, and its raw bytes. */
  datatype FileData = FileData(text: string, bytes: seq<byte>)

  /** Everything the dispatcher would learn from the file system and the external tools. */
  datatype Inputs = Inputs(
    file: Option<FileData>,    // None: the file cannot be read
    pdfRun: Option<ConverterRun>, // the PDF-to-text run; None: the converter failed
    docxText: Option<string>,  // raw text of the word-processing reader; None: it threw
    xlsxCsv: Option<string>    // first sheet as CSV; None: the spreadsheet reader threw
  )

  /**
   * What the PDF-to-text converter wrote to standard output: the text as
   * decoded, and how many bytes it took before decoding.
   */
  datatype ConverterRun = ConverterRun(stdout: string, stdoutBytes: nat)

  /** Node's default `maxBuffer` for `execSync`: 1024 * 1024 bytes of output. */
  const MaxBuffer: nat := 1048576

  /**
   * What `execSync` returns for a converter run: its output, or `None` when it
   * throws, either because the converter failed or because its output went
   * past `MaxBuffer`.
   */
  function ExecSyncOutcome(run: Option<ConverterRun>): (out: Option<string>)
    ensures out.Some? <==> run.Some? && run.value.stdoutBytes <= MaxBuffer
    ensures out.Some? ==> out.value == run.value.stdout
  {
    match run
    case None => None
    case Some(c) => if c.stdoutBytes > MaxBuffer then None else Some(c.stdout)
  }

  const ReadError: string := "file could not be read"

  /** A tool-backed strategy's result: empty when the tool failed, else the first `limit` characters of its output. */
  predicate CappedToolOutput(r: string, tool: Option<string>, limit: nat)
  {
    match tool
    case None => r == ""
    case Some(out) => IsPrefix(r, out) && |r| == Min(|out|, limit)
  }

  function CapTool(tool: Option<string>, limit: nat): (r: string)
    ensures CappedToolOutput(r, tool, limit)
    ensures |r| <= limit
  {
    match tool
    case None => ""
    case Some(out) => Prefix(out, limit)
  }

  /** Reads the file as text and keeps its first `TextLimit` characters; an unreadable file throws. */
  function ExtractTextFile(file: Option<FileData>): (r: Result<string>)
    ensures r.Success? <==> file.Some?
    ensures r.Success? ==> IsPrefix(r.value, file.value.text) && |r.value| == Min(|file.value.text|, TextLimit)
    ensures r.Success? && |file.value.text| <= TextLimit ==> r.value == file.value.text
  {
    match file
    case None => Failure(ReadError)
    case Some(data) => Success(Prefix(data.text, TextLimit))
  }

  /**
   * The PDF strategy: `''` when the converter fails or writes more than
   * `MaxBuffer` bytes, otherwise the first `DocumentLimit` characters of its output.
   */
  function ExtractPdf(run: Option<ConverterRun>): (r: string)
    ensures run.None? ==> r == ""
    ensures run.Some? && run.value.stdoutBytes > MaxBuffer ==> r == ""
    ensures run.Some? && run.value.stdoutBytes <= MaxBuffer ==>
      IsPrefix(r, run.value.stdout) && |r| == Min(|run.value.stdout|, DocumentLimit)
  {
    CapTool(ExecSyncOutcome(run), DocumentLimit)
  }

  /** `extractDocx` (services/extract.js:51-59): `''` when the reader throws, else the first `DocumentLimit` characters of its raw text. */
  function ExtractDocx(tool: Option<string>): (r: string)
    ensures CappedToolOutput(r, tool, DocumentLimit)
  {
    CapTool(tool, DocumentLimit)
  }

  /** `extractXlsx` (services/extract.js:66-77): `''` when the reader throws, else the first `SheetLimit` characters of the CSV. */
  function ExtractXlsx(tool: Option<string>): (r: string)
    ensures CappedToolOutput(r, tool, SheetLimit)
  {
    CapTool(tool, SheetLimit)
  }

  /** The fixed shape of the description returned for a binary file. */
  function Describe(mime: string, size: nat, preview: string): string
  {
    "Binary file (" + mime + "), size=" + DecimalString(size) + " bytes, preview=" + preview
  }

  /** How many leading bytes the preview shows in full: two hex characters per byte. */
  const PreviewBytes: nat := PreviewHexLimit / 2

  /**
   * Taking the first `PreviewHexLimit` hex characters of the first
   * `PreviewReadLimit` bytes is the same as encoding the first
   * `PreviewBytes` bytes: the read cap never shortens the preview.
   */
  lemma PreviewIsHexOfLeadingBytes(buf: seq<byte>)
    ensures Prefix(ToHex(buf[..Min(|buf|, PreviewReadLimit)]), PreviewHexLimit) == ToHex(buf[..Min(|buf|, PreviewBytes)])
  {
    var k := Min(|buf|, PreviewReadLimit);
    if k >= PreviewBytes {
      LongPreview(buf, k, PreviewBytes);
    } else {
      assert k == Min(|buf|, PreviewBytes);
    }
  }

  /** Cutting the encoding of the first `m` bytes at `2n` characters encodes the first `n` bytes, for `n <= m`. */
  lemma LongPreview(buf: seq<byte>, m: nat, n: nat)
    requires n <= m <= |buf|
    ensures Prefix(ToHex(buf[..m]), 2 * n) == ToHex(buf[..n])
  {
    var head := buf[..m];
    ToHexPrefix(head, n);
    assert head[..n] == buf[..n];
    var h := ToHex(head);
    assert Prefix(h, 2 * n) == h[..2 * n];
  }

  /**
   * The preview a binary description shows: the hex encoding of the leading
   * `PreviewBytes` bytes, which is the start of the whole file's encoding and
   * never longer than `PreviewHexLimit`.
   */
  function Preview(buf: seq<byte>): (p: string)
    ensures |p| == Min(PreviewHexLimit, 2 * |buf|)
    ensures IsPrefix(p, ToHex(buf))
  {
    var k := Min(|buf|, PreviewBytes);
    ToHexPrefix(buf, k);
    assert 2 * k == Min(PreviewHexLimit, 2 * |buf|);
    ToHex(buf[..k])
  }

  /** The preview decodes back to the file's leading bytes. */
  lemma PreviewDecodes(buf: seq<byte>)
    ensures FromHex(Preview(buf)) == Some(buf[..Min(|buf|, PreviewBytes)])
  {
    HexRoundTrip(buf[..Min(|buf|, PreviewBytes)]);
  }

  /**
   * The binary fallback: the declared MIME type verbatim, the full byte length
   * and a hex preview of the leading bytes; an unreadable file throws.
   */
  function ExtractFallback(mime: string, file: Option<FileData>): (r: Result<string>)
    ensures r.Success? <==> file.Some?
    ensures r.Success? ==> r.value == Describe(mime, |file.value.bytes|, Preview(file.value.bytes))
  {
    match file
    case None => Failure(ReadError)
    case Some(data) =>
      var buf := data.bytes;
      var preview := Prefix(ToHex(buf[..Min(|buf|, PreviewReadLimit)]), PreviewHexLimit);
      PreviewIsHexOfLeadingBytes(buf);
      Success(Describe(mime, |buf|, preview))
  }

  /** The size field of a description reads back as the file's full length. */
  lemma DescribedSizeReadsBack(mime: string, buf: seq<byte>)
    ensures var d := Describe(mime, |buf|, Preview(buf));
      var digits := DecimalString(|buf|);
      var at := |"Binary file (" + mime + "), size="|;
      && d[at..at + |digits|] == digits
      && DecimalValue(digits) == |buf|
  {
    DecimalRoundTrip(|buf|);
  }

  /** The strategies that read the file themselves, and so throw when it cannot be read. */
  predicate ReadsFile(f: Format)
  {
    f == Text || f == Rtf || f == Binary
  }

  /**
   * The dispatcher. It fails only when a file-reading strategy meets an
   * unreadable file; every non-binary result is at most `DocumentLimit`
   * characters; and each family's result has that family's shape.
   */
  function Extract(path: string, mime: string, inputs: Inputs): (r: Result<string>)
    ensures r.Failure? <==> ReadsFile(Classify(mime, path)) && inputs.file.None?
    ensures r.Success? && Classify(mime, path) != Binary ==> |r.value| <= DocumentLimit
    ensures r.Success? && Classify(mime, path) in {Text, Rtf} ==>
      IsPrefix(r.value, inputs.file.value.text) && |r.value| == Min(|inputs.file.value.text|, TextLimit)
    ensures Classify(mime, path) == Pdf ==> r.Success? && CappedToolOutput(r.value, ExecSyncOutcome(inputs.pdfRun), DocumentLimit)
    ensures Classify(mime, path) == Docx ==> r.Success? && CappedToolOutput(r.value, inputs.docxText, DocumentLimit)
    ensures Classify(mime, path) == Xlsx ==> r.Success? && CappedToolOutput(r.value, inputs.xlsxCsv, SheetLimit)
    ensures r.Success? && Classify(mime, path) == Binary ==>
      r.value == Describe(mime, |inputs.file.value.bytes|, Preview(inputs.file.value.bytes))
  {
    match Classify(mime, path)
    case Text => ExtractTextFile(inputs.file)
    case Pdf => Success(ExtractPdf(inputs.pdfRun))
    case Docx => Success(ExtractDocx(inputs.docxText))
    case Xlsx => Success(ExtractXlsx(inputs.xlsxCsv))
    case Rtf => ExtractTextFile(inputs.file)
    case Binary => ExtractFallback(mime, inputs.file)
  }
}
