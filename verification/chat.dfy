/**
 * The segment builder behind the chat endpoint: turns a request's text, mode
 * and attachment list into an ordered list of tagged segments
 * (user text, attachments in submission order, mode, timestamp).
 *
 * The extraction service is a parameter (`extract(path, mimeType)`, failing
 * when it would throw) and the wall-clock timestamp is passed in as `now`.
 */
module Chat {
  import opened Wrappers
  import opened Strings
  import Extraction

  /** One element of the request's `attachments` array. */
  datatype UploadedFile = UploadedFile(path: string, filename: Option<string>, mimeType: string)

  datatype Segment =
    | UserText(content: string)
    | Attachment(filename: string, mimeType: string, content: string)
    | Mode(content: string)
    | Timestamp(content: string)

  datatype Kind = UserTextKind | AttachmentKind | ModeKind | TimestampKind

  function KindOf(s: Segment): Kind
  {
    match s
    case UserText(_) => UserTextKind
    case Attachment(_, _, _) => AttachmentKind
    case Mode(_) => ModeKind
    case Timestamp(_) => TimestampKind
  }

  /** The position of each kind in a built list. */
  function Order(k: Kind): nat
  {
    match k
    case UserTextKind => 0
    case AttachmentKind => 1
    case ModeKind => 2
    case TimestampKind => 3
  }

  /** The text extraction service: the file's path and declared MIME type to its text, or the error it threw. */
  type Extractor = (string, string) -> Result<string>

  /** JavaScript truthiness of an optional string field: present and non-empty. */
  predicate Truthy(v: Option<string>)
  {
    v.Some? && v.value != ""
  }

  const Unnamed: string := "unnamed"

  /** `file.filename || 'unnamed'`. */
  function DisplayName(f: UploadedFile): string
  {
    if Truthy(f.filename) then f.filename.value else Unnamed
  }

  function ExtractFile(f: UploadedFile, extract: Extractor): Result<string>
  {
    extract(f.path, f.mimeType)
  }

  /** `attachments` when it is an array; an absent or non-array field contributes nothing. */
  function Files(attachments: Option<seq<UploadedFile>>): seq<UploadedFile>
  {
    match attachments
    case None => []
    case Some(files) => files
  }

  predicate AllExtract(files: seq<UploadedFile>, extract: Extractor)
  {
    forall i :: 0 <= i < |files| ==> ExtractFile(files[i], extract).Success?
  }

  /**
   * The attachment loop: one segment per file, in order, or the error of the
   * first file whose extraction throws, which abandons the loop.
   */
  function AttachmentSegments(files: seq<UploadedFile>, extract: Extractor): (r: Result<seq<Segment>>)
    ensures r.Success? <==> AllExtract(files, extract)
    ensures r.Success? ==> |r.value| == |files|
    ensures r.Success? ==> forall i :: 0 <= i < |files| ==>
      r.value[i] == Attachment(DisplayName(files[i]), files[i].mimeType, ExtractFile(files[i], extract).value)
    ensures r.Failure? ==>
      (exists k :: 0 <= k < |files| && AllExtract(files[..k], extract) && ExtractFile(files[k], extract) == Failure(r.error))
  {
    if files == [] then Success([])
    else
      var first := ExtractFile(files[0], extract);
      if first.Failure? then
        assert files[..0] == [];
        Failure(first.error)
      else
        var rest := AttachmentSegments(files[1..], extract);
        if rest.Failure? then
          var k :| 0 <= k < |files[1..]| && AllExtract(files[1..][..k], extract)
            && ExtractFile(files[1..][k], extract) == Failure(rest.error);
          FirstFailureShifts(files, extract, k);
          Failure(rest.error)
        else
          var head := Attachment(DisplayName(files[0]), files[0].mimeType, first.value);
          SuccessShifts(files, extract, head, rest.value);
          Success([head] + rest.value)
  }

  /** A failure at `k` in the tail is a failure at `k + 1` after a successful head. */
  lemma FirstFailureShifts(files: seq<UploadedFile>, extract: Extractor, k: nat)
    requires 0 <= k < |files| - 1
    requires ExtractFile(files[0], extract).Success? && AllExtract(files[1..][..k], extract)
    ensures AllExtract(files[..k + 1], extract) && files[k + 1] == files[1..][k]
  {
    assert files[..k + 1] == [files[0]] + files[1..][..k];
  }

  /** A successful head followed by a successful tail gives one segment per file, each at its file's index. */
  lemma SuccessShifts(files: seq<UploadedFile>, extract: Extractor, head: Segment, rest: seq<Segment>)
    requires |files| > 0 && ExtractFile(files[0], extract).Success?
    requires head == Attachment(DisplayName(files[0]), files[0].mimeType, ExtractFile(files[0], extract).value)
    requires AllExtract(files[1..], extract) && |rest| == |files| - 1
    requires forall i :: 0 <= i < |files| - 1 ==>
      rest[i] == Attachment(DisplayName(files[1..][i]), files[1..][i].mimeType, ExtractFile(files[1..][i], extract).value)
    ensures AllExtract(files, extract)
    ensures forall i :: 0 <= i < |files| ==>
      ([head] + rest)[i] == Attachment(DisplayName(files[i]), files[i].mimeType, ExtractFile(files[i], extract).value)
  {
    forall i | 0 <= i < |files|
      ensures ExtractFile(files[i], extract).Success?
    {
      if i > 0 {
        assert files[i] == files[1..][i - 1];
      }
    }
    forall i | 1 <= i < |files|
      ensures ([head] + rest)[i] == rest[i - 1] && files[i] == files[1..][i - 1]
    {
    }
  }

  function UserTextPart(text: Option<string>): (p: seq<Segment>)
    ensures |p| == if Truthy(text) then 1 else 0
  {
    if Truthy(text) then [UserText(Trim(text.value))] else []
  }

  function ModePart(mode: Option<string>): (p: seq<Segment>)
    ensures |p| == if Truthy(mode) then 1 else 0
  {
    if Truthy(mode) then [Mode(mode.value)] else []
  }

  /** The shape a successful build promises, for a list `segs` and the files it was built from. */
  predicate WellShaped(segs: seq<Segment>, text: Option<string>, mode: Option<string>,
                       files: seq<UploadedFile>, extract: Extractor, now: string)
  {
    var u := if Truthy(text) then 1 else 0;
    var m := if Truthy(mode) then 1 else 0;
    && AllExtract(files, extract)
    && |segs| == u + |files| + m + 1
    && (Truthy(text) ==> segs[0] == UserText(Trim(text.value)))
    && (forall i {:trigger files[i]} :: 0 <= i < |files| ==>
          segs[u + i] == Attachment(DisplayName(files[i]), files[i].mimeType, ExtractFile(files[i], extract).value))
    && (Truthy(mode) ==> segs[u + |files|] == Mode(mode.value))
    && segs[|segs| - 1] == Timestamp(now)
  }

  /** Where each part sits in `u + a + m + [t]`. */
  lemma ConcatIndexing<T>(u: seq<T>, a: seq<T>, m: seq<T>, t: T)
    ensures var s := u + a + m + [t];
      && |s| == |u| + |a| + |m| + 1
      && (|u| > 0 ==> s[0] == u[0])
      && (forall i :: 0 <= i < |a| ==> s[|u| + i] == a[i])
      && (|m| > 0 ==> s[|u| + |a|] == m[0])
      && s[|s| - 1] == t
  {
  }

  lemma PartsWellShaped(text: Option<string>, mode: Option<string>, files: seq<UploadedFile>,
                        extract: Extractor, now: string, attached: seq<Segment>)
    requires AllExtract(files, extract) && |attached| == |files|
    requires forall i {:trigger files[i]} :: 0 <= i < |files| ==>
      attached[i] == Attachment(DisplayName(files[i]), files[i].mimeType, ExtractFile(files[i], extract).value)
    ensures WellShaped(UserTextPart(text) + attached + ModePart(mode) + [Timestamp(now)], text, mode, files, extract, now)
  {
    var u, m := UserTextPart(text), ModePart(mode);
    var s := u + attached + m + [Timestamp(now)];
    var k := |u|;
    ConcatIndexing(u, attached, m, Timestamp(now));
    if Truthy(text) {
      assert s[0] == UserText(Trim(text.value));
    }
    forall i | 0 <= i < |files|
      ensures s[k + i] == Attachment(DisplayName(files[i]), files[i].mimeType, ExtractFile(files[i], extract).value)
    {
      assert s[k + i] == attached[i];
    }
    if Truthy(mode) {
      assert s[k + |files|] == Mode(mode.value);
    }
  }

  /**
   * The POST handler's segment list. It fails exactly when some attachment's
   * extraction throws; otherwise it holds the trimmed user text when `text`
   * is truthy, one segment per attachment in order, the mode verbatim when
   * `mode` is truthy, and last the timestamp.
   */
  function BuildSegments(text: Option<string>, mode: Option<string>, attachments: Option<seq<UploadedFile>>,
                         extract: Extractor, now: string): (r: Result<seq<Segment>>)
    ensures r.Success? <==> AllExtract(Files(attachments), extract)
    ensures r.Success? ==> WellShaped(r.value, text, mode, Files(attachments), extract, now)
  {
    var attached := AttachmentSegments(Files(attachments), extract);
    if attached.Failure? then Failure(attached.error)
    else
      PartsWellShaped(text, mode, Files(attachments), extract, now, attached.value);
      Success(UserTextPart(text) + attached.value + ModePart(mode) + [Timestamp(now)])
  }

  /** How many segments of kind `k` a list holds. */
  function Count(segs: seq<Segment>, k: Kind): nat
  {
    if segs == [] then 0 else (if KindOf(segs[0]) == k then 1 else 0) + Count(segs[1..], k)
  }

  lemma {:induction false} CountAppend(a: seq<Segment>, b: seq<Segment>, k: Kind)
    ensures Count(a + b, k) == Count(a, k) + Count(b, k)
    decreases |a|
  {
    if a == [] {
      assert a + b == b;
    } else {
      assert (a + b)[1..] == a[1..] + b;
      CountAppend(a[1..], b, k);
    }
  }

  /** In a list of one kind, every segment counts for that kind and none for another. */
  lemma {:induction false} CountUniform(segs: seq<Segment>, k: Kind, other: Kind)
    requires forall i :: 0 <= i < |segs| ==> KindOf(segs[i]) == k
    ensures Count(segs, k) == |segs|
    ensures other != k ==> Count(segs, other) == 0
  {
    if segs != [] {
      CountUniform(segs[1..], k, other);
    }
  }

  /** A successful build is exactly the four parts, in order. */
  lemma BuildParts(text: Option<string>, mode: Option<string>, attachments: Option<seq<UploadedFile>>,
                   extract: Extractor, now: string)
      returns (attached: seq<Segment>)
    requires BuildSegments(text, mode, attachments, extract, now).Success?
    ensures BuildSegments(text, mode, attachments, extract, now).value
      == UserTextPart(text) + attached + ModePart(mode) + [Timestamp(now)]
    ensures |attached| == |Files(attachments)|
    ensures forall i :: 0 <= i < |attached| ==> KindOf(attached[i]) == AttachmentKind
  {
    attached := AttachmentSegments(Files(attachments), extract).value;
  }

  /** How many segments of each kind `u + a + m + [t]` holds, when each part holds a single kind. */
  lemma PartsCounts(u: seq<Segment>, a: seq<Segment>, m: seq<Segment>, t: Segment, k: Kind)
    requires forall i :: 0 <= i < |u| ==> KindOf(u[i]) == UserTextKind
    requires forall i :: 0 <= i < |a| ==> KindOf(a[i]) == AttachmentKind
    requires forall i :: 0 <= i < |m| ==> KindOf(m[i]) == ModeKind
    requires KindOf(t) == TimestampKind
    ensures Count(u + a + m + [t], k) ==
      (if k == UserTextKind then |u| else 0) + (if k == AttachmentKind then |a| else 0)
      + (if k == ModeKind then |m| else 0) + (if k == TimestampKind then 1 else 0)
  {
    CountAppend(u, a, k);
    CountAppend(u + a, m, k);
    CountAppend(u + a + m, [t], k);
    CountUniform(u, UserTextKind, k);
    CountUniform(a, AttachmentKind, k);
    CountUniform(m, ModeKind, k);
    CountUniform([t], TimestampKind, k);
  }

  /** How many segments of kind `k` a successful build holds. */
  lemma BuildCounts(text: Option<string>, mode: Option<string>, attachments: Option<seq<UploadedFile>>,
                    extract: Extractor, now: string, k: Kind)
    requires BuildSegments(text, mode, attachments, extract, now).Success?
    ensures var segs := BuildSegments(text, mode, attachments, extract, now).value;
      Count(segs, k) == match k
        case UserTextKind => if Truthy(text) then 1 else 0
        case AttachmentKind => |Files(attachments)|
        case ModeKind => if Truthy(mode) then 1 else 0
        case TimestampKind => 1
  {
    var attached := BuildParts(text, mode, attachments, extract, now);
    PartsCounts(UserTextPart(text), attached, ModePart(mode), Timestamp(now), k);
  }

  /** The kind of every segment of a successful build is fixed by its position. */
  lemma KindAt(text: Option<string>, mode: Option<string>, attachments: Option<seq<UploadedFile>>,
               extract: Extractor, now: string)
    requires BuildSegments(text, mode, attachments, extract, now).Success?
    ensures var segs := BuildSegments(text, mode, attachments, extract, now).value;
      var u := if Truthy(text) then 1 else 0;
      var n := |Files(attachments)|;
      && (forall i :: 0 <= i < u ==> KindOf(segs[i]) == UserTextKind)
      && (forall i :: u <= i < u + n ==> KindOf(segs[i]) == AttachmentKind)
      && (forall i :: u + n <= i < |segs| - 1 ==> KindOf(segs[i]) == ModeKind)
      && KindOf(segs[|segs| - 1]) == TimestampKind
  {
    var segs := BuildSegments(text, mode, attachments, extract, now).value;
    ShapeKinds(segs, text, mode, Files(attachments), extract, now);
  }

  /** In a well-shaped list the kind of every segment is fixed by its position. */
  lemma ShapeKinds(segs: seq<Segment>, text: Option<string>, mode: Option<string>,
                   files: seq<UploadedFile>, extract: Extractor, now: string)
    requires WellShaped(segs, text, mode, files, extract, now)
    ensures var u := if Truthy(text) then 1 else 0;
      var n := |files|;
      && (forall i :: 0 <= i < u ==> KindOf(segs[i]) == UserTextKind)
      && (forall i :: u <= i < u + n ==> KindOf(segs[i]) == AttachmentKind)
      && (forall i :: u + n <= i < |segs| - 1 ==> KindOf(segs[i]) == ModeKind)
      && KindOf(segs[|segs| - 1]) == TimestampKind
  {
    var u := if Truthy(text) then 1 else 0;
    forall i | u <= i < u + |files|
      ensures KindOf(segs[i]) == AttachmentKind
    {
      var j := i - u;
      assert segs[u + j] == Attachment(DisplayName(files[j]), files[j].mimeType, ExtractFile(files[j], extract).value);
    }
  }

  /** A successful build ends with the supplied timestamp, and holds no other timestamp. */
  lemma TimestampLastAndUnique(text: Option<string>, mode: Option<string>, attachments: Option<seq<UploadedFile>>,
                               extract: Extractor, now: string)
    requires BuildSegments(text, mode, attachments, extract, now).Success?
    ensures var segs := BuildSegments(text, mode, attachments, extract, now).value;
      && segs[|segs| - 1] == Timestamp(now)
      && Count(segs, TimestampKind) == 1
      && forall i :: 0 <= i < |segs| - 1 ==> !segs[i].Timestamp?
  {
    BuildCounts(text, mode, attachments, extract, now, TimestampKind);
    KindAt(text, mode, attachments, extract, now);
  }

  /** A successful build contains a user-text segment exactly when `text` is truthy, and then it comes first. */
  lemma UserTextIffTruthy(text: Option<string>, mode: Option<string>, attachments: Option<seq<UploadedFile>>,
                          extract: Extractor, now: string)
    requires BuildSegments(text, mode, attachments, extract, now).Success?
    ensures var segs := BuildSegments(text, mode, attachments, extract, now).value;
      && ((exists i :: 0 <= i < |segs| && segs[i].UserText?) <==> Truthy(text))
      && (Truthy(text) ==> segs[0] == UserText(Trim(text.value)))
  {
    var segs := BuildSegments(text, mode, attachments, extract, now).value;
    KindAt(text, mode, attachments, extract, now);
    if Truthy(text) {
      assert segs[0].UserText?;
    }
  }

  /** Whitespace-only text is truthy, so it still yields a user-text segment, with empty content. */
  lemma WhitespaceTextYieldsEmptyUserText(text: Option<string>, mode: Option<string>,
                                          attachments: Option<seq<UploadedFile>>, extract: Extractor, now: string)
    requires Truthy(text) && AllWhitespace(text.value)
    requires BuildSegments(text, mode, attachments, extract, now).Success?
    ensures BuildSegments(text, mode, attachments, extract, now).value[0] == UserText("")
  {
    TrimEmptyIff(text.value);
  }

  /**
   * A successful build contains a mode segment exactly when `mode` is truthy;
   * it then holds the mode verbatim, after every attachment and immediately
   * before the timestamp.
   */
  lemma ModeIffTruthy(text: Option<string>, mode: Option<string>, attachments: Option<seq<UploadedFile>>,
                      extract: Extractor, now: string)
    requires BuildSegments(text, mode, attachments, extract, now).Success?
    ensures var segs := BuildSegments(text, mode, attachments, extract, now).value;
      && ((exists i :: 0 <= i < |segs| && segs[i].Mode?) <==> Truthy(mode))
      && (Truthy(mode) ==>
            (segs[|segs| - 2] == Mode(mode.value)
             && forall i :: 0 <= i < |segs| && segs[i].Attachment? ==> i < |segs| - 2))
  {
    var segs := BuildSegments(text, mode, attachments, extract, now).value;
    var u := if Truthy(text) then 1 else 0;
    var n := |Files(attachments)|;
    KindAt(text, mode, attachments, extract, now);
    ModeLayout(segs, u, n, Truthy(mode));
    if Truthy(mode) {
      assert segs[u + n] == Mode(mode.value);
    }
  }

  /** Where the mode segment can sit in a list laid out by kind. */
  lemma ModeLayout(segs: seq<Segment>, u: nat, n: nat, hasMode: bool)
    requires |segs| == u + n + (if hasMode then 1 else 0) + 1
    requires forall i :: 0 <= i < u ==> KindOf(segs[i]) == UserTextKind
    requires forall i :: u <= i < u + n ==> KindOf(segs[i]) == AttachmentKind
    requires forall i :: u + n <= i < |segs| - 1 ==> KindOf(segs[i]) == ModeKind
    requires KindOf(segs[|segs| - 1]) == TimestampKind
    ensures (exists i :: 0 <= i < |segs| && segs[i].Mode?) <==> hasMode
    ensures hasMode ==> u + n == |segs| - 2 && segs[|segs| - 2].Mode?
    ensures forall i :: 0 <= i < |segs| && segs[i].Attachment? ==> i < u + n
  {
    if hasMode {
      assert KindOf(segs[u + n]) == ModeKind;
    } else {
      forall i | 0 <= i < |segs|
        ensures !segs[i].Mode?
      {
        assert KindOf(segs[i]) != ModeKind;
      }
    }
  }

  /** Segment kinds never go backwards: user text, then attachments, then mode, then timestamp. */
  lemma KindsInOrder(text: Option<string>, mode: Option<string>, attachments: Option<seq<UploadedFile>>,
                     extract: Extractor, now: string)
    requires BuildSegments(text, mode, attachments, extract, now).Success?
    ensures var segs := BuildSegments(text, mode, attachments, extract, now).value;
      forall i, j :: 0 <= i < j < |segs| ==> Order(KindOf(segs[i])) <= Order(KindOf(segs[j]))
  {
    var segs := BuildSegments(text, mode, attachments, extract, now).value;
    KindAt(text, mode, attachments, extract, now);
    LayoutOrdered(segs, if Truthy(text) then 1 else 0, |Files(attachments)|);
  }

  /** A list laid out kind by kind never goes backwards in `Order`. */
  lemma LayoutOrdered(segs: seq<Segment>, u: nat, n: nat)
    requires u + n < |segs|
    requires forall i :: 0 <= i < u ==> KindOf(segs[i]) == UserTextKind
    requires forall i :: u <= i < u + n ==> KindOf(segs[i]) == AttachmentKind
    requires forall i :: u + n <= i < |segs| - 1 ==> KindOf(segs[i]) == ModeKind
    requires KindOf(segs[|segs| - 1]) == TimestampKind
    ensures forall i, j :: 0 <= i < j < |segs| ==> Order(KindOf(segs[i])) <= Order(KindOf(segs[j]))
  {
    forall i, j | 0 <= i < j < |segs|
      ensures Order(KindOf(segs[i])) <= Order(KindOf(segs[j]))
    {
      assert Order(KindOf(segs[i])) == Band(i, u, n, |segs|);
      assert Order(KindOf(segs[j])) == Band(j, u, n, |segs|);
    }
  }

  /** The `Order` a laid-out list has at position `i`. */
  function Band(i: nat, u: nat, n: nat, len: nat): nat
  {
    if i < u then 0 else if i < u + n then 1 else if i < len - 1 then 2 else 3
  }

  /** Without an attachments array the build cannot fail and holds no attachment segment. */
  lemma NoArrayNoAttachments(text: Option<string>, mode: Option<string>, extract: Extractor, now: string)
    ensures var r := BuildSegments(text, mode, None, extract, now);
      r.Success? && Count(r.value, AttachmentKind) == 0
  {
    BuildCounts(text, mode, None, extract, now, AttachmentKind);
  }

  /** One attachment whose extraction throws fails the whole request: no per-file isolation. */
  lemma OneFailureFailsRequest(text: Option<string>, mode: Option<string>, files: seq<UploadedFile>,
                               extract: Extractor, now: string, k: nat)
    requires k < |files| && ExtractFile(files[k], extract).Failure?
    ensures BuildSegments(text, mode, Some(files), extract, now).Failure?
  {
  }

  /** The extraction service the route uses: the dispatcher, fed by what the file system and tools yield for each path. */
  function Dispatch(disk: string -> Extraction.Inputs): Extractor
  {
    (path, mime) => Extraction.Extract(path, mime, disk(path))
  }

  /** A file whose strategy reads it directly, while it cannot be read. */
  predicate Unreadable(f: UploadedFile, disk: string -> Extraction.Inputs)
  {
    Extraction.ReadsFile(Extraction.Classify(f.mimeType, f.path)) && disk(f.path).file.None?
  }

  /**
   * With the real dispatcher, a request fails exactly when some attachment is
   * a text, RTF or binary file that cannot be read: PDF, DOCX and spreadsheet
   * tool failures never reach the request.
   */
  lemma DispatchedBuildFailsOnlyOnUnreadable(text: Option<string>, mode: Option<string>, files: seq<UploadedFile>,
                                             disk: string -> Extraction.Inputs, now: string)
    ensures BuildSegments(text, mode, Some(files), Dispatch(disk), now).Failure? <==>
      exists i :: 0 <= i < |files| && Unreadable(files[i], disk)
  {
    forall i | 0 <= i < |files|
      ensures ExtractFile(files[i], Dispatch(disk)).Failure? <==> Unreadable(files[i], disk)
    {
      DispatchFailsIffUnreadable(files[i], disk);
    }
  }

  /** The dispatcher fails on one file exactly when that file is unreadable. */
  lemma DispatchFailsIffUnreadable(f: UploadedFile, disk: string -> Extraction.Inputs)
    ensures ExtractFile(f, Dispatch(disk)).Failure? <==> Unreadable(f, disk)
  {
    assert ExtractFile(f, Dispatch(disk)) == Extraction.Extract(f.path, f.mimeType, disk(f.path));
  }

  /**
   * With the real dispatcher, every attachment that is not a binary file
   * carries at most `DocumentLimit` characters, and a PDF whose conversion
   * threw (the converter failed or overflowed `MaxBuffer`) carries the empty
   * string rather than failing the request.
   */
  lemma DispatchedAttachmentsBounded(text: Option<string>, mode: Option<string>, files: seq<UploadedFile>,
                                     disk: string -> Extraction.Inputs, now: string, i: nat)
    requires i < |files|
    requires BuildSegments(text, mode, Some(files), Dispatch(disk), now).Success?
    ensures var segs := BuildSegments(text, mode, Some(files), Dispatch(disk), now).value;
      var seg := segs[(if Truthy(text) then 1 else 0) + i];
      var f := files[i];
      && seg.Attachment?
      && (Extraction.Classify(f.mimeType, f.path) != Extraction.Binary ==> |seg.content| <= Extraction.DocumentLimit)
      && (Extraction.Classify(f.mimeType, f.path) == Extraction.Pdf && Extraction.ExecSyncOutcome(disk(f.path).pdfRun).None? ==> seg.content == "")
  {
    var segs := BuildSegments(text, mode, Some(files), Dispatch(disk), now).value;
    ShapeAttachment(segs, text, mode, files, Dispatch(disk), now, i);
    DispatchedContent(files[i], disk);
  }

  /** In a well-shaped list the attachment of file `i` sits right after the optional user text. */
  lemma ShapeAttachment(segs: seq<Segment>, text: Option<string>, mode: Option<string>,
                        files: seq<UploadedFile>, extract: Extractor, now: string, i: nat)
    requires WellShaped(segs, text, mode, files, extract, now) && i < |files|
    ensures ExtractFile(files[i], extract).Success?
    ensures segs[(if Truthy(text) then 1 else 0) + i]
      == Attachment(DisplayName(files[i]), files[i].mimeType, ExtractFile(files[i], extract).value)
  {
  }

  /** What the dispatcher yields for one file, when it succeeds. */
  lemma DispatchedContent(f: UploadedFile, disk: string -> Extraction.Inputs)
    ensures var r := ExtractFile(f, Dispatch(disk));
      r.Success? ==> var c := r.value;
      && (Extraction.Classify(f.mimeType, f.path) != Extraction.Binary ==> |c| <= Extraction.DocumentLimit)
      && (Extraction.Classify(f.mimeType, f.path) == Extraction.Pdf && Extraction.ExecSyncOutcome(disk(f.path).pdfRun).None? ==> c == "")
  {
    assert ExtractFile(f, Dispatch(disk)) == Extraction.Extract(f.path, f.mimeType, disk(f.path));
  }
}
