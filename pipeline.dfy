/** What one request does, as pure functions of its inputs: the steps it
    takes in order, the upload folder it leaves and the reply it sends, for
    each of the four handlers of app.py. Codecs, the database and the file
    system's refusals are parameters: each request is told how they behave. */
module Pipeline {
  import opened Common
  import opened Naming
  import opened Audit
  import opened Staging

  /** The `tool_type` each handler logs. */
  const HeicTool := "HEIC_CONVERT"
  const QrTool := "QR_GEN"
  const MergeTool := "PDF_MERGE"
  const CompressTool := "COMPRESS"

  /** The observable steps of handling a request, in the order they happen.
      Each records an attempt, whether or not the attempt then fails. */
  datatype Step =
    | ArchiveSave(name: string)      // the monitor copy of an upload
    | DbInsert(record: AuditRecord)  // the `activity_log` insert
    | Stage(name: string)            // `file.save` into the upload folder
    | Codec                          // an image, QR or PDF library call
    | WriteOutput(name: string)      // a result file written into the upload folder

  predicate IsAudit(s: Step) {
    s.ArchiveSave? || s.DbInsert?
  }

  /** Every audit step comes before every other step. */
  predicate AuditFirst(steps: seq<Step>) {
    forall i, j :: 0 <= i < j < |steps| && IsAudit(steps[j]) ==> IsAudit(steps[i])
  }

  /** The number of insert attempts. */
  function Inserts(steps: seq<Step>): nat
    decreases |steps|
  {
    if steps == [] then 0
    else Inserts(steps[..|steps| - 1]) + (if steps[|steps| - 1].DbInsert? then 1 else 0)
  }

  /** The names staged into the upload folder, in order. */
  function StagedNames(steps: seq<Step>): seq<string>
    decreases |steps|
  {
    if steps == [] then []
    else StagedNames(steps[..|steps| - 1]) + (if steps[|steps| - 1].Stage? then [steps[|steps| - 1].name] else [])
  }

  /** The steps of one `log_activity` call: the copy when there is an upload
      to copy, then the one insert. */
  function AuditSteps(saved: string, archivable: bool, record: AuditRecord): (s: seq<Step>)
    ensures forall i :: 0 <= i < |s| ==> IsAudit(s[i])
    ensures Inserts(s) == 1 && StagedNames(s) == []
  {
    var insert := [DbInsert(record)];
    assert insert[..0] == [];
    assert Inserts(insert) == 1 && StagedNames(insert) == [];
    if archivable then
      var both := [ArchiveSave(saved)] + insert;
      CountsAppend([ArchiveSave(saved)], insert);
      assert [ArchiveSave(saved)][..0] == [];
      both
    else insert
  }

  lemma {:induction false} CountsAppend(a: seq<Step>, b: seq<Step>)
    ensures Inserts(a + b) == Inserts(a) + Inserts(b)
    ensures StagedNames(a + b) == StagedNames(a) + StagedNames(b)
    decreases |b|
  {
    if b == [] {
      assert a + b == a;
    } else {
      var init := b[..|b| - 1];
      assert (a + b)[..|a + b| - 1] == a + init;
      CountsAppend(a, init);
    }
  }

  /** Pipeline steps that follow the audit steps leave the audit first and
      add no insert. */
  lemma PipelineAfterAudit(audit: seq<Step>, rest: seq<Step>)
    requires forall i :: 0 <= i < |audit| ==> IsAudit(audit[i])
    requires forall i :: 0 <= i < |rest| ==> !IsAudit(rest[i])
    ensures AuditFirst(audit + rest)
    ensures Inserts(audit + rest) == Inserts(audit)
    ensures StagedNames(audit + rest) == StagedNames(audit) + StagedNames(rest)
  {
    CountsAppend(audit, rest);
    NoInserts(rest);
  }

  lemma {:induction false} NoInserts(steps: seq<Step>)
    requires forall i :: 0 <= i < |steps| ==> !IsAudit(steps[i])
    ensures Inserts(steps) == 0
    decreases |steps|
  {
    if steps != [] {
      NoInserts(steps[..|steps| - 1]);
    }
  }

  lemma {:induction false} NoStage(steps: seq<Step>)
    requires forall i :: 0 <= i < |steps| ==> !steps[i].Stage?
    ensures StagedNames(steps) == []
    decreases |steps|
  {
    if steps != [] {
      NoStage(steps[..|steps| - 1]);
    }
  }

  /** The clock readings of one request: `datetime.now()` for the archive
      stamp, `datetime.now()` again for the row, and the file-system time
      its writes are stamped with. */
  datatype Clock = Clock(stamp: DateTime, logged: DateTime, now: real)

  /** How the environment treats one request's side effects: the names the
      file system refuses to open for writing in the upload folder, how the
      monitor copy ends, and whether the database accepts the insert. */
  datatype Faults = Faults(unwritable: set<string>, archive: ArchiveOutcome, dbUp: bool)

  /** "", "." and "..": the names that join to a directory. */
  predicate NamesDirectory(name: string) {
    name == "" || name == "." || name == ".."
  }

  /** Opening a file of the upload folder for writing raises: the name is a
      directory, or the environment refuses it. */
  predicate WriteFails(name: string, faults: Faults) {
    NamesDirectory(name) || name in faults.unwritable
  }

  /** The foreign libraries, each a function that may fail. */
  datatype Codecs = Codecs(
    openImage: Bytes -> Result<Image>,        // Image.open, and the decoding `save` starts with
    savePng: Image -> Written,                // the PNG encoder writing into the opened output file
    qrInstalled: bool,                        // `import qrcode` succeeds
    qrPng: Option<string> -> Result<Bytes>,   // qrcode.QRCode(...): add_data, make, PNG image
    readPdf: Bytes -> Option<string>,         // merger.append(path): the error, if any
    writePdf: seq<Bytes> -> Written,          // merger.write into the opened "merged.pdf"
    toRgb: Image -> Bytes,                    // img.convert("RGB")
    saveJpeg: Image -> Result<Bytes>)         // img.save(..., "JPEG", quality=60, optimize=True)

  /** The image the compressor encodes: an RGBA or P image converted to
      RGB, any other image as decoded. */
  function Normalize(img: Image, toRgb: Image -> Bytes): (r: Image)
    ensures r.mode == CompressMode(img.mode)
    ensures r.mode == img.mode ==> r == img
  {
    if img.mode == "RGBA" || img.mode == "P" then Image("RGB", toRgb(img)) else img
  }

  /** An upload the merge loop stops at: its save or its append raises. */
  predicate Rejected(f: Upload, faults: Faults, readPdf: Bytes -> Option<string>) {
    WriteFails(f.filename, faults) || readPdf(f.data).Some?
  }

  /** The index of the first rejected upload, or `|files|`. */
  function FirstRejected(files: seq<Upload>, faults: Faults, readPdf: Bytes -> Option<string>): (k: nat)
    ensures k <= |files|
    ensures k < |files| ==> Rejected(files[k], faults, readPdf)
    ensures forall j :: 0 <= j < k ==> !Rejected(files[j], faults, readPdf)
    decreases |files|
  {
    if files == [] then 0
    else if Rejected(files[0], faults, readPdf) then 0
    else 1 + FirstRejected(files[1..], faults, readPdf)
  }

  /** An accepted upload at or before the first rejected one is before it. */
  lemma AcceptedBeforeFirstRejected(files: seq<Upload>, k: nat, faults: Faults, readPdf: Bytes -> Option<string>)
    requires k < |files| && k <= FirstRejected(files, faults, readPdf)
    requires !Rejected(files[k], faults, readPdf)
    ensures k + 1 <= FirstRejected(files, faults, readPdf)
  {
  }

  /** The steps of `Image.save(output_path, "PNG")` once the image is
      decoded: open the output, then encode into it if it opened. */
  function SaveSteps(out: string, faults: Faults): (s: seq<Step>)
    ensures |s| >= 1 && s[0] == WriteOutput(out)
    ensures |s| == 1 <==> WriteFails(out, faults)
    ensures forall i :: 0 <= i < |s| ==> !IsAudit(s[i]) && !s[i].Stage?
  {
    [WriteOutput(out)] + (if WriteFails(out, faults) then [] else [Codec])
  }

  /** The folder after that save: the output holds what the encoder wrote.
      A failing encode leaves what it wrote in an output file that already
      existed, and removes one the save had just created. */
  function SavedFolder(folder: Folder, out: string, img: Image, now: real, faults: Faults, codecs: Codecs): (r: Folder)
    ensures forall k :: k != out ==> (k in r <==> k in folder) && (k in r ==> r[k] == folder[k])
    ensures WriteFails(out, faults) ==> r == folder
    ensures !WriteFails(out, faults) && codecs.savePng(img).error.None? ==>
      out in r && r[out] == Entry(codecs.savePng(img).bytes, now)
    ensures !WriteFails(out, faults) && codecs.savePng(img).error.Some? ==>
      (out in folder ==> out in r && r[out] == Entry(codecs.savePng(img).bytes, now))
      && (out !in folder ==> r == folder)
  {
    if WriteFails(out, faults) then folder
    else
      var png := codecs.savePng(img);
      if png.error.None? || out in folder then folder[out := Entry(png.bytes, now)] else folder
  }

  /** The reply after that save: the PNG as an attachment under `out`, or
      the opening error, or the encoder's. */
  function SaveResponse(out: string, img: Image, faults: Faults, codecs: Codecs): (r: Response)
    ensures r.SendFile? <==> !WriteFails(out, faults) && codecs.savePng(img).error.None?
    ensures r.SendFile? ==> r == SendFile(out, None, true, codecs.savePng(img).bytes)
    ensures r.ErrorJson? ==> r.status == ServerErrorStatus
    ensures WriteFails(out, faults) ==> r.error == OsError(out)
  {
    if WriteFails(out, faults) then ErrorJson(ServerErrorStatus, OsError(out))
    else
      var png := codecs.savePng(img);
      if png.error.Some? then ErrorJson(ServerErrorStatus, CodecError(png.error.value))
      else SendFile(out, None, true, png.bytes)
  }

  /** The steps of `convert_heic` after logging: stage the input, decode it,
      open the PNG output, encode into it; each only if the one before
      succeeded. (Pillow's `save` decodes before it opens the output.) */
  function HeicSteps(filename: string, staged: Bytes, faults: Faults, codecs: Codecs): (s: seq<Step>)
    ensures forall i :: 0 <= i < |s| ==> !IsAudit(s[i])
    ensures 1 <= |s| <= 4 && s[0] == Stage(filename)
    ensures forall i :: 1 <= i < |s| ==> !s[i].Stage?
  {
    var decode := [Codec] + (if codecs.openImage(staged).Err? then [] else SaveSteps(OutputName(filename), faults));
    [Stage(filename)] + (if WriteFails(filename, faults) then [] else decode)
  }

  /** The upload folder after `convert_heic`: the input is kept under its
      own name and the PNG written under the derived name. */
  function HeicFolder(folder: Folder, filename: string, staged: Bytes, now: real,
                      faults: Faults, codecs: Codecs): (after: Folder)
    ensures forall k :: k in folder ==> k in after
    ensures forall k :: k in after && k !in folder ==> k == filename || k == OutputName(filename)
    ensures forall k :: k in folder && k != filename && k != OutputName(filename) ==> after[k] == folder[k]
  {
    var decoded := codecs.openImage(staged);
    var withInput := folder[filename := Entry(staged, now)];
    if WriteFails(filename, faults) then folder
    else if decoded.Err? then withInput
    else SavedFolder(withInput, OutputName(filename), decoded.value, now, faults, codecs)
  }

  /** The reply of `convert_heic`: the PNG as an attachment under the
      derived name, or the first exception as a 500. */
  function HeicResponse(filename: string, staged: Bytes, faults: Faults, codecs: Codecs): (resp: Response)
    ensures resp.ErrorJson? ==> resp.status == ServerErrorStatus
    ensures resp.SendFile? ==> resp.downloadName == OutputName(filename) && resp.asAttachment && resp.mimetype.None?
  {
    var decoded := codecs.openImage(staged);
    if WriteFails(filename, faults) then ErrorJson(ServerErrorStatus, OsError(filename))
    else if decoded.Err? then ErrorJson(ServerErrorStatus, CodecError(decoded.message))
    else SaveResponse(OutputName(filename), decoded.value, faults, codecs)
  }

  /** A convert request logs first, inserts one row, and stages exactly its
      one upload. */
  lemma HeicOrder(saved: string, archivable: bool, record: AuditRecord,
                  filename: string, staged: Bytes, faults: Faults, codecs: Codecs)
    ensures var steps := AuditSteps(saved, archivable, record) + HeicSteps(filename, staged, faults, codecs);
      AuditFirst(steps) && Inserts(steps) == 1 && StagedNames(steps) == [filename]
  {
    var audit := AuditSteps(saved, archivable, record);
    var rest := HeicSteps(filename, staged, faults, codecs);
    PipelineAfterAudit(audit, rest);
    CountsAppend([rest[0]], rest[1..]);
    assert [rest[0]] + rest[1..] == rest;
    assert [rest[0]][..0] == [];
    NoStage(rest[1..]);
  }

  /** What a convert request leaves and answers: the PNG is sent, as an
      attachment under the derived name, exactly when the staging, the
      decoding, the opening of the output and the encoding all succeed,
      and the folder then holds it; the staged input stays under its own
      name unless it already ends in ".png", where the output replaces it,
      and under that name in any case once its save goes through; a failure
      leaves no output file that was not there before. */
  lemma HeicOutcome(folder: Folder, filename: string, staged: Bytes, now: real,
                    faults: Faults, codecs: Codecs)
    ensures var after := HeicFolder(folder, filename, staged, now, faults, codecs);
      var resp := HeicResponse(filename, staged, faults, codecs);
      var out := OutputName(filename);
      var decoded := codecs.openImage(staged);
      && (resp.SendFile? <==>
            && !WriteFails(filename, faults) && decoded.Ok? && !WriteFails(out, faults)
            && codecs.savePng(decoded.value).error.None?)
      && (resp.SendFile? ==>
            resp.body == codecs.savePng(decoded.value).bytes && out in after && after[out] == Entry(resp.body, now))
      && (!WriteFails(filename, faults) && SplitExt(filename).1 != ".png" ==>
            filename in after && after[filename] == Entry(staged, now))
      && (resp.ErrorJson? && out !in folder && out != filename ==> out !in after)
      && (!WriteFails(filename, faults) ==> filename in after)
  {
    OutputOverwritesInput(filename);
  }

  /** The steps of the compressor after logging: one library call. */
  const InMemorySteps := [Codec]

  /** A compress request logs first, inserts one row and stages nothing. */
  lemma InMemoryOrder(saved: string, archivable: bool, record: AuditRecord)
    ensures var steps := AuditSteps(saved, archivable, record) + InMemorySteps;
      AuditFirst(steps) && Inserts(steps) == 1 && StagedNames(steps) == []
  {
    PipelineAfterAudit(AuditSteps(saved, archivable, record), InMemorySteps);
    NoStage(InMemorySteps);
  }

  /** The steps of `generate_qr`: none when `import qrcode` raises, which
      happens before the log; otherwise the log, then the encoder. */
  function QrSteps(record: AuditRecord, codecs: Codecs): (s: seq<Step>)
    ensures s == [] <==> !codecs.qrInstalled
  {
    if codecs.qrInstalled then AuditSteps(Sentinel, false, record) + InMemorySteps else []
  }

  /** A QR request logs first and inserts one row exactly when the QR
      library imports; it stages nothing. */
  lemma QrOrder(record: AuditRecord, codecs: Codecs)
    ensures var steps := QrSteps(record, codecs);
      && AuditFirst(steps) && StagedNames(steps) == []
      && Inserts(steps) == (if codecs.qrInstalled then 1 else 0)
  {
    if codecs.qrInstalled {
      InMemoryOrder(Sentinel, false, record);
    }
  }

  /** The reply of `generate_qr`: the PNG inline as "qrcode.png", or the
      failing import's or the encoder's exception as a 500. */
  function QrResponse(text: Option<string>, codecs: Codecs): (resp: Response)
    ensures resp.SendFile? <==> codecs.qrInstalled && codecs.qrPng(text).Ok?
    ensures resp.SendFile? ==>
      resp == SendFile(QrName, Some("image/png"), false, codecs.qrPng(text).value)
    ensures !codecs.qrInstalled ==> resp == ErrorJson(ServerErrorStatus, MissingModule("qrcode"))
    ensures resp.ErrorJson? ==> resp.status == ServerErrorStatus
  {
    if !codecs.qrInstalled then ErrorJson(ServerErrorStatus, MissingModule("qrcode"))
    else
      var png := codecs.qrPng(text);
      if png.Err? then ErrorJson(ServerErrorStatus, CodecError(png.message))
      else SendFile(QrName, Some("image/png"), false, png.value)
  }

  /** The reply of `compress_img` for the upload bytes `data`. */
  function CompressResponse(data: Bytes, codecs: Codecs): (resp: Response)
    ensures resp.ErrorJson? ==> resp.status == ServerErrorStatus
    ensures resp.SendFile? ==>
      resp.downloadName == CompressedName && resp.mimetype == Some("image/jpeg") && !resp.asAttachment
  {
    var decoded := codecs.openImage(data);
    if decoded.Err? then ErrorJson(ServerErrorStatus, CodecError(decoded.message))
    else
      var jpeg := codecs.saveJpeg(Normalize(decoded.value, codecs.toRgb));
      if jpeg.Err? then ErrorJson(ServerErrorStatus, CodecError(jpeg.message))
      else SendFile(CompressedName, Some("image/jpeg"), false, jpeg.value)
  }

  /** The compressor never hands the JPEG encoder an RGBA or P image: the
      JPEG sent back is the encoding of the decoded image with its mode
      normalised, and it is sent exactly when decoding and encoding
      succeed. */
  lemma CompressEncodesNormalized(data: Bytes, codecs: Codecs)
    ensures var resp := CompressResponse(data, codecs);
      var decoded := codecs.openImage(data);
      && (resp.SendFile? <==>
            decoded.Ok? && codecs.saveJpeg(Normalize(decoded.value, codecs.toRgb)).Ok?)
      && (resp.SendFile? ==>
            var img := Normalize(decoded.value, codecs.toRgb);
            && img.mode != "RGBA" && img.mode != "P"
            && (decoded.value.mode != "RGBA" && decoded.value.mode != "P" ==> img == decoded.value)
            && resp.body == codecs.saveJpeg(img).value)
  {
  }

  /** `convert_heic` stages the stream from where `log_activity` left it:
      after a monitor copy that failed having read everything, the tail it
      stages is empty. (`compress_img` is not affected: `Image.open` seeks
      to the start, and `App.Server.CompressImg` decodes the whole upload.) */
  lemma ExhaustedCopyOnlyEmptiesStaging(data: Bytes, filename: string, outcome: ArchiveOutcome)
    requires filename != "" && outcome.CopyFailed? && outcome.consumed >= |data|
    ensures StreamPosition(Some(data), Some(filename), outcome) == |data|
    ensures data[StreamPosition(Some(data), Some(filename), outcome)..] == []
  {
  }

  /** The steps of the merge loop over uploads none of which is rejected:
      stage, then append, per upload. */
  function LoopSteps(files: seq<Upload>): (s: seq<Step>)
    ensures |s| == 2 * |files|
    ensures forall i :: 0 <= i < |s| ==> !IsAudit(s[i])
    decreases |files|
  {
    if files == [] then []
    else LoopSteps(files[..|files| - 1]) + [Stage(files[|files| - 1].filename), Codec]
  }

  /** The loop stages the uploads' names in order. */
  lemma {:induction false} LoopStagesInOrder(files: seq<Upload>)
    ensures StagedNames(LoopSteps(files)) == Names(files)
    decreases |files|
  {
    if files != [] {
      var init := files[..|files| - 1];
      LoopStagesInOrder(init);
      var name := files[|files| - 1].filename;
      OneStage(LoopSteps(init), name, [Codec]);
      assert LoopSteps(files) == LoopSteps(init) + [Stage(name)] + [Codec];
    }
  }

  /** A stage step followed by steps that stage nothing adds one name. */
  lemma OneStage(before: seq<Step>, name: string, after: seq<Step>)
    requires forall i :: 0 <= i < |after| ==> !after[i].Stage?
    ensures StagedNames(before + [Stage(name)] + after) == StagedNames(before) + [name]
  {
    var stage := [Stage(name)];
    assert stage[..0] == [];
    CountsAppend(before, stage);
    CountsAppend(before + stage, after);
    NoStage(after);
  }

  /** The last steps of a loop stopped at upload `f`: its save, and its
      append when the save went through. */
  function RejectSteps(f: Upload, faults: Faults): (s: seq<Step>)
    ensures 1 <= |s| <= 2 && s[0] == Stage(f.filename)
    ensures forall i :: 1 <= i < |s| ==> !s[i].Stage?
  {
    [Stage(f.filename)] + (if WriteFails(f.filename, faults) then [] else [Codec])
  }

  /** How many uploads a loop stopped at upload `k` has staged. */
  function StagedCount(files: seq<Upload>, k: nat, faults: Faults): nat
    requires k < |files|
  {
    if WriteFails(files[k].filename, faults) then k else k + 1
  }

  /** The steps of `merger.write(output_path)`: open "merged.pdf", then
      write into it if it opened. */
  function WriteSteps(faults: Faults): (s: seq<Step>)
    ensures |s| >= 1 && s[0] == WriteOutput(MergedName)
    ensures |s| == 1 <==> WriteFails(MergedName, faults)
    ensures forall i :: 0 <= i < |s| ==> !IsAudit(s[i]) && !s[i].Stage?
  {
    [WriteOutput(MergedName)] + (if WriteFails(MergedName, faults) then [] else [Codec])
  }

  /** The folder after `merger.write`: once "merged.pdf" opens it holds
      whatever the writer put into it, whether or not the writer raised. */
  function WrittenFolder(staged: Folder, docs: seq<Bytes>, now: real, faults: Faults, codecs: Codecs): (r: Folder)
    ensures forall k :: k != MergedName ==> (k in r <==> k in staged) && (k in r ==> r[k] == staged[k])
    ensures WriteFails(MergedName, faults) ==> r == staged
    ensures !WriteFails(MergedName, faults) ==>
      MergedName in r && r[MergedName] == Entry(codecs.writePdf(docs).bytes, now)
  {
    if WriteFails(MergedName, faults) then staged
    else staged[MergedName := Entry(codecs.writePdf(docs).bytes, now)]
  }

  /** The reply when the loop stops at upload `f`. */
  function RejectResponse(f: Upload, faults: Faults, readPdf: Bytes -> Option<string>): (r: Response)
    requires Rejected(f, faults, readPdf)
    ensures r.ErrorJson? && r.status == ServerErrorStatus
    ensures r.error.OsError? <==> WriteFails(f.filename, faults)
    ensures r.error.OsError? ==> r.error.path == f.filename
    ensures r.error.CodecError? ==> readPdf(f.data) == Some(r.error.message)
  {
    if WriteFails(f.filename, faults) then ErrorJson(ServerErrorStatus, OsError(f.filename))
    else ErrorJson(ServerErrorStatus, CodecError(readPdf(f.data).value))
  }

  /** The reply after `merger.write`: the opening error first, then the
      writer's. */
  function WriteResponse(docs: seq<Bytes>, faults: Faults, codecs: Codecs): (r: Response)
    ensures r.SendFile? <==> !WriteFails(MergedName, faults) && codecs.writePdf(docs).error.None?
    ensures r.SendFile? ==> r == SendFile(MergedName, None, true, codecs.writePdf(docs).bytes)
    ensures r.ErrorJson? ==> r.status == ServerErrorStatus
    ensures WriteFails(MergedName, faults) ==> r.error == OsError(MergedName)
  {
    if WriteFails(MergedName, faults) then ErrorJson(ServerErrorStatus, OsError(MergedName))
    else
      var merged := codecs.writePdf(docs);
      if merged.error.Some? then ErrorJson(ServerErrorStatus, CodecError(merged.error.value))
      else SendFile(MergedName, None, true, merged.bytes)
  }

  /** The steps of `merge_pdf` after logging: the loop up to the first
      rejected upload, whose save or append is the last step; or the whole
      loop, the opening of "merged.pdf" and, if it opens, the writer. */
  function MergeSteps(files: seq<Upload>, faults: Faults, codecs: Codecs): (s: seq<Step>)
    ensures forall i :: 0 <= i < |s| ==> !IsAudit(s[i])
  {
    var k := FirstRejected(files, faults, codecs.readPdf);
    if k < |files| then LoopSteps(files[..k]) + RejectSteps(files[k], faults)
    else LoopSteps(files) + WriteSteps(faults)
  }

  /** The upload folder after `merge_pdf`: the staged uploads and, once
      "merged.pdf" opens, whatever the writer put into it. */
  function MergeFolder(folder: Folder, files: seq<Upload>, now: real, faults: Faults, codecs: Codecs): (after: Folder)
    ensures forall k :: k in folder ==> k in after
    ensures forall k :: k in after && k !in folder ==> k == MergedName || k in Names(files)
    ensures forall k :: k in folder && k !in Names(files) && k != MergedName ==> after[k] == folder[k]
  {
    var k := FirstRejected(files, faults, codecs.readPdf);
    if k < |files| then
      var n := StagedCount(files, k, faults);
      assert forall j :: 0 <= j < n ==> Names(files[..n])[j] == Names(files)[j];
      StageAllKeys(folder, files[..n], now);
      StageAll(folder, files[..n], now)
    else
      StageAllKeys(folder, files, now);
      WrittenFolder(StageAll(folder, files, now), Contents(files), now, faults, codecs)
  }

  /** The reply of `merge_pdf`. */
  function MergeResponse(files: seq<Upload>, faults: Faults, codecs: Codecs): (resp: Response)
    ensures resp.ErrorJson? ==> resp.status == ServerErrorStatus
    ensures resp.SendFile? ==> resp.downloadName == MergedName && resp.asAttachment && resp.mimetype.None?
  {
    var k := FirstRejected(files, faults, codecs.readPdf);
    if k < |files| then RejectResponse(files[k], faults, codecs.readPdf)
    else WriteResponse(Contents(files), faults, codecs)
  }

  /** A merge request logs first, inserts one row, and stages the uploads in
      submission order up to and including the first rejected one. */
  lemma MergeOrder(saved: string, archivable: bool, record: AuditRecord,
                   files: seq<Upload>, faults: Faults, codecs: Codecs)
    ensures var steps := AuditSteps(saved, archivable, record) + MergeSteps(files, faults, codecs);
      var k := FirstRejected(files, faults, codecs.readPdf);
      && AuditFirst(steps) && Inserts(steps) == 1
      && StagedNames(steps) == Names(files[..if k < |files| then k + 1 else k])
  {
    PipelineAfterAudit(AuditSteps(saved, archivable, record), MergeSteps(files, faults, codecs));
    MergeStagesInOrder(files, faults, codecs);
  }

  lemma MergeStagesInOrder(files: seq<Upload>, faults: Faults, codecs: Codecs)
    ensures var k := FirstRejected(files, faults, codecs.readPdf);
      StagedNames(MergeSteps(files, faults, codecs)) == Names(files[..if k < |files| then k + 1 else k])
  {
    var k := FirstRejected(files, faults, codecs.readPdf);
    if k < |files| {
      RejectedStages(files, faults, codecs);
    } else {
      AcceptedStages(files, faults, codecs);
      assert files[..k] == files;
    }
  }

  lemma RejectedStages(files: seq<Upload>, faults: Faults, codecs: Codecs)
    requires FirstRejected(files, faults, codecs.readPdf) < |files|
    ensures var k := FirstRejected(files, faults, codecs.readPdf);
      StagedNames(MergeSteps(files, faults, codecs)) == Names(files[..k + 1])
  {
    var k := FirstRejected(files, faults, codecs.readPdf);
    var r := RejectSteps(files[k], faults);
    var last := r[1..];
    assert r == [Stage(files[k].filename)] + last;
    StopStages(files, k, last);
    assert LoopSteps(files[..k]) + r == LoopSteps(files[..k]) + [Stage(files[k].filename)] + last;
  }

  lemma AcceptedStages(files: seq<Upload>, faults: Faults, codecs: Codecs)
    requires FirstRejected(files, faults, codecs.readPdf) == |files|
    ensures StagedNames(MergeSteps(files, faults, codecs)) == Names(files)
  {
    var rest := WriteSteps(faults);
    assert MergeSteps(files, faults, codecs) == LoopSteps(files) + rest;
    LoopStagesInOrder(files);
    CountsAppend(LoopSteps(files), rest);
    NoStage(rest);
  }

  /** The loop stopped at upload `k` has staged the uploads up to `k`. */
  lemma StopStages(files: seq<Upload>, k: nat, last: seq<Step>)
    requires k < |files|
    requires forall i :: 0 <= i < |last| ==> !last[i].Stage?
    ensures StagedNames(LoopSteps(files[..k]) + [Stage(files[k].filename)] + last) == Names(files[..k + 1])
  {
    LoopStagesInOrder(files[..k]);
    OneStage(LoopSteps(files[..k]), files[k].filename, last);
    assert files[..k + 1][..k] == files[..k];
  }

  /** What a merge request leaves and answers: no entry is removed; the PDF
      is sent, as "merged.pdf", exactly when no upload is rejected,
      "merged.pdf" opens and the writer succeeds, and it is the writer's
      output for every upload's bytes in submission order; once no upload
      is rejected, every staged name holds the bytes of its last upload,
      whatever then happens to "merged.pdf"; once "merged.pdf" opens it
      stays in the folder, whole or partly written; a rejected merge keeps
      what it staged before the failing upload. */
  lemma MergeOutcome(folder: Folder, files: seq<Upload>, now: real, faults: Faults, codecs: Codecs)
    ensures var after := MergeFolder(folder, files, now, faults, codecs);
      var resp := MergeResponse(files, faults, codecs);
      var merged := codecs.writePdf(Contents(files));
      var accepted := FirstRejected(files, faults, codecs.readPdf) == |files|;
      && (resp.SendFile? <==> accepted && !WriteFails(MergedName, faults) && merged.error.None?)
      && (accepted && !WriteFails(MergedName, faults) ==>
            MergedName in after && after[MergedName] == Entry(merged.bytes, now))
      && (resp.SendFile? ==> resp.body == merged.bytes)
      && (accepted ==>
            forall k :: k != MergedName && LastNamed(files, k) >= 0 ==>
              k in after && after[k] == Entry(files[LastNamed(files, k)].data, now))
      && (!accepted ==>
            var staged := files[..StagedCount(files, FirstRejected(files, faults, codecs.readPdf), faults)];
            && resp.ErrorJson?
            && (forall k :: LastNamed(staged, k) >= 0 ==>
                  k in after && after[k] == Entry(staged[LastNamed(staged, k)].data, now)))
  {
    var k := FirstRejected(files, faults, codecs.readPdf);
    if k < |files| {
      var staged := files[..StagedCount(files, k, faults)];
      assert MergeFolder(folder, files, now, faults, codecs) == StageAll(folder, staged, now);
      assert MergeResponse(files, faults, codecs) == RejectResponse(files[k], faults, codecs.readPdf);
      LastWriterWins(folder, staged, now);
    } else {
      var written := WrittenFolder(StageAll(folder, files, now), Contents(files), now, faults, codecs);
      assert MergeFolder(folder, files, now, faults, codecs) == written;
      assert MergeResponse(files, faults, codecs) == WriteResponse(Contents(files), faults, codecs);
      LastWriterWins(folder, files, now);
    }
  }
}
