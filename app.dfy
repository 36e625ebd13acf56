/** The service process (app.py): the upload folder the handlers stage into
    and the cleaner sweeps, the monitor folder of audit copies, the
    `activity_log` table, and every step taken so far. Each handler is
    proved to do what the matching functions of the pipeline model say. */
module App {
  import opened Common
  import opened Naming
  import opened Janitor
  import opened Audit
  import opened Staging
  import opened Pipeline

  class Server {
    /** UPLOAD_FOLDER: working storage. */
    var uploads: Folder
    /** MONITOR_FOLDER: audit copies, never purged. */
    var monitor: map<string, Bytes>
    /** The `activity_log` table. */
    var activityLog: seq<AuditRecord>
    /** Every step taken so far. */
    var trace: seq<Step>

    /** Start-up: `os.makedirs(..., exist_ok=True)` keeps what the folders
        already hold, and the table outlives the process; no step is taken
        yet. */
    constructor (initialUploads: Folder, initialMonitor: map<string, Bytes>, initialLog: seq<AuditRecord>)
      ensures uploads == initialUploads && monitor == initialMonitor && activityLog == initialLog
      ensures trace == []
    {
      uploads, monitor, activityLog, trace := initialUploads, initialMonitor, initialLog, [];
    }

    /** `log_activity`: copy the upload into the monitor folder under a
        timestamped name, then insert the row; both failures are swallowed,
        so it always returns. Also returns the upload stream's position. */
    method LogActivity(toolType: string, inputData: string, fileObj: Option<Bytes>,
                       filename: Option<string>, clock: Clock, faults: Faults)
      returns (saved: string, position: nat)
      requires ValidDateTime(clock.stamp)
      modifies this
      ensures saved == SavedFilename(clock.stamp, fileObj, filename)
      ensures position == StreamPosition(fileObj, filename, faults.archive)
      ensures monitor == ArchiveEffect(old(monitor), clock.stamp, fileObj, filename, faults.archive)
      ensures activityLog == InsertEffect(old(activityLog), AuditRecord(clock.logged, toolType, inputData, saved), faults.dbUp)
      ensures trace == old(trace) + AuditSteps(saved, Archivable(fileObj, filename),
                                               AuditRecord(clock.logged, toolType, inputData, saved))
      ensures uploads == old(uploads)
    {
      saved := Sentinel;
      position := 0;
      if fileObj.Some? && filename.Some? && filename.value != "" {
        saved, position := SaveMonitorCopy(fileObj.value, filename.value, clock.stamp, faults.archive);
      }
      var record := AuditRecord(clock.logged, toolType, inputData, saved);
      InsertRecord(record, faults.dbUp);
    }

    /** The first `try` of `log_activity`: name the copy, write it, rewind
        the stream; a failure is printed and swallowed. */
    method SaveMonitorCopy(data: Bytes, filename: string, stamp: DateTime, outcome: ArchiveOutcome)
      returns (saved: string, position: nat)
      requires ValidDateTime(stamp) && filename != ""
      modifies this
      ensures saved == ArchiveName(stamp, filename)
      ensures position == StreamPosition(Some(data), Some(filename), outcome)
      ensures monitor == ArchiveEffect(old(monitor), stamp, Some(data), Some(filename), outcome)
      ensures trace == old(trace) + [ArchiveSave(saved)]
      ensures uploads == old(uploads) && activityLog == old(activityLog)
    {
      saved := ArchiveName(stamp, filename);
      trace := trace + [ArchiveSave(saved)];
      position := 0;
      match outcome
      case Saved =>
        monitor := monitor[saved := data];
      case OpenFailed =>
        // open(dst, "wb") raised: nothing created, nothing read
      case CopyFailed(consumed, written) =>
        // the file was created (or truncated) and holds what reached it
        monitor := monitor[saved := data[..CopiedLength(data, consumed, written)]];
        position := if consumed < |data| then consumed else |data|;
    }

    /** The second `try` of `log_activity`: one insert attempt; a failure is
        printed and swallowed. */
    method InsertRecord(record: AuditRecord, dbUp: bool)
      modifies this
      ensures activityLog == InsertEffect(old(activityLog), record, dbUp)
      ensures trace == old(trace) + [DbInsert(record)]
      ensures uploads == old(uploads) && monitor == old(monitor)
    {
      trace := trace + [DbInsert(record)];
      if dbUp {
        activityLog := activityLog + [record];
      }
    }

    /** One scan of `clean_old_files` at clock reading `now`, over the names
        `os.listdir` returned. Returns false when the scan ended early
        because a listed entry had vanished. */
    method CleanOldFiles(now: real, listing: seq<string>, undeletable: set<string>) returns (completed: bool)
      modifies this
      ensures Sweep(old(uploads), listing, now, undeletable) == Cycle(uploads, completed)
      ensures monitor == old(monitor) && activityLog == old(activityLog) && trace == old(trace)
    {
      var i := 0;
      while i < |listing|
        invariant 0 <= i <= |listing|
        invariant Sweep(old(uploads), listing[..i], now, undeletable) == Cycle(uploads, true)
        invariant monitor == old(monitor) && activityLog == old(activityLog) && trace == old(trace)
      {
        assert listing[..i + 1][..i] == listing[..i];
        var name := listing[i];
        if name !in uploads {
          assert listing[..i + 1] == listing[..i] + [name];
          assert Sweep(old(uploads), listing[..i + 1], now, undeletable) == Cycle(uploads, false);
          // os.stat raises outside the try: the scan ends here
          SweepStopped(old(uploads), listing, i + 1, now, undeletable);
          return false;
        }
        if uploads[name].mtime < now - RetentionSeconds {
          if name !in undeletable {
            uploads := uploads - {name};
          }
          // else: os.remove raised, and the bare except ignored it
        }
        i := i + 1;
      }
      assert listing[..i] == listing;
      return true;
    }

    /** `convert_heic`: take the `file` field, log and copy it, stage it
        under its own name, convert it to PNG under the derived name. */
    method ConvertHeic(file: Option<Upload>, clock: Clock, faults: Faults, codecs: Codecs)
      returns (resp: Response)
      requires ValidDateTime(clock.stamp)
      modifies this
      ensures file.None? ==>
        && resp == ErrorJson(ServerErrorStatus, MissingField("file"))
        && uploads == old(uploads) && monitor == old(monitor)
        && activityLog == old(activityLog) && trace == old(trace)
      ensures file.Some? ==>
        var u := file.value;
        var saved := SavedFilename(clock.stamp, Some(u.data), Some(u.filename));
        var record := AuditRecord(clock.logged, HeicTool, ImageUploaded, saved);
        var staged := u.data[StreamPosition(Some(u.data), Some(u.filename), faults.archive)..];
        && monitor == ArchiveEffect(old(monitor), clock.stamp, Some(u.data), Some(u.filename), faults.archive)
        && activityLog == InsertEffect(old(activityLog), record, faults.dbUp)
        && trace == old(trace) + AuditSteps(saved, Archivable(Some(u.data), Some(u.filename)), record)
                    + HeicSteps(u.filename, staged, faults, codecs)
        && uploads == HeicFolder(old(uploads), u.filename, staged, clock.now, faults, codecs)
        && resp == HeicResponse(u.filename, staged, faults, codecs)
    {
      if file.None? {
        // request.files['file'] raises before anything is logged
        return ErrorJson(ServerErrorStatus, MissingField("file"));
      }
      var upload := file.value;
      var _, position := LogActivity(HeicTool, ImageUploaded, Some(upload.data), Some(upload.filename), clock, faults);
      resp := ConvertStaged(upload.filename, upload.data[position..], clock.now, faults, codecs);
    }

    /** The rest of the `try` of `convert_heic`, from `file.save(input_path)` on. */
    method ConvertStaged(filename: string, staged: Bytes, now: real, faults: Faults, codecs: Codecs)
      returns (resp: Response)
      modifies this
      ensures trace == old(trace) + HeicSteps(filename, staged, faults, codecs)
      ensures uploads == HeicFolder(old(uploads), filename, staged, now, faults, codecs)
      ensures resp == HeicResponse(filename, staged, faults, codecs)
      ensures monitor == old(monitor) && activityLog == old(activityLog)
    {
      var inputPath := filename;
      trace := trace + [Stage(inputPath)];
      if WriteFails(inputPath, faults) {
        return ErrorJson(ServerErrorStatus, OsError(inputPath));
      }
      uploads := uploads[inputPath := Entry(staged, now)];
      trace := trace + [Codec];
      var decoded := codecs.openImage(uploads[inputPath].content);
      if decoded.Err? {
        return ErrorJson(ServerErrorStatus, CodecError(decoded.message));
      }
      resp := SavePng(OutputName(filename), decoded.value, now, faults, codecs);
    }

    /** `.save(output_path, "PNG")` of the decoded image: open the output
        (creating or truncating it), encode into it, reply with the file. */
    method SavePng(out: string, img: Image, now: real, faults: Faults, codecs: Codecs)
      returns (resp: Response)
      modifies this
      ensures trace == old(trace) + SaveSteps(out, faults)
      ensures uploads == SavedFolder(old(uploads), out, img, now, faults, codecs)
      ensures resp == SaveResponse(out, img, faults, codecs)
      ensures monitor == old(monitor) && activityLog == old(activityLog)
    {
      trace := trace + [WriteOutput(out)];
      if WriteFails(out, faults) {
        return ErrorJson(ServerErrorStatus, OsError(out));
      }
      var existed := out in uploads;
      trace := trace + [Codec];
      var png := codecs.savePng(img);
      if png.error.Some? {
        if existed {
          // the truncated file keeps what the encoder wrote
          uploads := uploads[out := Entry(png.bytes, now)];
        }
        // else: the file the save created is removed again
        return ErrorJson(ServerErrorStatus, CodecError(png.error.value));
      }
      uploads := uploads[out := Entry(png.bytes, now)];
      resp := SendFile(out, None, true, uploads[out].content);
    }

    /** `generate_qr`: import the QR library, then log the text field,
        possibly absent, and hand it to the QR encoder; nothing touches the
        upload folder. */
    method GenerateQr(text: Option<string>, clock: Clock, faults: Faults, codecs: Codecs)
      returns (resp: Response)
      requires ValidDateTime(clock.stamp)
      modifies this
      ensures var record := AuditRecord(clock.logged, QrTool, QrDescription(text), Sentinel);
        && activityLog == (if codecs.qrInstalled then InsertEffect(old(activityLog), record, faults.dbUp)
                           else old(activityLog))
        && trace == old(trace) + QrSteps(record, codecs)
      ensures uploads == old(uploads) && monitor == old(monitor)
      ensures resp == QrResponse(text, codecs)
    {
      if !codecs.qrInstalled {
        // `import qrcode` raises before anything is logged
        return ErrorJson(ServerErrorStatus, MissingModule("qrcode"));
      }
      var _, _ := LogActivity(QrTool, QrDescription(text), None, None, clock, faults);
      trace := trace + [Codec];
      var png := codecs.qrPng(text);
      if png.Err? {
        return ErrorJson(ServerErrorStatus, CodecError(png.message));
      }
      resp := SendFile(QrName, Some("image/png"), false, png.value);
    }

    /** `merge_pdf`: log the count, then stage and append each upload in
        submission order, then write "merged.pdf". */
    method MergePdf(files: seq<Upload>, clock: Clock, faults: Faults, codecs: Codecs)
      returns (resp: Response)
      requires ValidDateTime(clock.stamp)
      modifies this
      ensures var record := AuditRecord(clock.logged, MergeTool, MergeDescription(|files|), Sentinel);
        && activityLog == InsertEffect(old(activityLog), record, faults.dbUp)
        && trace == old(trace) + AuditSteps(Sentinel, false, record) + MergeSteps(files, faults, codecs)
      ensures uploads == MergeFolder(old(uploads), files, clock.now, faults, codecs)
      ensures monitor == old(monitor)
      ensures resp == MergeResponse(files, faults, codecs)
    {
      var _, _ := LogActivity(MergeTool, MergeDescription(|files|), None, None, clock, faults);
      resp := MergeStaged(files, clock.now, faults, codecs);
    }

    /** The `try` of `merge_pdf`: the loop over the uploads, then the write.
        An exception in the loop ends the request with the loop's reply. */
    method MergeStaged(files: seq<Upload>, now: real, faults: Faults, codecs: Codecs)
      returns (resp: Response)
      modifies this
      ensures trace == old(trace) + MergeSteps(files, faults, codecs)
      ensures uploads == MergeFolder(old(uploads), files, now, faults, codecs)
      ensures resp == MergeResponse(files, faults, codecs)
      ensures monitor == old(monitor) && activityLog == old(activityLog)
    {
      var k, merger := StageUploads(files, now, faults, codecs);
      if k < |files| {
        return RejectResponse(files[k], faults, codecs.readPdf);
      }
      resp := WriteMerged(merger, now, faults, codecs);
    }

    /** `for file in files`: save each upload under its own name, then append
        it; stops at the first save or append that raises, and returns its
        index, or the count when none does. */
    method StageUploads(files: seq<Upload>, now: real, faults: Faults, codecs: Codecs)
      returns (k: nat, merger: seq<Bytes>)
      modifies this
      ensures k == FirstRejected(files, faults, codecs.readPdf)
      ensures k < |files| ==>
        && trace == old(trace) + LoopSteps(files[..k]) + RejectSteps(files[k], faults)
        && uploads == StageAll(old(uploads), files[..StagedCount(files, k, faults)], now)
      ensures k == |files| ==>
        && trace == old(trace) + LoopSteps(files)
        && uploads == StageAll(old(uploads), files, now)
        && merger == Contents(files)
      ensures monitor == old(monitor) && activityLog == old(activityLog)
    {
      merger := [];
      k := 0;
      while k < |files|
        invariant 0 <= k <= |files|
        invariant k <= FirstRejected(files, faults, codecs.readPdf)
        invariant uploads == StageAll(old(uploads), files[..k], now)
        invariant merger == Contents(files[..k])
        invariant trace == old(trace) + LoopSteps(files[..k])
        invariant monitor == old(monitor) && activityLog == old(activityLog)
      {
        var file := files[k];
        LoopTurn(old(uploads), files, k, now);
        var accepted := StageOne(file, now, faults, codecs);
        if !accepted {
          return;
        }
        AcceptedBeforeFirstRejected(files, k, faults, codecs.readPdf);
        assert trace == old(trace) + LoopSteps(files[..k + 1]);
        merger := merger + [file.data];
        k := k + 1;
      }
      assert files[..k] == files;
    }

    /** One turn of the merge loop: `file.save(path)`, then
        `merger.append(path)`; reports whether both went through. */
    method StageOne(file: Upload, now: real, faults: Faults, codecs: Codecs) returns (accepted: bool)
      modifies this
      ensures accepted == !Rejected(file, faults, codecs.readPdf)
      ensures accepted ==> trace == old(trace) + [Stage(file.filename), Codec]
      ensures accepted ==> uploads == old(uploads)[file.filename := Entry(file.data, now)]
      ensures !accepted ==> trace == old(trace) + RejectSteps(file, faults)
      ensures uploads == if WriteFails(file.filename, faults) then old(uploads)
                         else old(uploads)[file.filename := Entry(file.data, now)]
      ensures monitor == old(monitor) && activityLog == old(activityLog)
    {
      trace := trace + [Stage(file.filename)];
      if WriteFails(file.filename, faults) {
        return false;
      }
      uploads := uploads[file.filename := Entry(file.data, now)];
      trace := trace + [Codec];
      var error := codecs.readPdf(uploads[file.filename].content);
      accepted := error.None?;
    }

    /** `merger.write(output_path)`: open "merged.pdf", then write the
        appended documents into it; reply with the file. */
    method WriteMerged(docs: seq<Bytes>, now: real, faults: Faults, codecs: Codecs)
      returns (resp: Response)
      modifies this
      ensures trace == old(trace) + WriteSteps(faults)
      ensures uploads == WrittenFolder(old(uploads), docs, now, faults, codecs)
      ensures resp == WriteResponse(docs, faults, codecs)
      ensures monitor == old(monitor) && activityLog == old(activityLog)
    {
      trace := trace + [WriteOutput(MergedName)];
      if WriteFails(MergedName, faults) {
        return ErrorJson(ServerErrorStatus, OsError(MergedName));
      }
      trace := trace + [Codec];
      var merged := codecs.writePdf(docs);
      // the opened file keeps what the writer wrote, whether or not it then raised
      uploads := uploads[MergedName := Entry(merged.bytes, now)];
      if merged.error.Some? {
        return ErrorJson(ServerErrorStatus, CodecError(merged.error.value));
      }
      resp := SendFile(MergedName, None, true, uploads[MergedName].content);
    }

    /** `compress_img`: log, decode the whole upload, normalise the colour
        mode, encode as JPEG in memory. */
    method CompressImg(file: Option<Upload>, clock: Clock, faults: Faults, codecs: Codecs)
      returns (resp: Response)
      requires ValidDateTime(clock.stamp)
      modifies this
      ensures uploads == old(uploads)
      ensures file.None? ==>
        && resp == ErrorJson(ServerErrorStatus, MissingField("file"))
        && monitor == old(monitor) && activityLog == old(activityLog) && trace == old(trace)
      ensures file.Some? ==>
        var u := file.value;
        var saved := SavedFilename(clock.stamp, Some(u.data), Some(u.filename));
        var record := AuditRecord(clock.logged, CompressTool, ImageUploaded, saved);
        && monitor == ArchiveEffect(old(monitor), clock.stamp, Some(u.data), Some(u.filename), faults.archive)
        && activityLog == InsertEffect(old(activityLog), record, faults.dbUp)
        && trace == old(trace) + AuditSteps(saved, Archivable(Some(u.data), Some(u.filename)), record)
                    + InMemorySteps
        && resp == CompressResponse(u.data, codecs)
    {
      if file.None? {
        // request.files['file'] raises before anything is logged
        return ErrorJson(ServerErrorStatus, MissingField("file"));
      }
      var upload := file.value;
      var _, _ := LogActivity(CompressTool, ImageUploaded, Some(upload.data), Some(upload.filename), clock, faults);
      trace := trace + [Codec];
      // Image.open seeks the stream back to its start before reading
      var decoded := codecs.openImage(upload.data);
      if decoded.Err? {
        return ErrorJson(ServerErrorStatus, CodecError(decoded.message));
      }
      var img := decoded.value;
      if img.mode == "RGBA" || img.mode == "P" {
        img := Image("RGB", codecs.toRgb(img));
      }
      var jpeg := codecs.saveJpeg(img);
      if jpeg.Err? {
        return ErrorJson(ServerErrorStatus, CodecError(jpeg.message));
      }
      resp := SendFile(CompressedName, Some("image/jpeg"), false, jpeg.value);
    }
  }

  /** One more turn of the merge loop extends the staged folder, the
      appended documents and the steps by upload `k`. */
  lemma LoopTurn(folder: Folder, files: seq<Upload>, k: nat, now: real)
    requires k < |files|
    ensures StageAll(folder, files[..k + 1], now)
            == StageAll(folder, files[..k], now)[files[k].filename := Entry(files[k].data, now)]
    ensures Contents(files[..k + 1]) == Contents(files[..k]) + [files[k].data]
    ensures LoopSteps(files[..k + 1]) == LoopSteps(files[..k]) + [Stage(files[k].filename), Codec]
  {
    assert files[..k + 1][..k] == files[..k];
  }
}
