# rekan-tools service model

A Dafny model of the Flask service in `app.py`. The service offers four
file tools: HEIC to PNG conversion, QR-code generation, PDF merging and
JPEG compression. The model covers:

- **The audit helper `log_activity`.** It copies an upload into the
  monitor folder under a `YYYYMMDD_HHMMSS_<filename>` name, or records the
  sentinel `"N/A"` when there is nothing to copy. It then inserts one row
  into `activity_log`, whether or not the copy worked. Both failures are
  swallowed.
- **One scan of the background cleaner `clean_old_files`.** It removes
  every listed upload whose modification time is strictly older than 600
  seconds before the scan's clock reading. Deletion refusals are ignored.
  A listed name that has vanished makes `os.stat` raise outside the `try`:
  the exception ends the cleaner's daemon thread, so a scan that does not
  complete is the cleaner's last one.
- **The names the handlers derive.**
  - `os.path.splitext(name)[0] + ".png"`, with `posixpath` semantics for
    leading dots and the last path component.
  - The fixed names `merged.pdf`, `compressed.jpg` and `qrcode.png`.
  - The compressor's colour rule: RGBA and P become RGB.
  - The audit descriptions.
- **What each handler does, step by step.**
  - It logs before it stages or decodes anything.
  - A missing `file` field fails before anything is logged.
  - The merge handler stages uploads in submission order, and a later
    upload of a name replaces an earlier one.
  - Staged inputs are never deleted by a handler.
  - Every exception inside a handler's `try` becomes a 500 reply with
    `{"error": ...}`.

The files, by module:

- `common.dfy`: the values the service handles. These are bytes, folders of
  timestamped entries, uploads, images, exceptions and replies.
- `digits.dfy`: zero-padded and unpadded decimal strings, and Python's
  string order.
- `naming.dfy`: the timestamp, archive name, `splitext`, output names,
  colour rule and descriptions.
- `janitor.dfy`: the cleaner's scan as a function, with an independent
  reference definition, `Survivors`.
- `audit.dfy`: `saved_filename`, the row, and where a failed copy leaves
  the upload stream.
- `staging.dfy`: saving a sequence of uploads into one folder.
- `pipeline.dfy`: a request as pure functions of its inputs. These are the
  steps it takes, the folder it leaves and the reply it sends.
- `app.dfy`: the process state as a class, `App.Server`. Its fields are the
  upload folder, the monitor folder, the `activity_log` table and the trace
  of steps taken. Each route handler is a method proved to take exactly the
  steps and make exactly the changes that the pipeline functions describe.

Some inputs are parameters of each call rather than modelled:

- The clock: `Clock`.
- Which writes the file system refuses, and how the monitor copy ends:
  `Faults`. The names `""`, `"."` and `".."` join to a directory, so every
  write to them fails.
- Whether the database accepts the insert: `Faults`.
- The image, QR and PDF libraries: `Codecs`, each a function that may fail.
  Whether `import qrcode` succeeds is `Codecs.qrInstalled`.
- The names `os.listdir` returns, in their order.

Facts about the code that the model makes explicit:

- **The archive name on a failed copy.** The name is assigned before the
  copy is attempted, and nothing resets it. A failed copy therefore still
  records the timestamped name; the code never falls back to `"N/A"` once
  there is a file to copy (`Audit.FailedCopyKeepsTimestampedName`).
- **Partial files.** `FileStorage.save` opens its destination for writing
  before it copies, so a copy that fails after the open leaves a prefix of
  the upload under the archive name. `PdfWriter.write` and Pillow's `save`
  also open the output before they encode, so a failing encoder leaves
  whatever it wrote in `merged.pdf`, or in a PNG output that already
  existed (`Pipeline.WrittenFolder`, `Pipeline.SavedFolder`).
- **Staged inputs.** No handler deletes a file it staged, nor any entry
  that existed before the request. The only file a handler deletes is a
  PNG output that its own failed save had just created; every other
  removal is the cleaner's (`Pipeline.HeicFolder`, `Pipeline.HeicOutcome`,
  `Pipeline.SavedFolder`, `Pipeline.MergeFolder`, `Pipeline.MergeOutcome`).
- **The retention boundary.** The cleaner's test is strict. An entry with
  `mtime == now - 600` survives the scan (`Janitor.RetentionWindow`).
- **Colour modes.** Only RGBA and P images are converted to RGB before
  JPEG encoding. LA, PA and every other mode reach the encoder unchanged
  (`Naming.CompressMode`).
- **Archive name uniqueness.** Two archive names coincide exactly when the
  second and the file name coincide, so two uploads of one name in one
  second share a monitor file (`Naming.ArchiveNameInjective`).
- **The two readers of the upload stream.** The converter stages the
  stream from where `log_activity` left it, while the compressor's
  `Image.open` seeks back to the start and decodes the whole upload
  (`Pipeline.ExhaustedCopyOnlyEmptiesStaging`, `App.Server.CompressImg`).
- **Merging no uploads.** With an empty upload list the loop does nothing,
  and the reply is whatever the PDF writer makes of no documents.

## Model

| member | source | states |
|---|---|---|
| Digits.PaddedRoundTrip | app.py:43 | a zero-padded `strftime` field reads back as its number when it fits the width |
| Digits.PaddedOrder | app.py:43 | zero padding makes string order agree with numeric order, in both directions |
| Digits.DecimalRoundTrip | app.py:140 | `str(n)` of a count reads back as the count |
| Naming.Timestamp | app.py:43 | `%Y%m%d_%H%M%S` is 15 characters, digits everywhere except `_` at index 8 |
| Naming.TimestampRoundTrip | app.py:43 | the stamp keeps every calendar field and loses only the microseconds |
| Naming.TimestampOrder | app.py:43 | one stamp sorts before another exactly when its second is earlier |
| Naming.ArchiveName | app.py:43-44 | the archive name is the stamp, `_`, then the caller's file name unchanged |
| Naming.ArchiveNameInjective | app.py:43-44 | two archive names coincide exactly when the second and the file name both coincide |
| Naming.ArchiveNamesSortChronologically | app.py:43-46 | a copy made in an earlier second sorts before a later one, whatever the file names |
| Naming.RFind | app.py:109 | the result is the index of the last occurrence of the character, or -1 when there is none |
| Naming.HasStem | app.py:109 | holds exactly when a non-dot character lies in the given range |
| Naming.SplitExt | app.py:109 | root and extension concatenate back to the name |
| Naming.SplitExtSpec | app.py:109 | `splitext` finds an extension exactly when the reference definition allows one, and splits at exactly that index |
| Naming.OutputName | app.py:109 | the output name ends in ".png" and is at most four characters longer than the input name |
| Naming.OutputNameSpec | app.py:109 | the output name ends in ".png"; it replaces the extension when there is one, and appends otherwise |
| Naming.OutputNameExamples | app.py:109 | "a.tar.gz" gives "a.tar.png", "notes" gives "notes.png", ".heic" gives ".heic.png" |
| Naming.OnlyLastExtensionReplaced | app.py:109 | the root of "a.tar.gz" is "a.tar": only the last extension is split off |
| Naming.NoExtensionAppended | app.py:109 | any name without a dot is all root, and its output name is the whole name followed by ".png" |
| Naming.LeadingDotKept | app.py:109 | any single path component in which only dots precede any dot, such as ".heic", is all root, and its output name is the whole name followed by ".png" |
| Naming.OutputOverwritesInput | app.py:107-110 | the output path equals the input path exactly when the input's extension is ".png" |
| Naming.CompressMode | app.py:162 | the mode sent to the encoder is never RGBA or P; it changes exactly for RGBA and P, and then to RGB |
| Naming.CompressModeIdempotent | app.py:162 | normalising twice is normalising once |
| Naming.MergeDescription | app.py:140 | the merge description starts with "Merged " and ends with " files", with something in between |
| Naming.MergeDescriptionRoundTrip | app.py:140 | the merge description is "Merged ", the count, " files", and the count reads back out of it |
| Naming.QrDescription | app.py:122 | the QR description starts with "URL: " |
| Naming.QrDescriptionConflates | app.py:121-122 | a missing text field and the text "None" are logged alike; any other text follows "URL: " verbatim |
| Janitor.SweepOnlyRemoves | app.py:69-73 | a scan, complete or not, only removes entries, and only listed, expired, deletable ones; every remaining entry is unchanged |
| Janitor.SweepIsSurvivors | app.py:66-74 | a scan completes exactly when every listed name still exists, and then it leaves exactly the reference survivors |
| Janitor.CycleRemovesExactlyExpired | app.py:69-73 | over a fresh listing with no refused deletion, exactly the non-expired entries remain, each unchanged |
| Janitor.RemovalFailuresIsolated | app.py:72-73 | a refused deletion does not stop the scan; every other expired listed entry goes, and refused, fresh or unlisted entries stay unchanged |
| Janitor.RetentionWindow | app.py:71 | an entry survives every scan up to and including `mtime + 600`, and the first scan after that removes it unless its deletion is refused |
| Janitor.StaleListingEndsCycle | app.py:69-71 | a listed name that has vanished makes `os.stat` raise, and the scan does not complete |
| Audit.SavedFilename | app.py:38-44 | the recorded name is "N/A" exactly when there is no upload or no file name; otherwise it is the stamp, `_`, then the file name |
| Audit.StreamPosition | app.py:41-49 | the stream is rewound unless an attempted copy failed; it then stays at most where the copy stopped reading |
| Audit.CopiedLength | app.py:46 | a copy that failed mid-way left no more than the upload, no more than it read and no more than it wrote, and hit one of those bounds |
| Audit.ArchiveEffect | app.py:41-49 | the copy removes nothing and touches only the archive name; nothing is written when there is nothing to copy or the open fails; otherwise the file holds a prefix of the upload, the whole upload on success, and no more than was read and written on failure |
| Audit.InsertEffect | app.py:52-63 | the table only grows, by exactly the one row when the database is up and not at all otherwise |
| Audit.ArchivedUnderLoggedName | app.py:43-46 | a successful copy is stored byte for byte under the very name recorded in the row, which ends in `_` and the file name |
| Audit.FailedCopyKeepsTimestampedName | app.py:41-49 | a failed copy still records the timestamped name, not "N/A"; a failed open changes nothing, and a copy failing after the open leaves a read- and write-bounded prefix under that name, replacing any earlier copy there |
| Audit.StreamRewound | app.py:46-47 | when the copy succeeds, reads nothing or is not attempted, the handler reads the upload from its start |
| Staging.StageAllKeys | app.py:143-145 | staging adds exactly the uploaded names and leaves every other entry unchanged |
| Staging.Contents | app.py:143-146 | the writer receives every upload's bytes, in submission order |
| Staging.LastNamed | app.py:143-145 | the result is the index of the last upload with the name, or -1 when there is none |
| Staging.LastWriterWins | app.py:143-145 | after staging, a name holds the bytes of its last upload, names not uploaded keep their entry, and nothing is removed |
| Staging.DistinctNamesAllStaged | app.py:143-145 | with distinct names, every upload is in the folder under its name |
| Pipeline.AuditSteps | app.py:37-63 | `log_activity` takes only audit steps, makes exactly one insert attempt and stages nothing |
| Pipeline.SaveSteps | app.py:112 | Pillow's `save` opens the output first, and encodes into it only when the open succeeds; neither step stages or audits |
| Pipeline.SavedFolder | app.py:112 | only the output's entry can change; a failed open changes nothing; a successful encode stores the PNG; a failed encode keeps what it wrote in an output that existed before, and removes an output the save had just created |
| Pipeline.SaveResponse | app.py:112-115 | the PNG is sent as an attachment under the output name exactly when the open and the encode succeed; a failed open is reported before any encoder error; every failure is a 500 |
| Pipeline.HeicSteps | app.py:107-112 | after logging, the converter first stages its input and then stages nothing more, in at most four steps |
| Pipeline.HeicFolder | app.py:107-112 | the converter removes nothing, adds at most its input and its output, and leaves every other entry unchanged |
| Pipeline.HeicResponse | app.py:112-115 | a convert reply is a 500 or the PNG as an attachment under the derived name |
| Pipeline.HeicOrder | app.py:104-112 | a convert request logs before anything else, makes one insert and stages exactly its one upload |
| Pipeline.HeicOutcome | app.py:107-115 | the PNG is sent exactly when staging, decoding, opening the output and encoding succeed, and the folder then holds it; the input stays staged unless it already ends in ".png", and its name stays in the folder whenever its save went through, whatever fails later; a failure adds no output that was not there |
| Pipeline.InMemoryOrder | app.py:159-167 | a compress request logs first, makes one insert and stages nothing |
| Pipeline.QrSteps | app.py:119-127 | a QR request takes no step at all exactly when `import qrcode` raises |
| Pipeline.QrOrder | app.py:119-132 | a QR request logs first, stages nothing, and inserts one row exactly when the QR library imports |
| Pipeline.QrResponse | app.py:119-134 | the QR PNG is sent inline as "qrcode.png" exactly when the library imports and the encoder succeeds; a failed import is a 500 naming the module; every failure is a 500 |
| Pipeline.Normalize | app.py:161-162 | the image given to the encoder has the normalised mode, and is the decoded image itself when the mode was kept |
| Pipeline.CompressResponse | app.py:161-169 | a compress reply is a 500 or the JPEG inline as "compressed.jpg" with type image/jpeg |
| Pipeline.CompressEncodesNormalized | app.py:161-169 | the JPEG is sent exactly when decoding and encoding succeed; the encoder never receives an RGBA or P image; the body is the encoding of the normalised image |
| Pipeline.ExhaustedCopyOnlyEmptiesStaging | app.py:105-108 | after a monitor copy that failed having read the whole stream, the stream is at its end and the converter stages no bytes |
| Pipeline.FirstRejected | app.py:143-146 | the result is the index of the first upload whose save or append raises, with every earlier upload accepted |
| Pipeline.AcceptedBeforeFirstRejected | app.py:143-146 | an accepted upload not past the first rejected one lies before it |
| Pipeline.LoopSteps | app.py:143-146 | the loop takes two non-audit steps per accepted upload |
| Pipeline.LoopStagesInOrder | app.py:143-145 | the loop stages the uploads' names in submission order |
| Pipeline.RejectSteps | app.py:144-146 | a loop stopped at an upload ends with that upload's save and at most one more step, which stages nothing |
| Pipeline.RejectResponse | app.py:144-153 | a stopped loop replies with a 500: the save's OSError, naming the upload, exactly when the save fails, and otherwise the append's error |
| Pipeline.WriteSteps | app.py:148-149 | `merger.write` opens "merged.pdf" first, and writes into it only when the open succeeds; neither step stages or audits |
| Pipeline.WrittenFolder | app.py:148-149 | only "merged.pdf" can change; a failed open changes nothing; once it opens it holds what the writer produced, whether or not the writer then raised |
| Pipeline.WriteResponse | app.py:149-153 | "merged.pdf" is sent as an attachment exactly when the open and the writer succeed; a failed open is reported before any writer error; every failure is a 500 |
| Pipeline.MergeSteps | app.py:142-150 | the merge takes no audit step after logging |
| Pipeline.MergeFolder | app.py:142-150 | a merge removes nothing, adds only uploaded names and "merged.pdf", and leaves every other entry unchanged |
| Pipeline.MergeResponse | app.py:149-153 | a merge reply is a 500 or "merged.pdf" as an attachment |
| Pipeline.MergeStagesInOrder | app.py:143-149 | a merge stages the uploads in order, up to and including the first rejected one |
| Pipeline.RejectedStages | app.py:143-146 | a merge stopped at an upload has staged exactly the names up to and including it |
| Pipeline.AcceptedStages | app.py:143-149 | a merge with no rejected upload stages every upload's name in order, and the write stages nothing |
| Pipeline.MergeOrder | app.py:139-149 | a merge request logs first, makes one insert and stages the uploads in order up to the first rejected one |
| Pipeline.MergeOutcome | app.py:142-153 | "merged.pdf" is sent exactly when no upload is rejected, the file opens and the writer succeeds; once it opens it holds the writer's output, whole or partial; once no upload is rejected, each staged name holds its last upload, even when "merged.pdf" then fails to open or the writer raises; a rejected merge is a 500, and each name it staged, up to the failing upload, holds its last upload there |
| App.Server.constructor | app.py:21-24 | the folders and the table start as they already are; the trace starts empty |
| App.Server.LogActivity | app.py:37-63 | the monitor folder, table, trace, recorded name and stream position become exactly what the audit functions say; the upload folder is untouched |
| App.Server.SaveMonitorCopy | app.py:41-49 | the monitor folder becomes `ArchiveEffect` of its old value, including the prefix a copy failing after the open leaves; one archive step is recorded |
| App.Server.InsertRecord | app.py:52-63 | one insert attempt is recorded, and the row is appended only when the database is up |
| App.Server.CleanOldFiles | app.py:66-74 | one scan leaves the upload folder exactly as `Janitor.Sweep` says, reports whether it completed, and changes nothing else |
| App.Server.ConvertHeic | app.py:101-115 | a missing field is a 500 with no side effect; otherwise the audit effects, the trace, the folder and the reply are exactly the pipeline model's, staging the stream from where the copy left it |
| App.Server.ConvertStaged | app.py:107-112 | staging and decoding, then the PNG save, match `HeicSteps`, `HeicFolder` and `HeicResponse` |
| App.Server.SavePng | app.py:110-113 | opening and encoding the PNG output match `SaveSteps`, `SavedFolder` and `SaveResponse` |
| App.Server.GenerateQr | app.py:117-134 | a failed `import qrcode` is a 500 with no side effect; otherwise it logs the QR description with "N/A", takes one library step, and replies as `QrResponse`; the folders are untouched |
| App.Server.MergePdf | app.py:136-153 | logs the count with "N/A", then the trace, the folder and the reply are exactly `MergeSteps`, `MergeFolder` and `MergeResponse` |
| App.Server.MergeStaged | app.py:142-153 | the loop and the write match the merge pipeline functions, stopping at the first rejected upload |
| App.Server.StageUploads | app.py:143-146 | the loop stops at the first rejected upload; the trace and the folder are the loop's up to there, and when nothing is rejected the appended documents are every upload's bytes in order |
| App.Server.StageOne | app.py:144-146 | one upload is accepted exactly when neither its save nor its append raises; it is staged unless its save fails at the open |
| App.Server.WriteMerged | app.py:148-151 | opening and writing "merged.pdf" match `WriteSteps`, `WrittenFolder` and `WriteResponse` |
| App.Server.CompressImg | app.py:155-169 | a missing field is a 500 with no side effect; otherwise it logs and copies, decodes the whole upload and replies as `CompressResponse`; the upload folder is untouched |
| App.LoopTurn | app.py:143-146 | one more turn extends the staged folder, the appended documents and the steps by exactly that upload |

## Left out

- App.Server.CleanOldFiles: models one pass of the `while True` loop. The repetition, `time.sleep(600)` and the daemon thread are not modelled, nor is a scan running concurrently with a request. A scan that does not complete is the last scan, because the exception ends the thread; the model reports it as `completed == false` and no later scan is modelled.
- Concurrency: each handler is modelled running alone, from start to finish, over the upload folder. Requests that the threaded development server started by `app.run` runs at the same time are not modelled, so neither is one request overwriting or reading another's staged file of the same name.
- Time: `time.time()` and `st_mtime` are real numbers, so floating-point rounding is not modelled. The two `datetime.now()` calls of `log_activity` are two independent readings (`Clock.stamp` and `Clock.logged`).
- The database: `get_db_connection`, MySQL, the connect timeout and the `.env` loading are reduced to whether the insert is accepted (`Faults.dbUp`).
- The libraries: Pillow, `pillow_heif`, `qrcode` and `pypdf` are opaque functions in `Codecs`. Whether the QR library imports is a flag.
- The QR encoder's parameters (box size 10, border 4, black on white) and the JPEG parameters (quality 60, optimise) are inside the opaque codecs.
- Paths: `os.path.join` is modelled as a flat folder keyed by the file name. The names `""`, `"."` and `".."` are writes that fail. Absolute names and names containing separators, which would leave the folder, are not modelled.
- App.Server.StageOne: a staging `file.save` either fails at the open, leaving the folder unchanged, or writes the whole upload. A save that creates the file and then fails mid-copy, leaving a partial upload, is not modelled.
- App.Server.ConvertStaged: as for `StageOne`, the input's `file.save` is not modelled failing mid-copy.
- App.Server.WriteMerged: `merger.close()` is not modelled.
- App.Server.CompressImg: the `seek(0)` that `Image.open` performs is taken to succeed; a stream that cannot seek is not modelled.
- The file-upload object's truthiness is modelled through its file name: an empty name is not copied.
- The routes `robots.txt`, `sitemap.xml` and `/`, the templates, the static script, `print` output and `app.run` are not part of this model.
