/** The audit helper (`log_activity`, app.py lines 37-63): the name under
    which an upload is copied into the monitor folder, the sentinel stored
    when nothing is copied, the row written to `activity_log`, and what a
    failed copy leaves of the upload stream. */
module Audit {
  import opened Common
  import opened Naming

  /** The initial value of `saved_filename`. */
  const Sentinel := "N/A"

  /** One row of `activity_log (timestamp, tool_type, input_data, file_saved_as)`. */
  datatype AuditRecord = AuditRecord(timestamp: DateTime, toolType: string,
                                     inputData: string, fileSavedAs: string)

  /** How the monitor copy (`file_obj.save`, which opens the target for
      writing and then copies the stream into it) ends: written; raising at
      the open, before anything is created or read; or raising during the
      copy, after `consumed` bytes of the stream were read and `written` of
      them reached the file. */
  datatype ArchiveOutcome = Saved | OpenFailed | CopyFailed(consumed: nat, written: nat)

  /** `file_obj and filename`: an upload was passed and its name is not
      empty (`None` and `""` are both falsy). */
  predicate Archivable(fileObj: Option<Bytes>, filename: Option<string>) {
    fileObj.Some? && filename.Some? && filename.value != ""
  }

  /** The value of `saved_filename` when the insert runs. It is assigned
      before the copy is attempted, so it does not depend on the copy's
      outcome. */
  function SavedFilename(stamp: DateTime, fileObj: Option<Bytes>, filename: Option<string>): (r: string)
    requires ValidDateTime(stamp)
    ensures r == Sentinel <==> !Archivable(fileObj, filename)
    ensures Archivable(fileObj, filename) ==>
      && |r| == 16 + |filename.value|
      && r[..15] == Timestamp(stamp) && r[15] == '_' && r[16..] == filename.value
  {
    if Archivable(fileObj, filename) then ArchiveName(stamp, filename.value) else Sentinel
  }

  /** The read position of the upload stream once `log_activity` returns:
      rewound after a successful copy, left where the failed copy stopped
      reading otherwise (the `seek(0)` is skipped). */
  function StreamPosition(fileObj: Option<Bytes>, filename: Option<string>, outcome: ArchiveOutcome): (pos: nat)
    ensures fileObj.Some? ==> pos <= |fileObj.value|
    ensures pos != 0 ==> Archivable(fileObj, filename) && outcome.CopyFailed? && pos <= outcome.consumed
  {
    if Archivable(fileObj, filename) && outcome.CopyFailed? then
      (if outcome.consumed < |fileObj.value| then outcome.consumed else |fileObj.value|)
    else 0
  }

  /** How much of the upload a copy that failed mid-way left in its file:
      no more than it read and no more than it wrote. */
  function CopiedLength(data: Bytes, consumed: nat, written: nat): (n: nat)
    ensures n <= |data| && n <= consumed && n <= written
    ensures n == |data| || n == consumed || n == written
  {
    var read := if consumed < |data| then consumed else |data|;
    if written < read then written else read
  }

  /** The monitor folder after the copy step. A copy that got past the open
      has created, or truncated, the file under the archive name: it holds
      the whole upload when the copy succeeded, a prefix otherwise. */
  function ArchiveEffect(monitor: map<string, Bytes>, stamp: DateTime, fileObj: Option<Bytes>,
                         filename: Option<string>, outcome: ArchiveOutcome): (r: map<string, Bytes>)
    requires ValidDateTime(stamp)
    ensures forall k :: k in monitor ==> k in r
    ensures forall k :: k in r && k != SavedFilename(stamp, fileObj, filename) ==> k in monitor && r[k] == monitor[k]
    ensures !Archivable(fileObj, filename) || outcome.OpenFailed? ==> r == monitor
    ensures Archivable(fileObj, filename) && !outcome.OpenFailed? ==>
      var saved := SavedFilename(stamp, fileObj, filename);
      && saved in r && r[saved] <= fileObj.value
      && (outcome.Saved? ==> r[saved] == fileObj.value)
      && (outcome.CopyFailed? ==> |r[saved]| <= outcome.consumed && |r[saved]| <= outcome.written)
  {
    if !Archivable(fileObj, filename) then monitor
    else
      var saved := SavedFilename(stamp, fileObj, filename);
      match outcome
      case Saved => monitor[saved := fileObj.value]
      case OpenFailed => monitor
      case CopyFailed(consumed, written) =>
        monitor[saved := fileObj.value[..CopiedLength(fileObj.value, consumed, written)]]
  }

  /** The table after the insert: the row is added when the store is up. */
  function InsertEffect(table: seq<AuditRecord>, record: AuditRecord, dbUp: bool): (r: seq<AuditRecord>)
    ensures table <= r
    ensures |r| == |table| + (if dbUp then 1 else 0)
    ensures dbUp ==> r[|table|] == record
  {
    if dbUp then table + [record] else table
  }

  /** A successful copy is stored, byte for byte, under the very name the
      row records, and that name ends with the caller's file name. */
  lemma ArchivedUnderLoggedName(monitor: map<string, Bytes>, stamp: DateTime, data: Bytes, filename: string)
    requires ValidDateTime(stamp) && filename != ""
    ensures var saved := SavedFilename(stamp, Some(data), Some(filename));
      && saved in ArchiveEffect(monitor, stamp, Some(data), Some(filename), Saved)
      && ArchiveEffect(monitor, stamp, Some(data), Some(filename), Saved)[saved] == data
      && saved[|saved| - |filename| - 1..] == "_" + filename
  {
    var saved := SavedFilename(stamp, Some(data), Some(filename));
    assert saved[|saved| - |filename| - 1..] == saved[15..];
  }

  /** A failed copy does not fall back to the sentinel: the row still names
      the timestamped file. A failure at the open leaves the monitor folder
      as it was; a failure during the copy leaves that file holding at most
      what was read and written, replacing any copy made under the same name
      earlier in the same second. */
  lemma FailedCopyKeepsTimestampedName(monitor: map<string, Bytes>, stamp: DateTime, data: Bytes,
                                       filename: string, outcome: ArchiveOutcome)
    requires ValidDateTime(stamp) && filename != "" && !outcome.Saved?
    ensures SavedFilename(stamp, Some(data), Some(filename)) != Sentinel
    ensures SavedFilename(stamp, Some(data), Some(filename)) == ArchiveName(stamp, filename)
    ensures outcome.OpenFailed? ==> ArchiveEffect(monitor, stamp, Some(data), Some(filename), outcome) == monitor
    ensures outcome.CopyFailed? ==>
      var after := ArchiveEffect(monitor, stamp, Some(data), Some(filename), outcome);
      var saved := ArchiveName(stamp, filename);
      && saved in after && after[saved] <= data
      && |after[saved]| <= outcome.consumed && |after[saved]| <= outcome.written
      && (forall k :: k in after && k != saved ==> k in monitor && after[k] == monitor[k])
  {
  }

  /** The copy is non-destructive when it succeeds, fails before reading or
      is not attempted: the stream is then back at its start. */
  lemma StreamRewound(fileObj: Option<Bytes>, filename: Option<string>, outcome: ArchiveOutcome)
    requires !outcome.CopyFailed? || outcome.consumed == 0 || !Archivable(fileObj, filename)
    ensures StreamPosition(fileObj, filename, outcome) == 0
  {
  }
}
