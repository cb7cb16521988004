/** `processFiles`: the batch run. Inputs get a name from their `path` when
    they have none, nameless inputs are dropped, one pending record is made per
    remaining input, and the records are then handled one after the other:
    each is marked `processing`, classified, and settled as `success` or
    `error`. The `onProgress` callback is modelled as the sequence of
    snapshots it receives, each the value of the record list at that call. */
module PdfProcessor {
  import opened Wrappers
  import opened JsText
  import opened ProcessingStatus
  import opened SerialExtraction
  import opened Exports

  const NOT_FOUND_REASON := "Número de série não encontrado no padrão 1X000000X"
  const UNKNOWN_ERROR := "Erro desconhecido durante processamento"

  /** One input: a `File` with its `id` and the optional `path`. An empty
      `name` stands for a missing one. */
  datatype FileEntry = FileEntry(id: string, name: string, path: Option<string>)

  /** The name fallback: a file with a non-empty `path` and no name is named
      after its path with the first "./" removed. */
  function WithPathName(f: FileEntry): (g: FileEntry)
    ensures g.id == f.id && g.path == f.path
    ensures f.name != "" ==> g.name == f.name
    ensures f.name == "" && f.path.Some? && f.path.value != "" ==>
              g.name == ReplaceFirst(f.path.value, "./", "")
    ensures f.name == "" && (f.path.None? || f.path.value == "") ==> g.name == ""
  {
    if f.path.Some? && f.path.value != "" && f.name == "" then
      f.(name := ReplaceFirst(f.path.value, "./", ""))
    else f
  }

  predicate HasName(f: FileEntry) {
    f.name != ""
  }

  /** `validFiles`: the inputs after the fallback, without the nameless ones. */
  function ValidFiles(files: seq<FileEntry>): (valid: seq<FileEntry>)
    ensures |valid| <= |files|
    ensures forall k :: 0 <= k < |valid| ==> valid[k].name != ""
    ensures |valid| == |files| <==> forall j :: 0 <= j < |files| ==> WithPathName(files[j]).name != ""
  {
    Filter(Map(WithPathName, files), HasName)
  }

  /** The valid files are the inputs that have a name after the fallback, in
      input order and with the same ids; the others are dropped, and some
      input is dropped exactly when there are fewer valid files than inputs. */
  lemma ValidFilesKeepNamedInputs(files: seq<FileEntry>)
    ensures var valid, idx := ValidFiles(files), KeptIndices(Map(WithPathName, files), HasName, 0);
      && |valid| == |idx| <= |files|
      && (forall k :: 0 <= k < |idx| ==>
            idx[k] < |files| && valid[k] == WithPathName(files[idx[k]]) &&
            valid[k].id == files[idx[k]].id && valid[k].name != "")
      && (forall k, l :: 0 <= k < l < |idx| ==> idx[k] < idx[l])
      && (forall j :: 0 <= j < |files| ==> (WithPathName(files[j]).name != "" <==> j in idx))
  {
    var named := Map(WithPathName, files);
    FilterKeepsOrder(named, HasName, 0);
    KeptIndicesMembers(named, HasName, 0);
    assert named[0..] == named;
  }

  /** Some input is dropped exactly when there are fewer valid files than
      inputs, which is when the warning is logged. */
  lemma SomeInputDropped(files: seq<FileEntry>)
    ensures |ValidFiles(files)| != |files| <==>
              exists j :: 0 <= j < |files| && WithPathName(files[j]).name == ""
  {
    var named := Map(WithPathName, files);
    if |ValidFiles(files)| != |files| {
      var j :| 0 <= j < |named| && !HasName(named[j]);
    }
  }

  /** A fresh record: `pending`, with none of the optional fields. */
  function PendingRecord(f: FileEntry): (r: ProcessingFile)
    ensures r.id == f.id && r.name == f.name && !IsCompleted(r)
    ensures FileDetail(r) == None && StatusBadge(r.status).text == "Aguardando"
  {
    ProcessingFile(f.id, f.name, Pending, None, None, None)
  }

  /** The message the `catch` block stores. */
  function CaughtMessage(t: Thrown): (m: string)
    ensures t.ErrorObject? ==> m == t.message
    ensures !t.ErrorObject? ==> m == "Erro desconhecido durante processamento"
  {
    match t
    case ErrorObject(message) => message
    case NonError => UNKNOWN_ERROR
  }

  /** The transition out of `processing`: a (truthy) serial number makes a
      success named after it, `null` and a thrown value make an error with a
      reason. */
  function Settle(r: ProcessingFile, e: Extraction): (s: ProcessingFile)
    ensures s.id == r.id && s.name == r.name
    ensures IsCompleted(s)
    ensures s.status == Success <==> e.Found? && e.serial != ""
    ensures s.status == Success ==>
              s.serialNumber == Some(e.serial) && s.newName == Some(e.serial + ".pdf") &&
              s.errorReason == r.errorReason
    ensures s.status == Error ==>
              s.serialNumber == r.serialNumber && s.newName == r.newName &&
              s.errorReason == Some(if e.Threw? then CaughtMessage(e.thrown) else NOT_FOUND_REASON)
  {
    match e
    case Found(serial) =>
      if serial != "" then
        r.(status := Success, serialNumber := Some(serial), newName := Some(serial + ".pdf"))
      else r.(status := Error, errorReason := Some(NOT_FOUND_REASON))
    case NotFound => r.(status := Error, errorReason := Some(NOT_FOUND_REASON))
    case Threw(t) => r.(status := Error, errorReason := Some(CaughtMessage(t)))
  }

  /** The final record of a valid file handled with the draws `attempt`. */
  function Outcome(f: FileEntry, attempt: nat -> bool): (r: ProcessingFile)
    ensures r.id == f.id && r.name == f.name && IsCompleted(r)
  {
    Settle(PendingRecord(f).(status := Processing), Classify(f.name, attempt))
  }

  /** Every handled record ends completed: a success holds a well-formed
      serial number that is the one in its stripped name, and is renamed to it
      plus ".pdf"; an error holds the not-found message or the message of
      what was thrown, never the unknown-error message. */
  lemma OutcomeIsTerminal(f: FileEntry, attempt: nat -> bool)
    requires f.name != ""
    ensures var r := Outcome(f, attempt);
      && r.id == f.id && r.name == f.name && IsCompleted(r)
      && (r.status == Success <==> Classify(f.name, attempt).Found?)
      && (r.status == Success ==>
            && r.serialNumber.Some? && IsSerial(r.serialNumber.value)
            && MatchSerial(StripPdf(f.name)) == r.serialNumber
            && r.newName == Some(r.serialNumber.value + ".pdf")
            && r.errorReason == None)
      && (r.status == Error ==>
            && r.serialNumber == None && r.newName == None
            && r.errorReason.Some?
            && r.errorReason.value in {NOT_FOUND_REASON, CORRUPT_PDF, PROTECTED_PDF})
  {
  }

  /** The record list once the first `done` files are settled and, when
      `inFlight`, file `done` is being processed. */
  function Stage(valid: seq<FileEntry>, attempt: nat -> nat -> bool, done: nat, inFlight: bool)
    : (s: seq<ProcessingFile>)
    ensures |s| == |valid|
    ensures forall j :: 0 <= j < |s| ==> s[j].id == valid[j].id && s[j].name == valid[j].name
  {
    seq(|valid|, j requires 0 <= j < |valid| => StageRecord(valid, attempt, j, done, inFlight))
  }

  /** The record of file `j` in that list. */
  function StageRecord(valid: seq<FileEntry>, attempt: nat -> nat -> bool, j: nat, done: nat, inFlight: bool)
    : (r: ProcessingFile)
    requires j < |valid|
    ensures r.id == valid[j].id && r.name == valid[j].name
  {
    if j < done then Outcome(valid[j], attempt(j))
    else if j == done && inFlight then PendingRecord(valid[j]).(status := Processing)
    else PendingRecord(valid[j])
  }

  /** The `k`-th call of `onProgress`: the initial all-pending list, then,
      for each file `i`, one call with file `i` processing and one with it
      settled. */
  function Snapshot(valid: seq<FileEntry>, attempt: nat -> nat -> bool, k: nat): seq<ProcessingFile> {
    Stage(valid, attempt, k / 2, k % 2 == 1)
  }

  /** The legal moves of one record between two consecutive snapshots:
      none, `pending` to `processing`, or `processing` to a final status. */
  predicate Advances(a: Status, b: Status) {
    || a == b
    || (a == Pending && b == Processing)
    || (a == Processing && (b == Success || b == Error))
  }

  /** When file `i` is marked `processing`, the files before it are settled
      and the files after it are still untouched pending records. */
  lemma InFlightSnapshot(valid: seq<FileEntry>, attempt: nat -> nat -> bool, i: nat)
    requires i < |valid|
    ensures var s := Snapshot(valid, attempt, 2 * i + 1);
      && (forall j :: 0 <= j < i ==> IsCompleted(s[j]) && s[j] == Outcome(valid[j], attempt(j)))
      && s[i].status == Processing
      && (forall j :: i < j < |valid| ==> s[j] == PendingRecord(valid[j]))
  {
    assert (2 * i + 1) / 2 == i && (2 * i + 1) % 2 == 1;
  }

  /** A record is never seen half-updated: a record that is not settled has
      no serial number, new name or error reason. */
  lemma UnsettledRecordsAreBare(valid: seq<FileEntry>, attempt: nat -> nat -> bool, k: nat, j: nat)
    requires j < |valid|
    ensures var r := Snapshot(valid, attempt, k)[j];
      !IsCompleted(r) ==> r.serialNumber == None && r.newName == None && r.errorReason == None
  {
  }

  /** Between consecutive snapshots only the record of file `k / 2` changes,
      and it moves one legal step. */
  lemma OneRecordPerStep(valid: seq<FileEntry>, attempt: nat -> nat -> bool, k: nat)
    requires k < 2 * |valid|
    ensures var s, t := Snapshot(valid, attempt, k), Snapshot(valid, attempt, k + 1);
      && (forall j :: 0 <= j < |valid| && j != k / 2 ==> s[j] == t[j])
      && s[k / 2] != t[k / 2]
      && Advances(s[k / 2].status, t[k / 2].status)
  {
    var i := k / 2;
    if k % 2 == 0 {
      assert (k + 1) / 2 == i && (k + 1) % 2 == 1;
    } else {
      assert (k + 1) / 2 == i + 1 && (k + 1) % 2 == 0;
    }
  }

  /** Once settled, a record is never assigned again. */
  lemma {:induction false} SettledRecordsStay(valid: seq<FileEntry>, attempt: nat -> nat -> bool, k: nat, l: nat, j: nat)
    requires k <= l && j < |valid|
    requires IsCompleted(Snapshot(valid, attempt, k)[j])
    ensures Snapshot(valid, attempt, l)[j] == Snapshot(valid, attempt, k)[j]
  {
    assert j < k / 2;
    assert j < l / 2 by {
      assert k / 2 <= l / 2;
    }
  }

  /** The `k`-th snapshot has exactly `k / 2` completed records, so the
      completed count shown by the status panel never decreases. */
  lemma CompletedCountOfSnapshot(valid: seq<FileEntry>, attempt: nat -> nat -> bool, k: nat)
    requires k <= 2 * |valid|
    ensures CompletedFiles(Snapshot(valid, attempt, k)) == k / 2
  {
    var s := Snapshot(valid, attempt, k);
    forall j | k / 2 <= j < |s| ensures !IsCompleted(s[j]) {
    }
    CompletedPrefix(s, k / 2);
  }

  lemma CompletedNeverDecreases(valid: seq<FileEntry>, attempt: nat -> nat -> bool, k: nat, l: nat)
    requires k <= l <= 2 * |valid|
    ensures CompletedFiles(Snapshot(valid, attempt, k)) <= CompletedFiles(Snapshot(valid, attempt, l))
  {
    CompletedCountOfSnapshot(valid, attempt, k);
    CompletedCountOfSnapshot(valid, attempt, l);
  }

  /** Before any file is handled every record is pending. */
  lemma InitialStage(valid: seq<FileEntry>, attempt: nat -> nat -> bool)
    ensures Stage(valid, attempt, 0, false) == Map(PendingRecord, valid)
    ensures Snapshot(valid, attempt, 0) == Map(PendingRecord, valid)
  {
  }

  /** Marking file `i` as processing moves from the settled stage `i` to the
      in-flight stage `i`. */
  lemma StartStep(valid: seq<FileEntry>, attempt: nat -> nat -> bool, i: nat)
    requires i < |valid|
    ensures var s := Stage(valid, attempt, i, false);
      s[i := s[i].(status := Processing)] == Stage(valid, attempt, i, true)
  {
  }

  /** Settling file `i` with its extraction moves to the settled stage `i + 1`. */
  lemma SettleStep(valid: seq<FileEntry>, attempt: nat -> nat -> bool, i: nat)
    requires i < |valid|
    ensures var s := Stage(valid, attempt, i, true);
      s[i := Settle(s[i], Classify(valid[i].name, attempt(i)))] == Stage(valid, attempt, i + 1, false)
  {
  }

  /** The first `count` calls of `onProgress`. */
  function Snapshots(valid: seq<FileEntry>, attempt: nat -> nat -> bool, count: nat)
    : (s: seq<seq<ProcessingFile>>)
    ensures |s| == count
    ensures forall k :: 0 <= k < count ==> s[k] == Snapshot(valid, attempt, k)
  {
    seq(count, k requires 0 <= k < count => Snapshot(valid, attempt, k))
  }

  /** Handling file `i` extends the calls made so far by its two snapshots. */
  lemma SnapshotsOfFile(valid: seq<FileEntry>, attempt: nat -> nat -> bool, i: nat)
    ensures Snapshots(valid, attempt, 2 * i + 3) ==
              Snapshots(valid, attempt, 2 * i + 1) +
              [Stage(valid, attempt, i, true), Stage(valid, attempt, i + 1, false)]
  {
    assert (2 * i + 1) / 2 == i && (2 * i + 1) % 2 == 1;
    assert (2 * i + 2) / 2 == i + 1 && (2 * i + 2) % 2 == 0;
  }

  /** One pass of `processFiles`' loop: file `i` is marked processing, the
      list is copied for `onProgress`, and the file is classified and settled
      in place. */
  method HandleFile(processingFiles: array<ProcessingFile>, validFiles: seq<FileEntry>,
                    attempt: nat -> nat -> bool, i: nat)
    returns (inFlight: seq<ProcessingFile>)
    modifies processingFiles
    requires i < |validFiles|
    requires processingFiles[..] == Stage(validFiles, attempt, i, false)
    ensures inFlight == Stage(validFiles, attempt, i, true)
    ensures processingFiles[..] == Stage(validFiles, attempt, i + 1, false)
  {
    ghost var before := processingFiles[..];
    processingFiles[i] := processingFiles[i].(status := Processing);
    assert processingFiles[..] == before[i := before[i].(status := Processing)];
    StartStep(validFiles, attempt, i);
    inFlight := processingFiles[..];
    var serialNumber := ExtractSerialNumberFromPdf(validFiles[i].name, attempt(i));
    processingFiles[i] := Settle(processingFiles[i], serialNumber);
    assert processingFiles[..] == inFlight[i := Settle(inFlight[i], serialNumber)];
    SettleStep(validFiles, attempt, i);
  }

  /** `processFiles`. `attempt(i)` gives the draws of the `i`-th valid file.
      Returns the records, the snapshots passed to `onProgress` in call
      order, and whether the "files ignored" warning is logged. */
  method ProcessFiles(files: seq<FileEntry>, attempt: nat -> nat -> bool)
    returns (records: seq<ProcessingFile>, snapshots: seq<seq<ProcessingFile>>, warned: bool)
    ensures var valid := ValidFiles(files);
      && records == Stage(valid, attempt, |valid|, false)
      && snapshots == Snapshots(valid, attempt, 2 * |valid| + 1)
    ensures warned <==> exists j :: 0 <= j < |files| && WithPathName(files[j]).name == ""
  {
    var validFiles := Filter(Map(WithPathName, files), HasName);
    SomeInputDropped(files);
    warned := |validFiles| != |files|;
    var n := |validFiles|;
    var processingFiles := new ProcessingFile[n](j requires 0 <= j < n => PendingRecord(validFiles[j]));
    InitialStage(validFiles, attempt);
    assert processingFiles[..] == Map(PendingRecord, validFiles);
    snapshots := [processingFiles[..]];
    assert snapshots == Snapshots(validFiles, attempt, 1);
    for i := 0 to n
      invariant processingFiles[..] == Stage(validFiles, attempt, i, false)
      invariant snapshots == Snapshots(validFiles, attempt, 2 * i + 1)
    {
      var inFlight := HandleFile(processingFiles, validFiles, attempt, i);
      SnapshotsOfFile(validFiles, attempt, i);
      snapshots := snapshots + [inFlight, processingFiles[..]];
    }
    records := processingFiles[..];
  }

  /** A completed record whose success carries a serial number and the new
      name made from it, and whose error carries a non-empty reason, has a
      detail line, and a success is listed under that new name. */
  lemma SettledRecordShown(r: ProcessingFile)
    requires IsCompleted(r)
    requires r.status == Success ==>
               r.serialNumber.Some? && r.serialNumber.value != "" &&
               r.newName == Some(r.serialNumber.value + ".pdf")
    requires r.status == Error ==> r.errorReason.Some? && r.errorReason.value != ""
    ensures FileDetail(r).Some?
    ensures r.status == Success ==>
              ZipEntry(r) == r.serialNumber.value + ".pdf" + " (original: " + r.name + ")"
  {
  }

  /** After a run every record is completed, so the status panel reports the
      batch as done with a detail line under every file, and each success is
      listed in the zip summary under its serial number plus ".pdf". */
  lemma FinishedBatch(files: seq<FileEntry>, attempt: nat -> nat -> bool)
    ensures var valid := ValidFiles(files);
      var records := Stage(valid, attempt, |valid|, false);
      && CompletedFiles(records) == |records| == |valid|
      && (forall j :: 0 <= j < |records| ==> FileDetail(records[j]).Some?)
      && (forall j :: 0 <= j < |records| && records[j].status == Success ==>
            ZipEntry(records[j]) == records[j].serialNumber.value + ".pdf" + " (original: " + valid[j].name + ")")
      && (records != [] ==>
            RenderStatus(records, false).Some? &&
            RenderStatus(records, false).value.message == "Processamento concluído!")
  {
    var valid := ValidFiles(files);
    var records := Stage(valid, attempt, |valid|, false);
    forall j | 0 <= j < |records|
      ensures IsCompleted(records[j]) && FileDetail(records[j]).Some?
      ensures records[j].status == Success ==>
                ZipEntry(records[j]) == records[j].serialNumber.value + ".pdf" + " (original: " + valid[j].name + ")"
    {
      assert HasName(valid[j]);
      assert records[j] == Outcome(valid[j], attempt(j));
      OutcomeIsTerminal(valid[j], attempt(j));
      SettledRecordShown(records[j]);
    }
  }
}
