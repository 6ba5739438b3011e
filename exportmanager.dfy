/**
 * `ExportManager`: a registry of export jobs keyed by id, the job loop
 * that exports the items one by one and reports progress, and the
 * export of one item (stat, open, chunked copy, clean-up).
 *
 * A job id is a natural number; 0 plays the null `QUuid`. Events the
 * manager emits are appended to a log. Device answers, the files on disk
 * and the cancel flag's observations are parameters.
 */
module ExportManager {
  import opened Wrappers
  import opened Bytes
  import opened Text
  import opened Afc
  import opened Descriptor
  import opened Paths
  import opened FileCopy

  /** The id `startExport` returns when it refuses a job. */
  const NullId: nat := 0

  /** Bytes per read in `exportSingleItem`. */
  const ItemChunkSize: nat := 8192

  /** A transfer-progress signal is due at every multiple of 64 KiB. */
  const ProgressStep: nat := 65536

  const CancelledByUser := "Export cancelled by user"

  datatype ExportItem = ExportItem(sourcePathOnDevice: string, suggestedFileName: string)

  datatype ExportResult = ExportResult(
    sourceFilePath: string,
    outputFilePath: string,
    success: bool,
    errorMessage: string,
    bytesTransferred: nat)

  datatype ExportJobSummary = ExportJobSummary(
    jobId: nat,
    totalItems: nat,
    successfulItems: nat,
    failedItems: nat,
    totalBytesTransferred: nat,
    destinationPath: string,
    wasCancelled: bool)

  /** What the registry keeps per job. */
  datatype ExportJob = ExportJob(items: seq<ExportItem>, destinationPath: string, cancelRequested: bool)

  datatype ExportEvent =
    | ExportStarted(jobId: nat, totalItems: nat, destinationPath: string)
    | ExportProgress(jobId: nat, current: nat, total: nat, currentFileName: string)
    | ItemExported(jobId: nat, result: ExportResult)
    | ExportCancelled(jobId: nat)
    | ExportFinished(jobId: nat, summary: ExportJobSummary)

  predicate IsTerminal(e: ExportEvent) {
    e.ExportCancelled? || e.ExportFinished?
  }

  // ---------------------------------------------------------------------
  // The job registry

  class ExportManager {
    /** `m_activeJobs`. */
    var activeJobs: map<nat, ExportJob>
    /** Ids are handed out in increasing order, so a new one is never in use. */
    var nextId: nat
    var events: seq<ExportEvent>

    ghost predicate Valid()
      reads this
    {
      0 < nextId && forall id :: id in activeJobs ==> NullId < id < nextId
    }

    constructor()
      ensures Valid()
      ensures activeJobs == map[] && events == []
    {
      activeJobs := map[];
      nextId := 1;
      events := [];
    }

    /**
     * `startExport`: refuses (null id, nothing registered, nothing
     * emitted) an invalid device, an empty item list and a destination
     * that neither exists nor can be created; otherwise registers a job
     * under a new id and emits `exportStarted`.
     */
    method StartExport(deviceValid: bool, items: seq<ExportItem>, destinationPath: string,
                       destinationExists: bool, mkpathSucceeds: bool) returns (jobId: nat)
      requires Valid()
      modifies this
      ensures Valid()
      ensures jobId == NullId <==> !deviceValid || |items| == 0 || (!destinationExists && !mkpathSucceeds)
      ensures jobId == NullId ==> activeJobs == old(activeJobs) && events == old(events)
      ensures jobId != NullId ==>
        jobId !in old(activeJobs) &&
        activeJobs == old(activeJobs)[jobId := ExportJob(items, destinationPath, false)] &&
        events == old(events) + [ExportStarted(jobId, |items|, destinationPath)]
    {
      if !deviceValid {
        return NullId;
      }
      if |items| == 0 {
        return NullId;
      }
      if !destinationExists {
        if !mkpathSucceeds {
          return NullId;
        }
      }
      jobId := nextId;
      nextId := nextId + 1;
      activeJobs := activeJobs[jobId := ExportJob(items, destinationPath, false)];
      events := events + [ExportStarted(jobId, |items|, destinationPath)];
    }

    /** `cancelExport`: raises the job's cancel flag; an unknown id changes nothing. */
    method CancelExport(jobId: nat)
      requires Valid()
      modifies this
      ensures Valid()
      ensures jobId in old(activeJobs) ==>
        activeJobs == old(activeJobs)[jobId := old(activeJobs)[jobId].(cancelRequested := true)]
      ensures jobId !in old(activeJobs) ==> activeJobs == old(activeJobs)
      ensures events == old(events) && nextId == old(nextId)
    {
      if jobId in activeJobs {
        activeJobs := activeJobs[jobId := activeJobs[jobId].(cancelRequested := true)];
      }
    }

    /** `isExporting`: some job is registered. */
    function IsExporting(): (r: bool)
      reads this
      ensures r <==> exists id :: id in activeJobs
    {
      activeJobs != map[]
    }

    /** `isJobRunning`: the id is registered. */
    function IsJobRunning(jobId: nat): (r: bool)
      reads this
      ensures r <==> jobId in activeJobs.Keys
    {
      jobId in activeJobs
    }

    /** `cleanupJob`: forgets the job; an unknown id changes nothing. */
    method CleanupJob(jobId: nat)
      requires Valid()
      modifies this
      ensures Valid()
      ensures activeJobs == old(activeJobs) - {jobId}
      ensures jobId !in old(activeJobs) ==> activeJobs == old(activeJobs)
      ensures events == old(events) && nextId == old(nextId)
    {
      activeJobs := activeJobs - {jobId};
    }
  }

  // ---------------------------------------------------------------------
  // executeExportJob

  /** The events of the first `k` items: progress first, then the item's result. */
  function ItemEvents(jobId: nat, items: seq<ExportItem>, results: seq<ExportResult>, k: nat): (r: seq<ExportEvent>)
    requires k <= |items| == |results|
    ensures |r| == 2 * k
  {
    if k == 0 then []
    else
      ItemEvents(jobId, items, results, k - 1) +
      [ExportProgress(jobId, k, |items|, items[k - 1].suggestedFileName), ItemExported(jobId, results[k - 1])]
  }

  /** Event `2i` announces item `i` (counted from 1), event `2i + 1` reports its result. */
  lemma {:induction false} ItemEventsAt(jobId: nat, items: seq<ExportItem>, results: seq<ExportResult>, k: nat, i: nat)
    requires k <= |items| == |results| && i < 2 * k
    ensures ItemEvents(jobId, items, results, k)[i] ==
      if i % 2 == 0 then ExportProgress(jobId, i / 2 + 1, |items|, items[i / 2].suggestedFileName)
      else ItemExported(jobId, results[i / 2])
  {
    if i < 2 * (k - 1) {
      ItemEventsAt(jobId, items, results, k - 1, i);
    } else if i == 2 * (k - 1) {
      assert i / 2 == k - 1 && i % 2 == 0;
    } else {
      assert i / 2 == k - 1 && i % 2 == 1;
    }
  }

  /** The running counters of the summary. */
  datatype Tally = Tally(successful: nat, failed: nat, bytes: nat)

  function Count(t: Tally, r: ExportResult): Tally {
    if r.success then Tally(t.successful + 1, t.failed, t.bytes + r.bytesTransferred)
    else Tally(t.successful, t.failed + 1, t.bytes)
  }

  /** The counters after the given results, in order. */
  function Tallied(results: seq<ExportResult>): (t: Tally)
    ensures t.successful + t.failed == |results|
  {
    if |results| == 0 then Tally(0, 0, 0)
    else Count(Tallied(results[..|results| - 1]), results[|results| - 1])
  }

  /** The successful results, in order. */
  function Successes(results: seq<ExportResult>): (r: seq<ExportResult>)
    ensures forall x :: x in r ==> x in results && x.success
  {
    if |results| == 0 then []
    else (if results[0].success then [results[0]] else []) + Successes(results[1..])
  }

  function SumBytes(results: seq<ExportResult>): nat {
    if |results| == 0 then 0 else results[0].bytesTransferred + SumBytes(results[1..])
  }

  lemma {:induction false} SuccessesSnoc(results: seq<ExportResult>, x: ExportResult)
    ensures Successes(results + [x]) == Successes(results) + (if x.success then [x] else [])
    decreases |results|
  {
    if |results| == 0 {
      assert results + [x] == [x];
    } else {
      assert (results + [x])[1..] == results[1..] + [x];
      SuccessesSnoc(results[1..], x);
    }
  }

  lemma {:induction false} SumBytesAppend(a: seq<ExportResult>, b: seq<ExportResult>)
    ensures SumBytes(a + b) == SumBytes(a) + SumBytes(b)
    decreases |a|
  {
    if |a| == 0 {
      assert a + b == b;
    } else {
      assert (a + b)[1..] == a[1..] + b;
      SumBytesAppend(a[1..], b);
    }
  }

  /**
   * The summary counts each success once and each failure once, and its
   * byte total is the sum of `bytesTransferred` over the successes.
   */
  lemma {:induction false} TallyMatchesSuccesses(results: seq<ExportResult>)
    ensures Tallied(results).successful == |Successes(results)|
    ensures Tallied(results).failed == |results| - |Successes(results)|
    ensures Tallied(results).bytes == SumBytes(Successes(results))
    decreases |results|
  {
    if |results| > 0 {
      var init := results[..|results| - 1];
      var x := results[|results| - 1];
      assert results == init + [x];
      TallyMatchesSuccesses(init);
      SuccessesSnoc(init, x);
      SumBytesAppend(Successes(init), if x.success then [x] else []);
      assert SumBytes([x]) == x.bytesTransferred;
    }
  }

  lemma TalliedStep(results: seq<ExportResult>, k: nat)
    requires k < |results|
    ensures Tallied(results[..k + 1]) == Count(Tallied(results[..k]), results[k])
  {
    assert results[..k + 1][..k] == results[..k];
  }

  lemma ItemEventsStep(jobId: nat, items: seq<ExportItem>, results: seq<ExportResult>, k: nat)
    requires k < |items| == |results|
    ensures ItemEvents(jobId, items, results, k + 1) == ItemEvents(jobId, items, results, k) +
      [ExportProgress(jobId, k + 1, |items|, items[k].suggestedFileName), ItemExported(jobId, results[k])]
  {
  }

  /** Cancel checks are numbered 0, 1, 2, …: before item i is 2i, after it 2i + 1. */
  predicate CancelSeen(n: nat, cancelAt: Option<nat>) {
    cancelAt.Some? && cancelAt.value < 2 * n
  }

  /** How many items the loop begins before it stops. */
  function StartedItems(n: nat, cancelAt: Option<nat>): (k: nat)
    ensures k <= n
    ensures !CancelSeen(n, cancelAt) ==> k == n
  {
    if CancelSeen(n, cancelAt) then (cancelAt.value + 1) / 2 else n
  }

  /** A flag seen before item `i` stops with `i` items begun, one seen after it with `i + 1`. */
  lemma StartedItemsAt(n: nat, cancelAt: Option<nat>, i: nat)
    requires i < n
    ensures cancelAt == Some(2 * i) ==> CancelSeen(n, cancelAt) && StartedItems(n, cancelAt) == i
    ensures cancelAt == Some(2 * i + 1) ==> CancelSeen(n, cancelAt) && StartedItems(n, cancelAt) == i + 1
  {
  }

  /**
   * `executeExportJob`. `results[i]` is what `exportSingleItem` returns
   * for item i (see `ExportSingleItem`); `cancelAt` is the first cancel
   * check that sees the flag raised.
   */
  method ExecuteExportJob(jobId: nat, items: seq<ExportItem>, destinationPath: string,
                          results: seq<ExportResult>, cancelAt: Option<nat>)
    returns (events: seq<ExportEvent>, summary: ExportJobSummary)
    requires |results| == |items|
    ensures var k := StartedItems(|items|, cancelAt);
      var t := Tallied(results[..k]);
      summary == ExportJobSummary(jobId, |items|, t.successful, t.failed, t.bytes, destinationPath,
                                  CancelSeen(|items|, cancelAt)) &&
      events == ItemEvents(jobId, items, results, k) +
        [if CancelSeen(|items|, cancelAt) then ExportCancelled(jobId) else ExportFinished(jobId, summary)]
  {
    summary := ExportJobSummary(jobId, |items|, 0, 0, 0, destinationPath, false);
    events := [];
    var i := 0;
    while i < |items|
      invariant 0 <= i <= |items|
      invariant cancelAt.None? || cancelAt.value >= 2 * i
      invariant events == ItemEvents(jobId, items, results, i)
      invariant var t := Tallied(results[..i]);
        summary == ExportJobSummary(jobId, |items|, t.successful, t.failed, t.bytes, destinationPath, false)
    {
      StartedItemsAt(|items|, cancelAt, i);
      if cancelAt == Some(2 * i) {
        summary := summary.(wasCancelled := true);
        events := events + [ExportCancelled(jobId)];
        return;
      }
      events := events + [ExportProgress(jobId, i + 1, |items|, items[i].suggestedFileName)];
      var result := results[i];
      TalliedStep(results, i);
      ItemEventsStep(jobId, items, results, i);
      if result.success {
        summary := summary.(successfulItems := summary.successfulItems + 1,
                            totalBytesTransferred := summary.totalBytesTransferred + result.bytesTransferred);
      } else {
        summary := summary.(failedItems := summary.failedItems + 1);
      }
      events := events + [ItemExported(jobId, result)];
      if cancelAt == Some(2 * i + 1) {
        summary := summary.(wasCancelled := true);
        events := events + [ExportCancelled(jobId)];
        return;
      }
      i := i + 1;
    }
    assert StartedItems(|items|, cancelAt) == |items| && !CancelSeen(|items|, cancelAt);
    events := events + [ExportFinished(jobId, summary)];
  }

  /**
   * A job's log ends in exactly one terminal event: `exportCancelled`
   * when a check saw the flag, `exportFinished` after the last item
   * otherwise; and the summary counts every started item once.
   */
  lemma JobEndsOnce(jobId: nat, items: seq<ExportItem>, results: seq<ExportResult>, cancelAt: Option<nat>,
                    summary: ExportJobSummary)
    requires |items| == |results|
    ensures var k := StartedItems(|items|, cancelAt);
      var events := ItemEvents(jobId, items, results, k) +
        [if CancelSeen(|items|, cancelAt) then ExportCancelled(jobId) else ExportFinished(jobId, summary)];
      IsTerminal(events[|events| - 1]) &&
      (forall i :: 0 <= i < |events| - 1 ==> !IsTerminal(events[i])) &&
      Tallied(results[..k]).successful + Tallied(results[..k]).failed == k
  {
    var k := StartedItems(|items|, cancelAt);
    var prefix := ItemEvents(jobId, items, results, k);
    var events := prefix + [if CancelSeen(|items|, cancelAt) then ExportCancelled(jobId) else ExportFinished(jobId, summary)];
    forall i | 0 <= i < |events| - 1
      ensures !IsTerminal(events[i])
    {
      assert events[i] == prefix[i];
      ItemEventsAt(jobId, items, results, k, i);
    }
  }

  /** Progress indices run 1, 2, … in strictly increasing order, one per started item. */
  lemma ProgressInOrder(jobId: nat, items: seq<ExportItem>, results: seq<ExportResult>, k: nat)
    requires k <= |items| == |results|
    ensures var r := ItemEvents(jobId, items, results, k);
      forall i, j :: 0 <= i < j < |r| && r[i].ExportProgress? && r[j].ExportProgress? ==> r[i].current < r[j].current
  {
    var r := ItemEvents(jobId, items, results, k);
    forall i, j | 0 <= i < j < |r| && r[i].ExportProgress? && r[j].ExportProgress?
      ensures r[i].current < r[j].current
    {
      ItemEventsAt(jobId, items, results, k, i);
      ItemEventsAt(jobId, items, results, k, j);
      assert i % 2 == 0 && j % 2 == 0;
    }
  }

  // ---------------------------------------------------------------------
  // exportSingleItem

  /** The stat answer carries `st_size`, `st_mtime` and `st_birthtime`. */
  predicate MetadataComplete(info: Option<Plist>) {
    var stat := Navigator(info);
    info.Some? && stat.Key("st_size").Valid() && stat.Key("st_mtime").Valid() && stat.Key("st_birthtime").Valid()
  }

  /** A running total at which `fileTransferProgress` is emitted. */
  predicate IsMark(total: nat, fileSize: int) {
    total % ProgressStep == 0 || total == fileSize
  }

  /** The running totals, after each chunk, at which a transfer-progress signal goes out. */
  function TransferMarks(chunks: seq<seq<byte>>, fileSize: int): (r: seq<nat>)
    ensures forall i :: 0 <= i < |r| ==> IsMark(r[i], fileSize) && r[i] <= TotalLength(chunks)
    ensures |chunks| > 0 && IsMark(TotalLength(chunks), fileSize) ==> |r| > 0 && r[|r| - 1] == TotalLength(chunks)
    ensures (forall k :: 0 <= k < |chunks| ==> |chunks[k]| > 0) ==>
      forall i, j :: 0 <= i < j < |r| ==> r[i] < r[j]
  {
    if |chunks| == 0 then []
    else
      var init := chunks[..|chunks| - 1];
      assert forall k :: 0 <= k < |init| ==> init[k] == chunks[k];
      var earlier := TransferMarks(init, fileSize);
      var total := TotalLength(chunks);
      if IsMark(total, fileSize) then earlier + [total] else earlier
  }

  /**
   * `exportSingleItem`. `existing` is the set of files on disk, `info`
   * the stat answer (None when the call failed), `openCode` the device's
   * answer to the open, `localOpenError` the local file's error string
   * when it could not be created, `replies`/`writes` the copy loop's
   * reads and writes and `cancelAt` the cancel check that first sees the
   * flag. `deviceOpened` tells whether opening the device file was
   * attempted, `closes` how often its handle was closed, `kept` the local file left behind,
   * and `marks` the totals reported by `fileTransferProgress`.
   */
  method ExportSingleItem(item: ExportItem, destinationDir: string, existing: set<string>,
                          info: Option<Plist>, openCode: int, localOpenError: Option<string>,
                          replies: seq<ReadReply>, writes: seq<int>, cancelAt: Option<nat>)
    returns (result: ExportResult, deviceOpened: bool, closes: nat, kept: Option<seq<byte>>, marks: seq<nat>)
    requires forall j :: 0 <= j < |replies| ==> |replies[j].data| <= ItemChunkSize
    ensures result.sourceFilePath == item.sourcePathOnDevice
    ensures result.outputFilePath == UniqueOutputPath(FilePath(destinationDir, item.suggestedFileName), existing)
    ensures deviceOpened <==> MetadataComplete(info)
    ensures !deviceOpened ==> !result.success && result.errorMessage == "" && closes == 0
    ensures deviceOpened && openCode != AFC_E_SUCCESS ==>
      !result.success && closes == 0 && result.errorMessage == OpenFailureMessage(item.sourcePathOnDevice, openCode)
    ensures deviceOpened && openCode == AFC_E_SUCCESS ==> closes == 1
    ensures deviceOpened && openCode == AFC_E_SUCCESS && localOpenError.Some? ==>
      !result.success && result.errorMessage == CreateFailureMessage(result.outputFilePath, localOpenError.value)
    ensures var copying := deviceOpened && openCode == AFC_E_SUCCESS && localOpenError.None?;
      var c := CopyFrom(replies, writes, cancelAt, 0);
      (copying && c.0.Cancelled? ==> result.errorMessage == CancelledByUser) &&
      (copying && c.0.ShortWrite? ==> result.errorMessage == WriteErrorMessage(c.0.written, c.0.read)) &&
      (copying && c.0.Drained? && TotalLength(c.1) == 0 ==> result.errorMessage == NoDataRead) &&
      (result.success <==> copying && c.0.Drained? && TotalLength(c.1) > 0) &&
      (result.success ==> result.bytesTransferred == TotalLength(c.1) && result.errorMessage == "" &&
                          kept == Some(Concat(c.1))) &&
      (marks == if copying then TransferMarks(c.1, ToInt32(Navigator(info).Key("st_size").GetUInt())) else [])
    ensures !result.success ==> result.bytesTransferred == 0 && kept.None?
  {
    var basePath := FilePath(destinationDir, item.suggestedFileName);
    var outputPath := GenerateUniqueOutputPath(basePath, existing);
    result := ExportResult(item.sourcePathOnDevice, outputPath, false, "", 0);
    deviceOpened, closes, kept, marks := false, 0, None, [];
    if !MetadataComplete(info) {
      return;
    }
    var totalFileSize := ToInt32(Navigator(info).Key("st_size").GetUInt());
    deviceOpened := true;
    if openCode != AFC_E_SUCCESS {
      result := result.(errorMessage := OpenFailureMessage(item.sourcePathOnDevice, openCode));
      return;
    }
    if localOpenError.Some? {
      result := result.(errorMessage := CreateFailureMessage(outputPath, localOpenError.value));
      closes := 1;
      return;
    }
    var end, chunks, total, requested := CopyChunks(ItemChunkSize, replies, writes, cancelAt);
    marks := TransferMarks(chunks, totalFileSize);
    closes := 1;
    match end
    case Cancelled =>
      result := result.(errorMessage := CancelledByUser);
    case ShortWrite(written, read) =>
      result := result.(errorMessage := WriteErrorMessage(written, read));
    case Drained =>
      if total == 0 {
        result := result.(errorMessage := NoDataRead);
      } else {
        result := result.(success := true, bytesTransferred := total);
        kept := Some(Concat(chunks));
      }
  }
}
