/**
 * `PhotoExportManager`: a single export at a time, guarded by the
 * `m_isExporting` flag, a file loop that checks for cancellation only
 * before each file, and the export of one file in 4096-byte chunks.
 */
module PhotoExportManager {
  import opened Wrappers
  import opened Bytes
  import opened Afc
  import opened Paths
  import opened FileCopy

  /** Bytes per read in `exportSingleFile`. */
  const FileChunkSize: nat := 4096

  const CancelledMessage := "Export cancelled"

  datatype ExportResult = ExportResult(filePath: string, outputPath: string, success: bool, errorMessage: string)

  datatype PhotoEvent =
    | ExportStarted(totalFiles: nat)
    | FileExported(result: ExportResult)
    | ExportProgress(completed: nat, total: nat, currentFileName: string)
    | ExportCancelled
    | ExportFinished(successful: nat, failed: nat)

  predicate IsTerminal(e: PhotoEvent) {
    e.ExportCancelled? || e.ExportFinished?
  }

  class PhotoExportManager {
    var isExporting: bool
    var cancelRequested: bool
    var filePaths: seq<string>
    var outputDirectory: string
    var events: seq<PhotoEvent>

    constructor()
      ensures !isExporting && !cancelRequested
      ensures filePaths == [] && outputDirectory == "" && events == []
    {
      isExporting := false;
      cancelRequested := false;
      filePaths := [];
      outputDirectory := "";
      events := [];
    }

    /**
     * `exportFiles`: does nothing while an export runs, for an invalid
     * device, for an empty list and for a directory that neither exists
     * nor can be created; otherwise records the work, raises
     * `isExporting`, lowers the cancel flag and emits `exportStarted`.
     */
    method ExportFiles(deviceValid: bool, paths: seq<string>, directory: string,
                       directoryExists: bool, mkpathSucceeds: bool) returns (started: bool)
      modifies this
      ensures started <==> !old(isExporting) && deviceValid && |paths| > 0 && (directoryExists || mkpathSucceeds)
      ensures started ==>
        isExporting && !cancelRequested && filePaths == paths && outputDirectory == directory &&
        events == old(events) + [ExportStarted(|paths|)]
      ensures !started ==>
        isExporting == old(isExporting) && cancelRequested == old(cancelRequested) &&
        filePaths == old(filePaths) && outputDirectory == old(outputDirectory) && events == old(events)
    {
      if isExporting {
        return false;
      }
      if !deviceValid {
        return false;
      }
      if |paths| == 0 {
        return false;
      }
      if !directoryExists {
        if !mkpathSucceeds {
          return false;
        }
      }
      filePaths := paths;
      outputDirectory := directory;
      isExporting := true;
      cancelRequested := false;
      events := events + [ExportStarted(|paths|)];
      return true;
    }

    /** The worker thread's `finished` handler: the export is over. */
    method WorkerFinished()
      modifies this
      ensures !isExporting
      ensures cancelRequested == old(cancelRequested) && filePaths == old(filePaths)
      ensures outputDirectory == old(outputDirectory) && events == old(events)
    {
      isExporting := false;
    }

    /** `cancelExport`: raises the flag only while an export runs. */
    method CancelExport()
      modifies this
      ensures cancelRequested == (old(cancelRequested) || old(isExporting))
      ensures isExporting == old(isExporting) && filePaths == old(filePaths)
      ensures outputDirectory == old(outputDirectory) && events == old(events)
    {
      if isExporting {
        cancelRequested := true;
      }
    }
  }

  // ---------------------------------------------------------------------
  // performExport

  /** The events of the first `k` files: the file's result, then progress. */
  function FileEvents(paths: seq<string>, results: seq<ExportResult>, k: nat): (r: seq<PhotoEvent>)
    requires k <= |paths| == |results|
    ensures |r| == 2 * k
  {
    if k == 0 then []
    else
      FileEvents(paths, results, k - 1) +
      [FileExported(results[k - 1]), ExportProgress(k, |paths|, ExtractFileName(paths[k - 1]))]
  }

  /** Event `2i` reports file `i`'s result, event `2i + 1` the progress after it (counted from 1). */
  lemma {:induction false} FileEventsAt(paths: seq<string>, results: seq<ExportResult>, k: nat, i: nat)
    requires k <= |paths| == |results| && i < 2 * k
    ensures FileEvents(paths, results, k)[i] ==
      if i % 2 == 0 then FileExported(results[i / 2])
      else ExportProgress(i / 2 + 1, |paths|, ExtractFileName(paths[i / 2]))
  {
    if i < 2 * (k - 1) {
      FileEventsAt(paths, results, k - 1, i);
    } else if i == 2 * (k - 1) {
      assert i / 2 == k - 1 && i % 2 == 0;
    } else {
      assert i / 2 == k - 1 && i % 2 == 1;
    }
  }

  /** Files handled before the loop stops: a cancel is only seen before file `cancelBefore`. */
  function HandledFiles(n: nat, cancelBefore: Option<nat>): (k: nat)
    ensures k <= n
  {
    if cancelBefore.Some? && cancelBefore.value < n then cancelBefore.value else n
  }

  /**
   * A run's log ends in exactly one terminal event: `ExportCancelled`
   * when a pre-file check saw the flag, `ExportFinished` otherwise.
   */
  lemma RunEndsOnce(paths: seq<string>, results: seq<ExportResult>, cancelBefore: Option<nat>, successful: nat, failed: nat)
    requires |paths| == |results|
    ensures var k := HandledFiles(|paths|, cancelBefore);
      var events := FileEvents(paths, results, k) + [if k < |paths| then ExportCancelled else ExportFinished(successful, failed)];
      IsTerminal(events[|events| - 1]) &&
      (forall i :: 0 <= i < |events| - 1 ==> !IsTerminal(events[i])) &&
      (events[|events| - 1].ExportFinished? <==> !(cancelBefore.Some? && cancelBefore.value < |paths|))
  {
    var k := HandledFiles(|paths|, cancelBefore);
    var items := FileEvents(paths, results, k);
    var events := items + [if k < |paths| then ExportCancelled else ExportFinished(successful, failed)];
    forall i | 0 <= i < |events| - 1
      ensures !IsTerminal(events[i])
    {
      assert events[i] == items[i];
      FileEventsAt(paths, results, k, i);
    }
  }

  /** How many of the first `k` results are successes. */
  function SuccessCount(results: seq<ExportResult>, k: nat): (n: nat)
    requires k <= |results|
    ensures n <= k
  {
    if k == 0 then 0
    else SuccessCount(results, k - 1) + (if results[k - 1].success then 1 else 0)
  }

  /** All count as successes exactly when every one succeeded, none exactly when every one failed. */
  lemma {:induction false} SuccessCountBounds(results: seq<ExportResult>, k: nat)
    requires k <= |results|
    ensures SuccessCount(results, k) == k <==> forall i :: 0 <= i < k ==> results[i].success
    ensures SuccessCount(results, k) == 0 <==> forall i :: 0 <= i < k ==> !results[i].success
  {
    if k > 0 {
      SuccessCountBounds(results, k - 1);
    }
  }

  /** The local path a device file is exported to: its name in `directory`, renamed if taken. */
  function OutputPathFor(directory: string, devicePath: string, onDisk: set<string>): string {
    UniqueOutputPath(FilePath(directory, ExtractFileName(devicePath)), onDisk)
  }

  /** A device file whose name is free in `directory` is exported under that name, which reads back from the path. */
  lemma OutputPathKeepsFreeName(directory: string, deviceDir: string, name: string, onDisk: set<string>)
    requires name != "" && '/' !in name
    requires FilePath(directory, name) !in onDisk
    ensures OutputPathFor(directory, deviceDir + "/" + name, onDisk) == FilePath(directory, name)
    ensures ExtractFileName(OutputPathFor(directory, deviceDir + "/" + name, onDisk)) == name
  {
    var pre := deviceDir + "/";
    assert deviceDir + "/" + name == pre + name;
    LastIndexOfAppend(pre, name, '/');
    assert pre[..|pre| - 1] == deviceDir;
    assert (pre + name)[|pre|..] == name;
    ExtractFileNameOfFilePath(directory, name);
  }

  /**
   * The output paths the loop picks for the first `k` files, and the
   * files on disk afterwards: each path is made unique against what is
   * on disk at that moment, and a successful export adds its file.
   */
  function Planned(directory: string, paths: seq<string>, existing: set<string>,
                   results: seq<ExportResult>, k: nat): (r: (seq<string>, set<string>))
    requires k <= |paths| == |results|
    ensures |r.0| == k && existing <= r.1
    decreases k, 1
  {
    if k == 0 then ([], existing)
    else
      var before := Planned(directory, paths, existing, results, k - 1);
      var out := OutputPathAt(directory, paths, existing, results, k - 1);
      (before.0 + [out], if results[k - 1].success then before.1 + {out} else before.1)
  }

  /** The output path of file `i`, chosen against the disk as the first `i` files left it. */
  function OutputPathAt(directory: string, paths: seq<string>, existing: set<string>,
                        results: seq<ExportResult>, i: nat): string
    requires i < |paths| == |results|
    decreases i, 2
  {
    OutputPathFor(directory, paths[i], Planned(directory, paths, existing, results, i).1)
  }

  lemma PlannedStep(directory: string, paths: seq<string>, existing: set<string>, results: seq<ExportResult>, k: nat)
    requires k < |paths| == |results|
    ensures var before := Planned(directory, paths, existing, results, k);
      var out := OutputPathAt(directory, paths, existing, results, k);
      Planned(directory, paths, existing, results, k + 1) ==
        (before.0 + [out], if results[k].success then before.1 + {out} else before.1)
  {
  }

  lemma FileEventsStep(paths: seq<string>, results: seq<ExportResult>, k: nat)
    requires k < |paths| == |results|
    ensures FileEvents(paths, results, k + 1) ==
      FileEvents(paths, results, k) + [FileExported(results[k]), ExportProgress(k + 1, |paths|, ExtractFileName(paths[k]))]
  {
  }

  /**
   * `performExport`. `results[i]` is what `exportSingleFile` returns for
   * file i (see `ExportSingleFile`), `existing` the files on disk at the
   * start, and `cancelBefore` the first file whose pre-check sees the
   * cancel flag raised. `outputPaths` are the paths handed to
   * `exportSingleFile`.
   */
  method PerformExport(paths: seq<string>, directory: string, existing: set<string>,
                       results: seq<ExportResult>, cancelBefore: Option<nat>)
    returns (events: seq<PhotoEvent>, outputPaths: seq<string>, successful: nat, failed: nat)
    requires |results| == |paths|
    ensures var k := HandledFiles(|paths|, cancelBefore);
      successful == SuccessCount(results, k) && successful + failed == k &&
      outputPaths == Planned(directory, paths, existing, results, k).0 &&
      events == FileEvents(paths, results, k) +
        [if k < |paths| then ExportCancelled else ExportFinished(successful, failed)]
  {
    successful, failed := 0, 0;
    events, outputPaths := [], [];
    var onDisk := existing;
    var i := 0;
    while i < |paths|
      invariant 0 <= i <= |paths|
      invariant cancelBefore.None? || cancelBefore.value >= i
      invariant LoopState(directory, paths, existing, results, i, events, outputPaths, onDisk, successful, failed)
    {
      if cancelBefore == Some(i) {
        assert HandledFiles(|paths|, cancelBefore) == i < |paths|;
        events := events + [ExportCancelled];
        return;
      }
      assert cancelBefore.None? || cancelBefore.value >= i + 1;
      events, outputPaths, onDisk, successful, failed :=
        ExportNextFile(directory, paths, existing, results, i, events, outputPaths, onDisk, successful, failed);
      i := i + 1;
    }
    assert HandledFiles(|paths|, cancelBefore) == |paths|;
    events := events + [ExportFinished(successful, failed)];
  }

  /** What `performExport` has done after the first `i` files. */
  ghost predicate LoopState(directory: string, paths: seq<string>, existing: set<string>, results: seq<ExportResult>,
                            i: nat, events: seq<PhotoEvent>, outputPaths: seq<string>, onDisk: set<string>,
                            successful: nat, failed: nat)
  {
    i <= |paths| == |results| &&
    successful == SuccessCount(results, i) && successful + failed == i &&
    (outputPaths, onDisk) == Planned(directory, paths, existing, results, i) &&
    events == FileEvents(paths, results, i)
  }

  /** One pass of `performExport`'s loop, for file `i` once the cancel check has passed. */
  method ExportNextFile(directory: string, paths: seq<string>, existing: set<string>, results: seq<ExportResult>, i: nat,
                        events: seq<PhotoEvent>, outputPaths: seq<string>, onDisk: set<string>, successful: nat, failed: nat)
    returns (events': seq<PhotoEvent>, outputPaths': seq<string>, onDisk': set<string>, successful': nat, failed': nat)
    requires i < |paths|
    requires LoopState(directory, paths, existing, results, i, events, outputPaths, onDisk, successful, failed)
    ensures LoopState(directory, paths, existing, results, i + 1, events', outputPaths', onDisk', successful', failed')
  {
    outputPaths', onDisk' := PlanNextFile(directory, paths, existing, results, i, outputPaths, onDisk);
    successful', failed' := CountNextFile(results, i, successful, failed);
    events' := LogNextFile(paths, results, i, events);
  }

  /** One file's share of the counters: a success or a failure more. */
  method CountNextFile(results: seq<ExportResult>, i: nat, successful: nat, failed: nat)
    returns (successful': nat, failed': nat)
    requires i < |results|
    requires successful == SuccessCount(results, i) && successful + failed == i
    ensures successful' == SuccessCount(results, i + 1) && successful' + failed' == i + 1
  {
    if results[i].success {
      successful', failed' := successful + 1, failed;
    } else {
      successful', failed' := successful, failed + 1;
    }
  }

  /** One file's share of the log: its result, then the progress after it. */
  method LogNextFile(paths: seq<string>, results: seq<ExportResult>, i: nat, events: seq<PhotoEvent>)
    returns (events': seq<PhotoEvent>)
    requires i < |paths| == |results|
    requires events == FileEvents(paths, results, i)
    ensures events' == FileEvents(paths, results, i + 1)
  {
    var fileName := ExtractFileName(paths[i]);
    FileEventsStep(paths, results, i);
    events' := events + [FileExported(results[i]), ExportProgress(i + 1, |paths|, fileName)];
  }

  /**
   * One file's share of `performExport`'s bookkeeping: its output path is
   * picked against the files on disk, and a successful export adds it.
   */
  method PlanNextFile(directory: string, paths: seq<string>, existing: set<string>, results: seq<ExportResult>, i: nat,
                      outputPaths: seq<string>, onDisk: set<string>)
    returns (outputPaths': seq<string>, onDisk': set<string>)
    requires i < |paths| == |results|
    requires (outputPaths, onDisk) == Planned(directory, paths, existing, results, i)
    ensures (outputPaths', onDisk') == Planned(directory, paths, existing, results, i + 1)
  {
    var outputPath := ChooseOutputPath(directory, paths[i], onDisk);
    PlannedStep(directory, paths, existing, results, i);
    outputPaths' := outputPaths + [outputPath];
    onDisk' := if results[i].success then onDisk + {outputPath} else onDisk;
  }

  /** The output path `performExport` picks for one device file. */
  method ChooseOutputPath(directory: string, devicePath: string, onDisk: set<string>) returns (outputPath: string)
    ensures outputPath == OutputPathFor(directory, devicePath, onDisk)
  {
    var fileName := ExtractFileName(devicePath);
    outputPath := GenerateUniqueOutputPath(FilePath(directory, fileName), onDisk);
  }

  // ---------------------------------------------------------------------
  // exportSingleFile

  /**
   * `exportSingleFile`: open on the device, create the local file, copy
   * in 4096-byte chunks. Arguments and results as in
   * `ExportManager.ExportSingleItem`.
   */
  method ExportSingleFile(devicePath: string, outputPath: string, openCode: int, localOpenError: Option<string>,
                          replies: seq<ReadReply>, writes: seq<int>, cancelAt: Option<nat>)
    returns (result: ExportResult, closes: nat, kept: Option<seq<byte>>)
    requires forall j :: 0 <= j < |replies| ==> |replies[j].data| <= FileChunkSize
    ensures result.filePath == devicePath && result.outputPath == outputPath
    ensures openCode != AFC_E_SUCCESS ==>
      !result.success && closes == 0 && result.errorMessage == OpenFailureMessage(devicePath, openCode)
    ensures openCode == AFC_E_SUCCESS ==> closes == 1
    ensures openCode == AFC_E_SUCCESS && localOpenError.Some? ==>
      !result.success && result.errorMessage == CreateFailureMessage(outputPath, localOpenError.value)
    ensures var copying := openCode == AFC_E_SUCCESS && localOpenError.None?;
      var c := CopyFrom(replies, writes, cancelAt, 0);
      (copying && c.0.Cancelled? ==> result.errorMessage == CancelledMessage) &&
      (copying && c.0.ShortWrite? ==> result.errorMessage == WriteErrorMessage(c.0.written, c.0.read)) &&
      (copying && c.0.Drained? && TotalLength(c.1) == 0 ==> result.errorMessage == NoDataRead) &&
      (result.success <==> copying && c.0.Drained? && TotalLength(c.1) > 0) &&
      (result.success ==> result.errorMessage == "" && kept == Some(Concat(c.1)))
    ensures !result.success ==> kept.None?
  {
    result := ExportResult(devicePath, outputPath, false, "");
    closes, kept := 0, None;
    if openCode != AFC_E_SUCCESS {
      result := result.(errorMessage := OpenFailureMessage(devicePath, openCode));
      return;
    }
    closes := 1;
    if localOpenError.Some? {
      result := result.(errorMessage := CreateFailureMessage(outputPath, localOpenError.value));
      return;
    }
    var end, chunks, total, requested := CopyChunks(FileChunkSize, replies, writes, cancelAt);
    match end
    case Cancelled =>
      result := result.(errorMessage := CancelledMessage);
    case ShortWrite(written, read) =>
      result := result.(errorMessage := WriteErrorMessage(written, read));
    case Drained =>
      if total == 0 {
        result := result.(errorMessage := NoDataRead);
      } else {
        result := result.(success := true);
        kept := Some(Concat(chunks));
      }
  }
}
