/**
 * `install_IPA`: install an `.ipa` archive on the device. The archive's
 * `Payload/<name>.app/` directory and its `Info.plist` are located, the
 * archive is copied to `PublicStaging/<bundle id>` over AFC, and the
 * installation proxy is asked to install it; its status callback decides
 * the result. The zip library, the plist parser, AFC and the installation
 * proxy are represented by what they answer.
 */
module InstallIpa {
  import opened Wrappers
  import opened Bytes
  import opened Text

  // ---------------------------------------------------------------------
  // Results of the installation proxy

  /** `instproxy_error_t`: the codes this function produces, and any other the client constructor passes on. */
  datatype InstError = Success | InvalidArg | OpFailed | UnknownError | OtherError(code: int)

  // ---------------------------------------------------------------------
  // status_cb

  /**
   * One call of the status callback: whether both the command and the
   * status dictionary were passed, and the status and error names found.
   */
  datatype StatusReport = StatusReport(wellFormed: bool, statusName: Option<string>, errorName: Option<string>)

  /** `struct install_status_data`. */
  datatype StatusData = StatusData(commandCompleted: bool, errOccurred: bool, lastStatus: Option<string>)

  /** A report that ends the wait for the installation: completion or an error. */
  predicate Decisive(rep: StatusReport) {
    rep.wellFormed && (rep.statusName == Some("Complete") || rep.errorName.Some?)
  }

  /** The status data after the callbacks for `reports`, in order, from `{0, 0, NULL}`. */
  function StatusAfter(reports: seq<StatusReport>): StatusData {
    if |reports| == 0 then StatusData(false, false, None)
    else
      var d := StatusAfter(reports[..|reports| - 1]);
      var rep := reports[|reports| - 1];
      if !rep.wellFormed then d
      else StatusData(d.commandCompleted || rep.statusName == Some("Complete"),
                      d.errOccurred || rep.errorName.Some?, rep.statusName)
  }

  /** Neither flag is ever reset: each is set exactly when some report set it. */
  lemma {:induction false} StatusFlags(reports: seq<StatusReport>)
    ensures StatusAfter(reports).commandCompleted <==>
      exists i :: 0 <= i < |reports| && reports[i].wellFormed && reports[i].statusName == Some("Complete")
    ensures StatusAfter(reports).errOccurred <==>
      exists i :: 0 <= i < |reports| && reports[i].wellFormed && reports[i].errorName.Some?
  {
    if |reports| > 0 {
      var n := |reports| - 1;
      var init := reports[..n];
      StatusFlags(init);
      assert forall i :: 0 <= i < n ==> reports[i] == init[i];
    }
  }

  /** `last_status` is the status name of the last well-formed report, which may be none. */
  lemma {:induction false} StatusLast(reports: seq<StatusReport>, k: nat)
    requires k < |reports| && reports[k].wellFormed
    requires forall j :: k < j < |reports| ==> !reports[j].wellFormed
    ensures StatusAfter(reports).lastStatus == reports[k].statusName
  {
    if k < |reports| - 1 {
      StatusLast(reports[..|reports| - 1], k);
    }
  }

  /** The `install_status_data` the callback updates. */
  class InstallStatus {
    var commandCompleted: bool
    var errOccurred: bool
    var lastStatus: Option<string>
    /** The reports received so far. */
    ghost var reports: seq<StatusReport>

    ghost predicate Valid()
      reads this
    {
      StatusData(commandCompleted, errOccurred, lastStatus) == StatusAfter(reports)
    }

    constructor()
      ensures Valid() && reports == []
      ensures !commandCompleted && !errOccurred && lastStatus == None
    {
      commandCompleted := false;
      errOccurred := false;
      lastStatus := None;
      reports := [];
    }

    /**
     * `status_cb`: a "Complete" status sets `command_completed`, an error
     * name sets `err_occurred`, and the status name replaces `last_status`;
     * a call without command or status changes nothing.
     */
    method StatusCallback(rep: StatusReport)
      requires Valid()
      modifies this
      ensures Valid() && reports == old(reports) + [rep]
      ensures commandCompleted == (old(commandCompleted) || (rep.wellFormed && rep.statusName == Some("Complete")))
      ensures errOccurred == (old(errOccurred) || (rep.wellFormed && rep.errorName.Some?))
      ensures lastStatus == if rep.wellFormed then rep.statusName else old(lastStatus)
    {
      reports := reports + [rep];
      assert reports[..|reports| - 1] == old(reports);
      if rep.wellFormed {
        if rep.statusName == Some("Complete") {
          commandCompleted := true;
        }
        if rep.errorName.Some? {
          errOccurred := true;
        }
        lastStatus := rep.statusName;
      }
    }
  }

  /**
   * The wait after `instproxy_install`: the callbacks arrive in order until
   * one of the flags is set. When none ever sets one the source waits
   * forever (`hangs`); otherwise the installation failed exactly when the
   * first decisive report carried an error name.
   */
  method WaitForInstall(reports: seq<StatusReport>) returns (hangs: bool, failed: bool)
    ensures hangs <==> forall j :: 0 <= j < |reports| ==> !Decisive(reports[j])
    ensures !hangs ==>
      exists n :: 0 <= n < |reports| && Decisive(reports[n]) &&
        (forall j :: 0 <= j < n ==> !Decisive(reports[j])) &&
        (failed <==> reports[n].errorName.Some?)
    ensures hangs ==> !failed
  {
    var status := new InstallStatus();
    var i := 0;
    while i < |reports| && !status.commandCompleted && !status.errOccurred
      invariant 0 <= i <= |reports|
      invariant status.Valid()
      invariant !(status.commandCompleted || status.errOccurred) ==>
        forall j :: 0 <= j < i ==> !Decisive(reports[j])
      invariant (status.commandCompleted || status.errOccurred) ==>
        0 < i && Decisive(reports[i - 1]) && (forall j :: 0 <= j < i - 1 ==> !Decisive(reports[j])) &&
        (status.errOccurred <==> reports[i - 1].errorName.Some?)
    {
      status.StatusCallback(reports[i]);
      i := i + 1;
    }
    hangs := !status.commandCompleted && !status.errOccurred;
    failed := status.errOccurred;
  }

  // ---------------------------------------------------------------------
  // zip_get_contents

  /** The largest entry read into memory: 10 MiB. */
  const MaxEntrySize := 10485760

  /**
   * An archive entry as the zip library reports it: whether `zip_stat_index`
   * and `zip_fopen_index` succeed, the size it states, and the bytes a
   * read of that size delivers.
   */
  datatype ZipEntry = ZipEntry(name: string, statOk: bool, size: nat, openOk: bool, data: seq<byte>)

  /** `zip_name_locate`: the index of the first entry of that name, or -1. */
  function Locate(archive: seq<ZipEntry>, filename: string): (r: int)
    ensures -1 <= r < |archive|
    ensures r == -1 <==> forall j :: 0 <= j < |archive| ==> archive[j].name != filename
    ensures r >= 0 ==> archive[r].name == filename && forall j :: 0 <= j < r ==> archive[j].name != filename
  {
    if |archive| == 0 then -1
    else if archive[0].name == filename then 0
    else
      var k := Locate(archive[1..], filename);
      assert forall j :: 1 <= j < |archive| ==> archive[j] == archive[1..][j - 1];
      if k < 0 then -1 else k + 1
  }

  /** The result code, the buffer (NULL on every failure) and the length of `zip_get_contents`. */
  datatype Contents = Contents(code: int, buffer: Option<seq<byte>>, len: nat)

  /**
   * `zip_get_contents`: -1 when no entry has the name, -2 when it cannot
   * be stat'ed, -3 when it is larger than 10 MiB, -4 when it cannot be
   * opened, -5 on a short read, and 0 with the entry's bytes otherwise.
   */
  function ZipGetContents(archive: seq<ZipEntry>, filename: string): (r: Contents)
    ensures r.code in {0, -1, -2, -3, -4, -5}
    ensures r.code != 0 ==> r.buffer.None? && r.len == 0
    ensures r.code == -1 <==> Locate(archive, filename) == -1
    ensures r.code == 0 <==>
      var k := Locate(archive, filename);
      k >= 0 && archive[k].statOk && archive[k].size <= MaxEntrySize && archive[k].openOk &&
      |archive[k].data| >= archive[k].size
    ensures r.code == 0 ==>
      var e := archive[Locate(archive, filename)];
      r.len == e.size && r.buffer == Some(e.data[..e.size])
  {
    var k := Locate(archive, filename);
    if k < 0 then Contents(-1, None, 0)
    else
      var e := archive[k];
      if !e.statOk then Contents(-2, None, 0)
      else if e.size > MaxEntrySize then Contents(-3, None, 0)
      else if !e.openOk then Contents(-4, None, 0)
      else if |e.data| < e.size then Contents(-5, None, 0)
      else Contents(0, Some(e.data[..e.size]), e.size)
  }

  /** A failure of an earlier check is reported even when later ones would fail too. */
  lemma ContentsTooLargeFirst(archive: seq<ZipEntry>, filename: string)
    requires Locate(archive, filename) >= 0
    requires archive[Locate(archive, filename)].statOk && archive[Locate(archive, filename)].size > MaxEntrySize
    ensures ZipGetContents(archive, filename).code == -3
  {
  }

  // ---------------------------------------------------------------------
  // zip_get_app_directory

  const PayloadDir := "Payload/"

  /** The first `/` at or after index `from`, or none before the end of the name. */
  function SlashFrom(name: string, from: nat): (r: Option<nat>)
    decreases |name| - from
    ensures r.Some? ==> from <= r.value < |name| && name[r.value] == '/'
    ensures r.Some? ==> forall j :: from <= j < r.value ==> name[j] != '/'
    ensures r.None? ==> forall j :: from <= j < |name| ==> name[j] != '/'
  {
    if from >= |name| then None
    else if name[from] == '/' then Some(from)
    else SlashFrom(name, from + 1)
  }

  /**
   * The app directory an entry name names: `Payload/` followed by a
   * component that does not start with `.` and ends in `.app`, with its
   * `/`; at least 12 characters. None for every other name.
   */
  function AppDirOf(name: string): (r: Option<string>)
    ensures r.Some? ==>
      var d := r.value;
      d <= name && 12 <= |d| && d[..8] == PayloadDir && d[8] != '.' &&
      d[|d| - 5..] == ".app/" && forall j :: 8 <= j < |d| - 1 ==> d[j] != '/'
  {
    if |name| > 8 && name[..8] == PayloadDir && name[8] != '.' then
      match SlashFrom(name, 8)
      case None => None
      case Some(p) =>
        if p + 1 < 12 || name[p - 4..p] != ".app" then None
        else
          assert name[..p + 1][p - 4..] == name[p - 4..p + 1] == name[p - 4..p] + "/";
          Some(name[..p + 1])
    else None
  }

  /** Every name inside an app directory names that directory, so the directory is unique. */
  lemma AppDirOfInside(d: string, rest: string)
    requires 12 <= |d| && d[..8] == PayloadDir && d[8] != '.' && d[|d| - 5..] == ".app/"
    requires forall j :: 8 <= j < |d| - 1 ==> d[j] != '/'
    ensures AppDirOf(d + rest) == Some(d)
  {
    var name := d + rest;
    assert name[..8] == d[..8];
    assert forall j :: 8 <= j < |d| - 1 ==> name[j] != '/';
    assert name[|d| - 1] == '/';
    SlashAt(name, 8, |d| - 1);
    assert name[|d| - 5..|d| - 1] == d[|d| - 5..|d| - 1] == ".app";
    assert name[..|d|] == d;
  }

  /** The scan stops at the first `/`. */
  lemma {:induction false} SlashAt(name: string, from: nat, p: nat)
    requires from <= p < |name| && name[p] == '/'
    requires forall j :: from <= j < p ==> name[j] != '/'
    ensures SlashFrom(name, from) == Some(p)
    decreases p - from
  {
    if from < p {
      SlashAt(name, from + 1, p);
    }
  }

  /** The `Info.plist` looked up lies in the app directory found. */
  lemma InfoPlistInsideApp(name: string)
    requires AppDirOf(name).Some?
    ensures AppDirOf(AppDirOf(name).value + "Info.plist") == AppDirOf(name)
  {
    AppDirOfInside(AppDirOf(name).value, "Info.plist");
  }

  /** The name of the SINF looked up for an executable. */
  function SinfName(exe: string): string {
    "Payload/" + exe + ".app/SC_Info/" + exe + ".sinf"
  }

  /** For an executable name that is a plain file name, the SINF lies in its app directory. */
  lemma SinfInsideApp(exe: string)
    requires |exe| > 0 && exe[0] != '.' && '/' !in exe
    ensures AppDirOf(SinfName(exe)) == Some("Payload/" + exe + ".app/")
  {
    var d := "Payload/" + exe + ".app/";
    assert d[8] == exe[0];
    assert forall j :: 8 <= j < |d| - 1 ==> d[j] != '/' by {
      forall j | 8 <= j < |d| - 1
        ensures d[j] != '/'
      {
        if j < 8 + |exe| {
          assert d[j] == exe[j - 8];
        }
      }
    }
    assert SinfName(exe) == d + ("SC_Info/" + exe + ".sinf");
    AppDirOfInside(d, "SC_Info/" + exe + ".sinf");
  }

  /** The app directory of the archive: that of the first entry naming one. */
  function FirstAppDir(names: seq<string>): (r: Option<string>) {
    if |names| == 0 then None
    else if AppDirOf(names[0]).Some? then AppDirOf(names[0])
    else FirstAppDir(names[1..])
  }

  /** The directory found is that of some entry, and no earlier entry names one. */
  lemma {:induction false} FirstAppDirIsFirst(names: seq<string>)
    ensures FirstAppDir(names).None? <==> forall i :: 0 <= i < |names| ==> AppDirOf(names[i]).None?
    ensures FirstAppDir(names).Some? ==>
      exists i :: 0 <= i < |names| && AppDirOf(names[i]) == FirstAppDir(names) &&
        forall j :: 0 <= j < i ==> AppDirOf(names[j]).None?
  {
    if |names| > 0 && AppDirOf(names[0]).None? {
      var tail := names[1..];
      FirstAppDirIsFirst(tail);
      assert forall i :: 0 < i < |names| ==> names[i] == tail[i - 1];
      if FirstAppDir(tail).Some? {
        var i :| 0 <= i < |tail| && AppDirOf(tail[i]) == FirstAppDir(tail) &&
          forall j :: 0 <= j < i ==> AppDirOf(tail[j]).None?;
        assert AppDirOf(names[i + 1]) == FirstAppDir(names);
      }
    }
  }

  /** Skipping entries that name no app directory does not change the answer. */
  lemma FirstAppDirSkip(names: seq<string>, i: nat)
    requires i < |names| && AppDirOf(names[i]).None?
    ensures FirstAppDir(names[i..]) == FirstAppDir(names[i + 1..])
  {
    assert names[i..][1..] == names[i + 1..];
  }

  /** What the pointer scan of the source does: stop at a `/`, or run off the end of the name. */
  datatype Scan = AtSlash(p: nat) | PastEnd

  /**
   * The scan as written: its loop condition compares the pointer with
   * NULL, which it never equals, so a name with no `/` after `Payload/`
   * is read past its terminating NUL.
   */
  function ScanAsWritten(name: string, p: nat): (r: Scan)
    decreases |name| - p
  {
    if p >= |name| then PastEnd
    else if name[p] == '/' then AtSlash(p)
    else ScanAsWritten(name, p + 1)
  }

  /** The scan as written leaves the string for every name without a further `/`, where it should skip it. */
  lemma {:induction false} ScanOverruns(name: string, p: nat)
    requires forall j :: p <= j < |name| ==> name[j] != '/'
    ensures ScanAsWritten(name, p) == PastEnd
    ensures SlashFrom(name, p) == None
    decreases |name| - p
  {
    if p < |name| {
      ScanOverruns(name, p + 1);
    }
  }

  /** A plain file directly under `Payload/` ahead of the app: as written the scan overruns; corrected it is skipped. */
  lemma PayloadFileAhead()
    ensures ScanAsWritten("Payload/README", 8) == PastEnd
    ensures FirstAppDir(["Payload/README", "Payload/Demo.app/Info.plist"]) == Some("Payload/Demo.app/")
  {
    ScanOverruns("Payload/README", 8);
    var d := "Payload/Demo.app/";
    var names := ["Payload/README", "Payload/Demo.app/Info.plist"];
    assert names[1] == d + "Info.plist";
    AppDirOfInside(d, "Info.plist");
    assert names[1..][1..] == [];
  }

  /** The pointer scan, stopping at the end of the name. */
  method FindSlash(name: string, from: nat) returns (r: Option<nat>)
    ensures r == SlashFrom(name, from)
  {
    var p := from;
    while p < |name| && name[p] != '/'
      invariant from <= p
      invariant SlashFrom(name, from) == SlashFrom(name, p)
      decreases |name| - p
    {
      p := p + 1;
    }
    if p < |name| {
      return Some(p);
    }
    return None;
  }

  /**
   * `zip_get_app_directory` with the scan stopping at the end of the name:
   * 0 and the directory of the first entry naming one, or -1.
   */
  method AppDirectory(names: seq<string>) returns (code: int, path: Option<string>)
    ensures path == FirstAppDir(names)
    ensures code == (if path.None? then -1 else 0)
  {
    path := None;
    var i := 0;
    while i < |names|
      invariant 0 <= i <= |names|
      invariant FirstAppDir(names) == FirstAppDir(names[i..])
    {
      var name := names[i];
      if |name| > 8 && name[..8] == PayloadDir && name[8] != '.' {
        var slash := FindSlash(name, 8);
        if slash.Some? {
          var p := slash.value;
          if !(p + 1 < 12 || name[p - 4..p] != ".app") {
            path := Some(name[..p + 1]);
            assert AppDirOf(name) == path;
            assert names[i..][0] == name;
            break;
          }
        }
      }
      assert AppDirOf(name).None?;
      FirstAppDirSkip(names, i);
      i := i + 1;
    }
    if path.None? {
      assert names[i..] == [];
      return -1, path;
    }
    return 0, path;
  }

  // ---------------------------------------------------------------------
  // afc_upload_file

  /** The read buffer: 1 MiB. */
  const ChunkSize := 1048576

  /** One answer of `afc_file_write`: the count it reports written, or an error. */
  datatype WriteReply = Written(count: nat) | WriteFailed

  /** The buffer prefix the device takes from a write of `sent`. */
  function Taken(sent: seq<byte>, count: nat): (r: seq<byte>)
    ensures r <= sent
  {
    if count < |sent| then sent[..count] else sent
  }

  /**
   * The inner write loop as written: every retry passes the chunk from its
   * start, so after a partial write the device receives the chunk's first
   * bytes again, and a successful write of no bytes is simply retried.
   * Returns the total counted and the bytes the device took.
   */
  function ChunkAsWritten(chunk: seq<byte>, total: nat, replies: seq<WriteReply>): (r: (nat, seq<byte>))
    decreases |replies|
  {
    if total >= |chunk| || |replies| == 0 || replies[0].WriteFailed? then (total, [])
    else
      var got := Taken(chunk, replies[0].count);
      var rest := ChunkAsWritten(chunk, total + |got|, replies[1..]);
      (rest.0, got + rest.1)
  }

  /** Two single-byte writes of a two-byte chunk count as complete, yet the device holds the first byte twice. */
  lemma AsWrittenResends()
    ensures ChunkAsWritten([1, 2], 0, [Written(1), Written(1)]) == (2, [1, 1])
  {
    var chunk: seq<byte> := [1, 2];
    assert Taken(chunk, 1) == [1];
    assert [Written(1), Written(1)][1..] == [Written(1)];
    assert [Written(1)][1..] == [];
    var last := ChunkAsWritten(chunk, 2, []);
    assert last == (2, []);
    var second := ChunkAsWritten(chunk, 1, [Written(1)]);
    assert second == (last.0, Taken(chunk, 1) + last.1);
    assert Taken(chunk, 1) + last.1 == [1];
    assert second.0 == 2 && second.1 == [1];
    var first := ChunkAsWritten(chunk, 0, [Written(1), Written(1)]);
    assert first == (second.0, Taken(chunk, 1) + second.1);
    assert Taken(chunk, 1) + second.1 == [1, 1];
  }

  /**
   * As written, a device that keeps answering a write with success and no
   * bytes keeps the inner loop retrying: however many such answers come,
   * nothing more is counted and nothing reaches the device.
   */
  lemma {:induction false} AsWrittenSpinsOnZeroWrites(chunk: seq<byte>, total: nat, replies: seq<WriteReply>)
    requires total < |chunk|
    requires forall j :: 0 <= j < |replies| ==> replies[j] == Written(0)
    ensures ChunkAsWritten(chunk, total, replies) == (total, [])
    decreases |replies|
  {
    if |replies| > 0 {
      assert replies[0] == Written(0);
      assert Taken(chunk, replies[0].count) == [];
      assert forall j :: 0 <= j < |replies[1..]| ==> replies[1..][j] == replies[j + 1];
      AsWrittenSpinsOnZeroWrites(chunk, total, replies[1..]);
      assert ChunkAsWritten(chunk, total, replies).1 == [] + [];
    }
  }

  /**
   * The inner write loop of `afc_upload_file` with each retry passing the
   * unwritten rest of the chunk, from `total` bytes written and reply
   * `k` on: the total it ends with and the next reply. It stops once the
   * chunk is written, or at a failed write, a write of no bytes or the end
   * of the replies. Every reply it moves past wrote at least one byte, so
   * it makes at most one call per byte of the chunk.
   */
  function ChunkFrom(chunk: seq<byte>, total: nat, replies: seq<WriteReply>, k: nat): (r: (nat, nat))
    requires total <= |chunk| && k <= |replies|
    ensures total <= r.0 <= |chunk| && k <= r.1 <= |replies|
    ensures r.1 - k <= r.0 - total
    decreases |replies| - k
  {
    if total == |chunk| || k == |replies| || replies[k].WriteFailed? || replies[k].count == 0 then (total, k)
    else ChunkFrom(chunk, total + |Taken(chunk[total..], replies[k].count)|, replies, k + 1)
  }

  /** The inner write loop, starting at reply `k`: the total written, the bytes the device took, and the next reply. */
  method WriteChunk(chunk: seq<byte>, replies: seq<WriteReply>, k: nat) returns (total: nat, got: seq<byte>, next: nat)
    requires k <= |replies|
    ensures (total, next) == ChunkFrom(chunk, 0, replies, k)
    ensures total <= |chunk| && got == chunk[..total]
    ensures k <= next <= |replies|
  {
    total, got, next := 0, [], k;
    while total < |chunk|
      invariant total <= |chunk| && got == chunk[..total]
      invariant k <= next <= |replies|
      invariant ChunkFrom(chunk, total, replies, next) == ChunkFrom(chunk, 0, replies, k)
      decreases |replies| - next
    {
      if next == |replies| || replies[next].WriteFailed? || replies[next].count == 0 {
        break;
      }
      var taken := Taken(chunk[total..], replies[next].count);
      next := next + 1;
      assert chunk[..total] + taken == chunk[..total + |taken|];
      got := got + taken;
      total := total + |taken|;
    }
  }

  /** A reply that takes a whole chunk. */
  predicate TakesChunk(w: WriteReply) {
    w.Written? && w.count >= ChunkSize
  }

  /** A device that takes every write whole writes a chunk with one reply. */
  lemma ChunkInOneWrite(chunk: seq<byte>, replies: seq<WriteReply>, k: nat)
    requires 0 < |chunk| <= ChunkSize && k < |replies| && TakesChunk(replies[k])
    ensures ChunkFrom(chunk, 0, replies, k) == (|chunk|, k + 1)
  {
    assert chunk[0..] == chunk;
    assert ChunkFrom(chunk, |chunk|, replies, k + 1) == (|chunk|, k + 1);
  }

  /** The code of `afc_upload_file` and the bytes the device file received. */
  datatype Upload = Upload(code: int, received: seq<byte>)

  /** The size of the next `fread`: a full buffer, or what is left of the file. */
  function ReadAmount(file: seq<byte>, pos: nat): (n: nat)
    requires pos < |file|
    ensures 0 < n <= ChunkSize && pos + n <= |file|
  {
    if |file| - pos < ChunkSize then |file| - pos else ChunkSize
  }

  /**
   * The chunk loop of `afc_upload_file` from `pos` and reply `k` on:
   * each chunk is written in turn; the first one written incompletely
   * gives -1 with what the device took of it, the end of the file 0.
   */
  function UploadFrom(file: seq<byte>, pos: nat, replies: seq<WriteReply>, k: nat): (r: Upload)
    requires pos <= |file| && k <= |replies|
    decreases |file| - pos
  {
    if pos == |file| then Upload(0, [])
    else
      var amount := ReadAmount(file, pos);
      var chunk := file[pos..pos + amount];
      var c := ChunkFrom(chunk, 0, replies, k);
      if c.0 != amount then Upload(-1, chunk[..c.0])
      else
        var rest := UploadFrom(file, pos + amount, replies, c.1);
        Upload(rest.code, chunk + rest.received)
  }

  /** One step of the chunk loop, given what the write loop did with the chunk. */
  lemma UploadFromStep(file: seq<byte>, pos: nat, replies: seq<WriteReply>, k: nat, amount: nat, total: nat, next: nat)
    requires pos < |file| && k <= |replies| && amount == ReadAmount(file, pos)
    requires (total, next) == ChunkFrom(file[pos..pos + amount], 0, replies, k)
    ensures total != amount ==>
      UploadFrom(file, pos, replies, k) == Upload(-1, file[pos..pos + amount][..total])
    ensures total == amount ==>
      pos + amount <= |file| && next <= |replies| &&
      UploadFrom(file, pos, replies, k) == Prepend(file[pos..pos + amount], UploadFrom(file, pos + amount, replies, next))
  {
  }

  /** The upload reports success exactly when the device holds the rest of the file; otherwise it holds a part of it. */
  lemma {:induction false} UploadFromOutcome(file: seq<byte>, pos: nat, replies: seq<WriteReply>, k: nat)
    requires pos <= |file| && k <= |replies|
    ensures var r := UploadFrom(file, pos, replies, k);
      (r.code == 0 || r.code == -1) && r.received <= file[pos..] && (r.code == 0 <==> r.received == file[pos..])
    decreases |file| - pos
  {
    if pos < |file| {
      var amount := ReadAmount(file, pos);
      var chunk := file[pos..pos + amount];
      var c := ChunkFrom(chunk, 0, replies, k);
      assert file[pos..] == chunk + file[pos + amount..];
      if c.0 == amount {
        UploadFromOutcome(file, pos + amount, replies, c.1);
      } else {
        assert chunk[..c.0] == file[pos..][..c.0];
      }
    }
  }

  /** A device that takes every write whole, with a reply for every chunk, receives the whole file with code 0. */
  lemma {:induction false} AcceptingDeviceGetsAll(file: seq<byte>, pos: nat, replies: seq<WriteReply>, k: nat)
    requires pos <= |file| && k <= |replies|
    requires forall j :: k <= j < |replies| ==> TakesChunk(replies[j])
    requires (|file| - pos + ChunkSize - 1) / ChunkSize <= |replies| - k
    ensures UploadFrom(file, pos, replies, k) == Upload(0, file[pos..])
    decreases |file| - pos
  {
    if pos < |file| {
      var amount := ReadAmount(file, pos);
      var chunk := file[pos..pos + amount];
      assert k < |replies|;
      ChunkInOneWrite(chunk, replies, k);
      assert (|file| - (pos + amount) + ChunkSize - 1) / ChunkSize <= |replies| - (k + 1);
      AcceptingDeviceGetsAll(file, pos + amount, replies, k + 1);
      assert file[pos..] == chunk + file[pos + amount..];
    }
  }

  /** `u` with `p` received before it. */
  function Prepend(p: seq<byte>, u: Upload): Upload {
    Upload(u.code, p + u.received)
  }

  lemma PrependTwice(p: seq<byte>, q: seq<byte>, u: Upload)
    ensures Prepend(p, Prepend(q, u)) == Prepend(p + q, u)
  {
    assert p + (q + u.received) == (p + q) + u.received;
  }

  /**
   * What `afc_upload_file` does with each retry passing the unwritten
   * rest of the chunk: -1 when the local file or the device file cannot be
   * opened, otherwise the chunk loop over the bytes the `fread` calls
   * deliver. A failing `fread` returns 0, which ends the loop as the end of
   * the file does; `ferror` is never asked.
   */
  function UploadSpec(readable: bool, openOk: bool, file: seq<byte>, readsOk: Option<nat>, replies: seq<WriteReply>): Upload {
    if !readable || !openOk then Upload(-1, []) else UploadFrom(ReadablePart(file, ChunkSize, readsOk), 0, replies, 0)
  }

  /**
   * `afc_upload_file` with the read error checked after the loop (`ferror`):
   * an upload cut short by a failing read is a failure.
   */
  function CheckedUploadSpec(readable: bool, openOk: bool, file: seq<byte>, readsOk: Option<nat>, replies: seq<WriteReply>): Upload {
    var u := UploadSpec(readable, openOk, file, readsOk, replies);
    if u.code == 0 && ReadFails(file, ChunkSize, readsOk) then Upload(-1, u.received) else u
  }

  /** One pass of the chunk loop, stated against the whole upload. */
  lemma UploadLoopStep(file: seq<byte>, replies: seq<WriteReply>, pos: nat, k: nat, amount: nat, total: nat, next: nat)
    requires pos < |file| && k <= |replies| && amount == ReadAmount(file, pos)
    requires (total, next) == ChunkFrom(file[pos..pos + amount], 0, replies, k)
    requires UploadFrom(file, 0, replies, 0) == Prepend(file[..pos], UploadFrom(file, pos, replies, k))
    ensures total != amount ==>
      UploadFrom(file, 0, replies, 0) == Upload(-1, file[..pos] + file[pos..pos + amount][..total])
    ensures total == amount ==>
      pos + amount <= |file| && next <= |replies| &&
      UploadFrom(file, 0, replies, 0) == Prepend(file[..pos + amount], UploadFrom(file, pos + amount, replies, next))
  {
    UploadFromStep(file, pos, replies, k, amount, total, next);
    if total == amount {
      PrependTwice(file[..pos], file[pos..pos + amount], UploadFrom(file, pos + amount, replies, next));
      assert file[..pos] + file[pos..pos + amount] == file[..pos + amount];
    }
  }

  /** The chunk loop of `afc_upload_file`, once both files are open. */
  method UploadChunks(file: seq<byte>, replies: seq<WriteReply>) returns (r: Upload)
    ensures r == UploadFrom(file, 0, replies, 0)
  {
    var pos := 0;
    var k := 0;
    while pos < |file|
      invariant 0 <= pos <= |file|
      invariant 0 <= k <= |replies|
      invariant UploadFrom(file, 0, replies, 0) == Prepend(file[..pos], UploadFrom(file, pos, replies, k))
      decreases |file| - pos
    {
      var amount := ReadAmount(file, pos);
      var total, got, next := WriteChunk(file[pos..pos + amount], replies, k);
      UploadLoopStep(file, replies, pos, k, amount, total, next);
      if total != amount {
        return Upload(-1, file[..pos] + got);
      }
      pos, k := pos + amount, next;
    }
    assert file[..pos] + [] == file;
    return Upload(0, file);
  }

  /**
   * `afc_upload_file` with each retry passing the unwritten rest of the
   * chunk: -1 when the local file or the device file cannot be opened, or
   * when a chunk is not written completely; 0 exactly when the device file
   * received everything the reads delivered, which is the whole local file
   * unless a read fails. The replies to the writes come in order; running
   * out of them counts as a failed write.
   */
  method UploadFile(readable: bool, openOk: bool, file: seq<byte>, readsOk: Option<nat>, replies: seq<WriteReply>)
    returns (r: Upload)
    ensures r == UploadSpec(readable, openOk, file, readsOk, replies)
    ensures r.code == 0 || r.code == -1
    ensures !readable || !openOk ==> r == Upload(-1, [])
    ensures r.code == 0 <==> readable && openOk && r.received == ReadablePart(file, ChunkSize, readsOk)
    ensures r.received <= ReadablePart(file, ChunkSize, readsOk) <= file
  {
    if !readable {
      return Upload(-1, []);
    }
    if !openOk {
      return Upload(-1, []);
    }
    var part := ReadablePart(file, ChunkSize, readsOk);
    r := UploadChunks(part, replies);
    UploadFromOutcome(part, 0, replies, 0);
    assert part[0..] == part;
  }

  /**
   * As written, a read that fails before the end of the file passes for
   * the end of it: with a device that takes every write, the upload
   * reports success although the device holds only part of the file.
   */
  lemma ReadErrorReportsSuccess(file: seq<byte>, readsOk: Option<nat>, replies: seq<WriteReply>)
    requires ReadFails(file, ChunkSize, readsOk)
    requires forall j :: 0 <= j < |replies| ==> TakesChunk(replies[j])
    requires (|file| + ChunkSize - 1) / ChunkSize <= |replies|
    ensures var u := UploadSpec(true, true, file, readsOk, replies);
      u.code == 0 && u.received < file
  {
    var part := ReadablePart(file, ChunkSize, readsOk);
    assert (|part| + ChunkSize - 1) / ChunkSize <= (|file| + ChunkSize - 1) / ChunkSize;
    AcceptingDeviceGetsAll(part, 0, replies, 0);
    assert part[0..] == part;
  }

  /**
   * `afc_upload_file` with the read error checked: 0 exactly when the
   * device file received the whole local file.
   */
  method UploadFileChecked(readable: bool, openOk: bool, file: seq<byte>, readsOk: Option<nat>, replies: seq<WriteReply>)
    returns (r: Upload)
    ensures r == CheckedUploadSpec(readable, openOk, file, readsOk, replies)
    ensures r.code == 0 || r.code == -1
    ensures !readable || !openOk ==> r == Upload(-1, [])
    ensures r.code == 0 <==> readable && openOk && r.received == file
    ensures r.received <= file
  {
    r := UploadFile(readable, openOk, file, readsOk, replies);
    assert ReadFails(file, ChunkSize, readsOk) ==> |r.received| < |file|;
    if r.code == 0 && ReadFails(file, ChunkSize, readsOk) {
      r := Upload(-1, r.received);
    }
  }

  /** With both files open and every read good, a device that takes every write whole receives the package, with code 0. */
  lemma AcceptingDeviceUploads(file: seq<byte>, readsOk: Option<nat>, replies: seq<WriteReply>)
    requires !ReadFails(file, ChunkSize, readsOk)
    requires forall j :: 0 <= j < |replies| ==> TakesChunk(replies[j])
    requires (|file| + ChunkSize - 1) / ChunkSize <= |replies|
    ensures CheckedUploadSpec(true, true, file, readsOk, replies) == Upload(0, file)
  {
    AcceptingDeviceGetsAll(file, 0, replies, 0);
    assert file[0..] == file;
  }

  // ---------------------------------------------------------------------
  // install_IPA

  /** Whether the device, the AFC client and the file path passed are non-null. */
  datatype Arguments = Arguments(device: bool, afc: bool, filePath: bool)

  /** The lockdown handshake, the start of the installation proxy and the proxy client's result. */
  datatype Link = Link(handshakeOk: bool, serviceOk: bool, clientError: InstError)

  /**
   * The package: `stat`, `zip_open` and `fopen` on its path, its entries,
   * its bytes, and how many of its `fread` calls succeed before one fails
   * (`None`: all).
   */
  datatype Package = Package(statOk: bool, zipOk: bool, archive: seq<ZipEntry>, readable: bool, bytes: seq<byte>,
                             readsOk: Option<nat>)

  /** The two keys read from `Info.plist`. */
  datatype InfoPlist = InfoPlist(executable: Option<string>, identifier: Option<string>)

  /** The device's side of the copy: whether the file opens and the answers to the writes. */
  datatype Transfer = Transfer(openOk: bool, replies: seq<WriteReply>)

  /** The client options passed to `instproxy_install`. */
  datatype InstallOptions = InstallOptions(bundleIdentifier: Option<string>, sinf: Option<seq<byte>>,
                                           metadata: Option<seq<byte>>)

  /** `install_IPA`'s result, where the package was copied, what arrived, and the options of the installation requested. */
  datatype InstallRun = InstallRun(err: InstError, stagedAt: Option<string>, uploaded: seq<byte>,
                                   options: Option<InstallOptions>, hangs: bool)

  const MetadataName := "iTunesMetadata.plist"

  function NamesOf(archive: seq<ZipEntry>): (r: seq<string>)
    ensures |r| == |archive| && forall i :: 0 <= i < |archive| ==> r[i] == archive[i].name
  {
    seq(|archive|, i requires 0 <= i < |archive| => archive[i].name)
  }

  /** The `iTunesMetadata.plist` bytes passed on: only when the entry reads and parses as a plist. */
  function MetadataOf(archive: seq<ZipEntry>, parses: seq<byte> -> bool): Option<seq<byte>> {
    var c := ZipGetContents(archive, MetadataName);
    if c.code == 0 && parses(c.buffer.value) then c.buffer else None
  }

  /** The app directory's `Info.plist`, when it reads and parses. */
  function InfoOf(archive: seq<ZipEntry>, appDir: string, parse: seq<byte> -> Option<InfoPlist>): Option<InfoPlist> {
    var c := ZipGetContents(archive, appDir + "Info.plist");
    if c.code < 0 then None else parse(c.buffer.value)
  }

  /** The SINF bytes passed on, when the entry reads. */
  function SinfOf(archive: seq<ZipEntry>, exe: string): Option<seq<byte>> {
    var c := ZipGetContents(archive, SinfName(exe));
    if c.code == 0 then c.buffer else None
  }

  /** `PublicStaging/<bundle id>`; a missing identifier is formatted by the C library as `(null)`. */
  function StagingPath(identifier: Option<string>): string {
    "PublicStaging/" + identifier.GetOr("(null)")
  }

  /** Packages with different bundle identifiers are staged under different names. */
  lemma StagingPathsApart(a: string, b: string)
    ensures StagingPath(Some(a)) == StagingPath(Some(b)) <==> a == b
  {
    FramedEqual("PublicStaging/", a, b, "");
  }

  /** The first decisive status report carries an error: the installation is reported failed. */
  ghost predicate InstallFails(reports: seq<StatusReport>) {
    exists n :: 0 <= n < |reports| && Decisive(reports[n]) &&
      (forall j :: 0 <= j < n ==> !Decisive(reports[j])) && reports[n].errorName.Some?
  }

  /**
   * The part of `install_IPA` between the proxy connection and the
   * installation: find the app directory and its `Info.plist`, collect
   * the metadata and the SINF, and copy the package to the staging path.
   * A missing package, archive, app directory, `Info.plist` or executable
   * name is an invalid argument; a failed copy is a failed operation.
   */
  method StageArchive(pkg: Package, parseMeta: seq<byte> -> bool, parseInfo: seq<byte> -> Option<InfoPlist>,
                      transfer: Transfer)
    returns (err: InstError, stagedAt: Option<string>, uploaded: seq<byte>, options: Option<InstallOptions>)
    ensures err == Success || err == InvalidArg || err == OpFailed
    ensures options.Some? <==> err == Success
    ensures stagedAt.None? ==> uploaded == []
    ensures uploaded <= pkg.bytes
    ensures err == InvalidArg <==>
      !pkg.statOk || !pkg.zipOk || FirstAppDir(NamesOf(pkg.archive)).None? ||
      InfoOf(pkg.archive, FirstAppDir(NamesOf(pkg.archive)).value, parseInfo).None? ||
      InfoOf(pkg.archive, FirstAppDir(NamesOf(pkg.archive)).value, parseInfo).value.executable.None?
    ensures err == InvalidArg ==> stagedAt.None?
    ensures err != InvalidArg ==>
      var upload := CheckedUploadSpec(pkg.readable, transfer.openOk, pkg.bytes, pkg.readsOk, transfer.replies);
      uploaded == upload.received && (err == Success <==> upload.code == 0)
    ensures err != InvalidArg ==>
      var info := InfoOf(pkg.archive, FirstAppDir(NamesOf(pkg.archive)).value, parseInfo).value;
      stagedAt == Some(StagingPath(info.identifier)) &&
      (err == Success ==>
        uploaded == pkg.bytes &&
        options == Some(InstallOptions(info.identifier, SinfOf(pkg.archive, info.executable.value),
                                       MetadataOf(pkg.archive, parseMeta))))
  {
    stagedAt, uploaded, options := None, [], None;
    if !pkg.statOk {
      return InvalidArg, stagedAt, uploaded, options;
    }
    if !pkg.zipOk {
      return InvalidArg, stagedAt, uploaded, options;
    }
    var meta := None;
    var metaContents := ZipGetContents(pkg.archive, MetadataName);
    if metaContents.code == 0 && parseMeta(metaContents.buffer.value) {
      meta := metaContents.buffer;
    }
    var code, appDir := AppDirectory(NamesOf(pkg.archive));
    if code != 0 {
      return InvalidArg, stagedAt, uploaded, options;
    }
    var infoContents := ZipGetContents(pkg.archive, appDir.value + "Info.plist");
    if infoContents.code < 0 {
      return InvalidArg, stagedAt, uploaded, options;
    }
    var info := parseInfo(infoContents.buffer.value);
    if info.None? || info.value.executable.None? {
      return InvalidArg, stagedAt, uploaded, options;
    }
    var exe := info.value.executable.value;
    var sinfContents := ZipGetContents(pkg.archive, SinfName(exe));
    var sinf := if sinfContents.code == 0 then sinfContents.buffer else None;
    var pkgName := StagingPath(info.value.identifier);
    stagedAt := Some(pkgName);
    var upload := UploadFileChecked(pkg.readable, transfer.openOk, pkg.bytes, pkg.readsOk, transfer.replies);
    uploaded := upload.received;
    if upload.code < 0 {
      return OpFailed, stagedAt, uploaded, options;
    }
    options := Some(InstallOptions(info.value.identifier, sinf, meta));
    return Success, stagedAt, uploaded, options;
  }

  /**
   * `install_IPA`: null arguments are invalid; a failed handshake or
   * service start is a failed operation; the proxy client's error is
   * passed on; then the archive is staged, and once installing it was
   * requested the result is a failed operation exactly when the first
   * decisive status report carried an error, success otherwise.
   */
  method InstallIpa(args: Arguments, link: Link, pkg: Package, parseMeta: seq<byte> -> bool,
                    parseInfo: seq<byte> -> Option<InfoPlist>, transfer: Transfer, reports: seq<StatusReport>)
    returns (r: InstallRun)
    ensures !(args.device && args.filePath && args.afc) ==> r == InstallRun(InvalidArg, None, [], None, false)
    ensures args.device && args.filePath && args.afc && !(link.handshakeOk && link.serviceOk) ==>
      r == InstallRun(OpFailed, None, [], None, false)
    ensures args.device && args.filePath && args.afc && link.handshakeOk && link.serviceOk && link.clientError != Success
      ==> r == InstallRun(link.clientError, None, [], None, false)
    ensures r.uploaded <= pkg.bytes
    ensures r.options.None? ==> !r.hangs
    ensures r.options.Some? ==>
      (r.hangs <==> forall j :: 0 <= j < |reports| ==> !Decisive(reports[j])) &&
      (!r.hangs ==> r.err == (if InstallFails(reports) then OpFailed else Success))
    ensures r.err == Success && !r.hangs ==> r.options.Some? && r.uploaded == pkg.bytes
  {
    if !args.device || !args.filePath || !args.afc {
      return InstallRun(InvalidArg, None, [], None, false);
    }
    if !link.handshakeOk {
      return InstallRun(OpFailed, None, [], None, false);
    }
    if !link.serviceOk {
      return InstallRun(OpFailed, None, [], None, false);
    }
    if link.clientError != Success {
      return InstallRun(link.clientError, None, [], None, false);
    }
    var err, stagedAt, uploaded, options := StageArchive(pkg, parseMeta, parseInfo, transfer);
    if err != Success {
      return InstallRun(err, stagedAt, uploaded, None, false);
    }
    var hangs, failed := WaitForInstall(reports);
    err := if failed then OpFailed else Success;
    return InstallRun(err, stagedAt, uploaded, options, hangs);
  }
}
