/**
 * `ServiceManager`: every device-file operation goes through a guard
 * that checks the device and its mutex, takes the per-device recursive
 * lock, re-checks that the AFC client is still there, and only then
 * performs the operation. The lock is a counter and every step the
 * gateway takes is recorded in the device's event log, so "the lock is
 * released on every path" and "the call happens under the lock" become
 * facts about that log.
 */
module Gateway {
  import opened Bytes
  import opened Afc

  datatype Event = Acquire | Invoke(call: AfcCall) | Release

  function Step(e: Event): int {
    match e
    case Acquire => 1
    case Release => -1
    case Invoke(_) => 0
  }

  /** Locks held after the events of `log`: acquisitions minus releases. */
  function Depth(log: seq<Event>): int {
    if |log| == 0 then 0 else Step(log[0]) + Depth(log[1..])
  }

  /**
   * Starting with `depth` locks held, the events of `log` never release
   * more than is held and make no call without the lock.
   */
  ghost predicate DisciplinedFrom(depth: int, log: seq<Event>)
    decreases |log|
  {
    |log| == 0 ||
    (depth + Step(log[0]) >= 0 && (log[0].Invoke? ==> depth > 0) &&
     DisciplinedFrom(depth + Step(log[0]), log[1..]))
  }

  ghost predicate Disciplined(log: seq<Event>) {
    DisciplinedFrom(0, log)
  }

  /** The event sequences one pass through the gateway can leave behind. */
  ghost predicate GatewayRound(seg: seq<Event>) {
    seg == [] ||
    seg == [Acquire, Release] ||
    (|seg| == 3 && seg[0] == Acquire && seg[1].Invoke? && seg[2] == Release)
  }

  /** A log is disciplined exactly when both of its halves are, the second from where the first left off. */
  lemma {:induction false} DisciplineAppend(depth: int, a: seq<Event>, b: seq<Event>)
    ensures DisciplinedFrom(depth, a + b) <==> DisciplinedFrom(depth, a) && DisciplinedFrom(depth + Depth(a), b)
    ensures Depth(a + b) == Depth(a) + Depth(b)
    decreases |a|
  {
    if |a| == 0 {
      assert a + b == b;
    } else {
      assert (a + b)[0] == a[0];
      assert (a + b)[1..] == a[1..] + b;
      DisciplineAppend(depth + Step(a[0]), a[1..], b);
    }
  }

  /** A disciplined log never holds a negative number of locks. */
  lemma {:induction false} DisciplinedDepth(depth: int, log: seq<Event>)
    requires depth >= 0 && DisciplinedFrom(depth, log)
    ensures depth + Depth(log) >= 0
    decreases |log|
  {
    if |log| > 0 {
      DisciplinedDepth(depth + Step(log[0]), log[1..]);
    }
  }

  /** Each single pass is disciplined from any non-negative depth and gives the lock back. */
  lemma RoundDisciplined(depth: int, seg: seq<Event>)
    requires depth >= 0 && GatewayRound(seg)
    ensures DisciplinedFrom(depth, seg) && Depth(seg) == 0
  {
    if |seg| == 2 {
      assert seg[1..] == [Release];
      assert seg[1..][1..] == [];
    } else if |seg| == 3 {
      var tail := seg[1..];
      assert tail == [seg[1], Release];
      assert tail[1..] == [Release];
      assert [Release][1..] == [];
      assert Step(seg[1]) == 0;
      assert DisciplinedFrom(depth + 1, [Release]);
      assert DisciplinedFrom(depth + 1, tail);
      assert Depth([Release]) == -1;
      assert Depth(tail) == -1;
    }
  }

  /**
   * A pass through the gateway keeps the log disciplined and gives the
   * lock back: whatever it did, the depth afterwards is the depth before.
   */
  lemma RoundKeepsDiscipline(log: seq<Event>, seg: seq<Event>)
    requires Disciplined(log) && GatewayRound(seg)
    ensures Disciplined(log + seg)
    ensures Depth(log + seg) == Depth(log)
  {
    DisciplinedDepth(0, log);
    RoundDisciplined(Depth(log), seg);
    DisciplineAppend(0, log, seg);
  }

  /**
   * The parts of `iDescriptorDevice` the gateway reads: whether the
   * mutex exists, whether the AFC client is set (the only liveness test
   * there is), the lock counter and the log.
   */
  class Device {
    var hasMutex: bool
    var afcClient: bool
    var lockDepth: nat
    var log: seq<Event>

    ghost predicate Valid()
      reads this
    {
      Disciplined(log) && lockDepth == Depth(log)
    }

    constructor (hasMutex: bool, afcClient: bool)
      ensures Valid() && this.hasMutex == hasMutex && this.afcClient == afcClient
      ensures lockDepth == 0 && log == []
    {
      this.hasMutex := hasMutex;
      this.afcClient := afcClient;
      lockDepth := 0;
      log := [];
    }
  }

  /**
   * The gateway's observable effect on a present device: nothing when
   * the mutex is missing; lock and unlock when the client is gone; lock,
   * exactly one invocation of `call`, unlock otherwise.
   */
  ghost predicate Passed(device: Device, before: seq<Event>, call: AfcCall)
    reads device
  {
    (!device.hasMutex ==> device.log == before) &&
    (device.hasMutex && !device.afcClient ==> device.log == before + [Acquire, Release]) &&
    (device.hasMutex && device.afcClient ==> device.log == before + [Acquire, Invoke(call), Release])
  }

  /** The device is left as valid, with the same flags and the lock back at its start. */
  ghost predicate Settled(device: Device, mutex: bool, client: bool, depth: nat)
    reads device
  {
    device.Valid() && device.hasMutex == mutex && device.afcClient == client && device.lockDepth == depth
  }

  /**
   * `executeOperation<T>`, with the failure value explicit: the first
   * overload passes `T{}`, the second the caller's `failureValue`, and
   * the `void` overload is the instance with `T = ()`. `result` is what
   * the operation returns when it is run.
   */
  method ExecuteOperation<T>(device: Device?, failureValue: T, call: AfcCall, result: T) returns (r: T)
    requires device != null ==> device.Valid()
    modifies device
    ensures device == null ==> r == failureValue
    ensures device != null ==> Settled(device, old(device.hasMutex), old(device.afcClient), old(device.lockDepth))
    ensures device != null ==> Passed(device, old(device.log), call)
    ensures device != null && device.hasMutex && device.afcClient ==> r == result
    ensures device != null && !(device.hasMutex && device.afcClient) ==> r == failureValue
  {
    if device == null || !device.hasMutex {
      return failureValue;
    }
    ghost var before := device.log;
    ghost var seg: seq<Event>;
    device.lockDepth := device.lockDepth + 1;
    device.log := device.log + [Acquire];
    if !device.afcClient {
      r := failureValue;
      seg := [Acquire, Release];
    } else {
      r := result;
      device.log := device.log + [Invoke(call)];
      seg := [Acquire, Invoke(call), Release];
    }
    device.lockDepth := device.lockDepth - 1;
    device.log := device.log + [Release];
    assert device.log == before + seg;
    RoundKeepsDiscipline(before, seg);
  }

  /**
   * `executeAfcOperation`: the same guard, with `AFC_E_UNKNOWN_ERROR` as
   * the failure value, and an exception escaping the operation also
   * turned into `AFC_E_UNKNOWN_ERROR`.
   */
  method ExecuteAfcOperation(device: Device?, call: AfcCall, outcome: AfcOutcome) returns (code: int, out: AfcOut)
    requires device != null ==> device.Valid()
    modifies device
    ensures device == null ==> code == AFC_E_UNKNOWN_ERROR && out == NoOutput
    ensures device != null ==> Settled(device, old(device.hasMutex), old(device.afcClient), old(device.lockDepth))
    ensures device != null ==> Passed(device, old(device.log), call)
    ensures device != null ==> Answered(device, outcome, code, out)
  {
    var o := ExecuteOperation(device, Threw, call, outcome);
    match o
    case Returned(c, v) =>
      code, out := c, v;
    case Threw =>
      code, out := AFC_E_UNKNOWN_ERROR, NoOutput;
  }

  /** What an AFC wrapper returns: the device's answer when it was asked, else the unknown error. */
  ghost predicate Answered(device: Device, outcome: AfcOutcome, code: int, out: AfcOut)
    reads device
  {
    if device.hasMutex && device.afcClient && outcome.Returned? then
      code == outcome.code && out == outcome.out
    else
      code == AFC_E_UNKNOWN_ERROR && out == NoOutput
  }

  /** Forwards one AFC call through the gateway, asking the device `afc` only if the guard lets it. */
  method SafeAfc(device: Device?, call: AfcCall, afc: AfcCall -> AfcOutcome) returns (code: int, out: AfcOut)
    requires device != null ==> device.Valid()
    modifies device
    ensures device == null ==> code == AFC_E_UNKNOWN_ERROR && out == NoOutput
    ensures device != null ==> Settled(device, old(device.hasMutex), old(device.afcClient), old(device.lockDepth))
    ensures device != null ==> Passed(device, old(device.log), call)
    ensures device != null ==> Answered(device, afc(call), code, out)
  {
    code, out := ExecuteAfcOperation(device, call, afc(call));
  }

  method SafeAfcReadDirectory(device: Device?, path: string, afc: AfcCall -> AfcOutcome) returns (code: int, out: AfcOut)
    requires device != null ==> device.Valid()
    modifies device
    ensures device == null ==> code == AFC_E_UNKNOWN_ERROR && out == NoOutput
    ensures device != null ==> Settled(device, old(device.hasMutex), old(device.afcClient), old(device.lockDepth))
    ensures device != null ==> Passed(device, old(device.log), ReadDirectory(path))
    ensures device != null ==> Answered(device, afc(ReadDirectory(path)), code, out)
  {
    code, out := SafeAfc(device, ReadDirectory(path), afc);
  }

  method SafeAfcGetFileInfo(device: Device?, path: string, afc: AfcCall -> AfcOutcome) returns (code: int, out: AfcOut)
    requires device != null ==> device.Valid()
    modifies device
    ensures device == null ==> code == AFC_E_UNKNOWN_ERROR && out == NoOutput
    ensures device != null ==> Settled(device, old(device.hasMutex), old(device.afcClient), old(device.lockDepth))
    ensures device != null ==> Passed(device, old(device.log), GetFileInfo(path))
    ensures device != null ==> Answered(device, afc(GetFileInfo(path)), code, out)
  {
    code, out := SafeAfc(device, GetFileInfo(path), afc);
  }

  method SafeAfcFileOpen(device: Device?, path: string, mode: nat, afc: AfcCall -> AfcOutcome) returns (code: int, out: AfcOut)
    requires device != null ==> device.Valid()
    modifies device
    ensures device == null ==> code == AFC_E_UNKNOWN_ERROR && out == NoOutput
    ensures device != null ==> Settled(device, old(device.hasMutex), old(device.afcClient), old(device.lockDepth))
    ensures device != null ==> Passed(device, old(device.log), FileOpen(path, mode))
    ensures device != null ==> Answered(device, afc(FileOpen(path, mode)), code, out)
  {
    code, out := SafeAfc(device, FileOpen(path, mode), afc);
  }

  method SafeAfcFileRead(device: Device?, handle: nat, length: nat, afc: AfcCall -> AfcOutcome) returns (code: int, out: AfcOut)
    requires device != null ==> device.Valid()
    modifies device
    ensures device == null ==> code == AFC_E_UNKNOWN_ERROR && out == NoOutput
    ensures device != null ==> Settled(device, old(device.hasMutex), old(device.afcClient), old(device.lockDepth))
    ensures device != null ==> Passed(device, old(device.log), FileRead(handle, length))
    ensures device != null ==> Answered(device, afc(FileRead(handle, length)), code, out)
  {
    code, out := SafeAfc(device, FileRead(handle, length), afc);
  }

  method SafeAfcFileWrite(device: Device?, handle: nat, data: seq<byte>, afc: AfcCall -> AfcOutcome) returns (code: int, out: AfcOut)
    requires device != null ==> device.Valid()
    modifies device
    ensures device == null ==> code == AFC_E_UNKNOWN_ERROR && out == NoOutput
    ensures device != null ==> Settled(device, old(device.hasMutex), old(device.afcClient), old(device.lockDepth))
    ensures device != null ==> Passed(device, old(device.log), FileWrite(handle, data))
    ensures device != null ==> Answered(device, afc(FileWrite(handle, data)), code, out)
  {
    code, out := SafeAfc(device, FileWrite(handle, data), afc);
  }

  method SafeAfcFileClose(device: Device?, handle: nat, afc: AfcCall -> AfcOutcome) returns (code: int, out: AfcOut)
    requires device != null ==> device.Valid()
    modifies device
    ensures device == null ==> code == AFC_E_UNKNOWN_ERROR && out == NoOutput
    ensures device != null ==> Settled(device, old(device.hasMutex), old(device.afcClient), old(device.lockDepth))
    ensures device != null ==> Passed(device, old(device.log), FileClose(handle))
    ensures device != null ==> Answered(device, afc(FileClose(handle)), code, out)
  {
    code, out := SafeAfc(device, FileClose(handle), afc);
  }

  method SafeAfcFileSeek(device: Device?, handle: nat, offset: int, whence: int, afc: AfcCall -> AfcOutcome) returns (code: int, out: AfcOut)
    requires device != null ==> device.Valid()
    modifies device
    ensures device == null ==> code == AFC_E_UNKNOWN_ERROR && out == NoOutput
    ensures device != null ==> Settled(device, old(device.hasMutex), old(device.afcClient), old(device.lockDepth))
    ensures device != null ==> Passed(device, old(device.log), FileSeek(handle, offset, whence))
    ensures device != null ==> Answered(device, afc(FileSeek(handle, offset, whence)), code, out)
  {
    code, out := SafeAfc(device, FileSeek(handle, offset, whence), afc);
  }

  /** `safeReadAfcFileToByteArray`: an empty byte array when the gateway refuses. */
  method SafeReadAfcFileToByteArray(device: Device?, path: string, contents: seq<byte>) returns (r: seq<byte>)
    requires device != null ==> device.Valid()
    modifies device
    ensures device != null ==> Settled(device, old(device.hasMutex), old(device.afcClient), old(device.lockDepth))
    ensures device != null ==> Passed(device, old(device.log), ReadFileToBytes(path))
    ensures if device != null && device.hasMutex && device.afcClient then r == contents else r == []
  {
    r := ExecuteOperation(device, [], ReadFileToBytes(path), contents);
  }

  /** `safeGetFileTree`: the value-initialised tree (no entries, not successful) when the gateway refuses. */
  method SafeGetFileTree(device: Device?, path: string, tree: FileTree) returns (r: FileTree)
    requires device != null ==> device.Valid()
    modifies device
    ensures device != null ==> Settled(device, old(device.hasMutex), old(device.afcClient), old(device.lockDepth))
    ensures device != null ==> Passed(device, old(device.log), GetFileTree(path))
    ensures if device != null && device.hasMutex && device.afcClient then r == tree
            else r == EmptyTree && !r.success && r.entries == []
  {
    r := ExecuteOperation(device, EmptyTree, GetFileTree(path), tree);
  }
}
