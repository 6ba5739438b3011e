/**
 * The Apple File Conduit (AFC) client as the core sees it: a set of
 * calls, each answered by the device. The device itself is outside the
 * model; every answer is supplied by the caller as an oracle.
 */
module Afc {
  import opened Wrappers
  import opened Bytes

  /** `afc_error_t` codes the core distinguishes. */
  const AFC_E_SUCCESS: int := 0
  const AFC_E_UNKNOWN_ERROR: int := 1

  /** `afc_file_mode_t` values used by the core. */
  const AFC_FOPEN_RDONLY: nat := 1
  const AFC_FOPEN_WRONLY: nat := 3

  /** One AFC request together with the arguments it is sent with. */
  datatype AfcCall =
    | ReadDirectory(path: string)
    | GetFileInfo(path: string)
    | GetFileInfoPlist(path: string)
    | FileOpen(path: string, mode: nat)
    | FileRead(handle: nat, length: nat)
    | FileWrite(handle: nat, data: seq<byte>)
    | FileClose(handle: nat)
    | FileSeek(handle: nat, offset: int, whence: int)
    | ReadFileToBytes(path: string)
    | GetFileTree(path: string)

  /** What an AFC call leaves in its out-parameters. */
  datatype AfcOut =
    | NoOutput
    | Names(names: seq<string>)
    | Info(pairs: seq<(string, string)>)
    | Handle(handle: nat)
    | Data(data: seq<byte>)
    | Count(count: nat)

  /** The device's answer to one call, or an exception escaping the call. */
  datatype AfcOutcome =
    | Returned(code: int, out: AfcOut)
    | Threw

  /** One listing entry of a directory (`MediaEntry`). */
  datatype MediaEntry = MediaEntry(name: string, isDir: bool)

  /** `AFCFileTree`; the value-initialised one is `EmptyTree`. */
  datatype FileTree = FileTree(entries: seq<MediaEntry>, success: bool, currentPath: string)

  const EmptyTree: FileTree := FileTree([], false, "")

  /** The listing a `ReadDirectory` answer carries, if the call succeeded. */
  function Listing(o: AfcOutcome): Option<seq<string>> {
    if o.Returned? && o.code == AFC_E_SUCCESS && o.out.Names? then Some(o.out.names) else None
  }

  /** The key/value pairs a `GetFileInfo` answer carries, if the call succeeded with a list. */
  function InfoPairs(o: AfcOutcome): Option<seq<(string, string)>> {
    if o.Returned? && o.code == AFC_E_SUCCESS && o.out.Info? then Some(o.out.pairs) else None
  }

  /** Position of the first pair whose key is `key`. */
  function FirstKeyIndex(info: seq<(string, string)>, key: string): (r: Option<nat>)
    ensures r.None? <==> forall i :: 0 <= i < |info| ==> info[i].0 != key
    ensures r.Some? ==> r.value < |info| && info[r.value].0 == key
    ensures r.Some? ==> forall j :: 0 <= j < r.value ==> info[j].0 != key
  {
    if |info| == 0 then None
    else if info[0].0 == key then Some(0)
    else
      match FirstKeyIndex(info[1..], key)
      case None => None
      case Some(k) => Some(k + 1)
  }

  /** The value paired with the first occurrence of `key`. */
  function FirstValue(info: seq<(string, string)>, key: string): Option<string> {
    match FirstKeyIndex(info, key)
    case None => None
    case Some(k) => Some(info[k].1)
  }

  /**
   * The scan over an AFC key/value list that steps two entries at a time
   * and stops at the first key equal to `key`: that key's value.
   */
  method FindInfoValue(info: seq<(string, string)>, key: string) returns (v: Option<string>)
    ensures v == FirstValue(info, key)
  {
    var i := 0;
    while i < |info|
      invariant 0 <= i <= |info|
      invariant forall j :: 0 <= j < i ==> info[j].0 != key
    {
      if info[i].0 == key {
        assert FirstKeyIndex(info, key) == Some(i);
        return Some(info[i].1);
      }
      i := i + 1;
    }
    return None;
  }
}
