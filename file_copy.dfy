/**
 * The chunked device-to-local copy loop both export engines run: check
 * the cancel flag, read up to one buffer from the device, stop on a read
 * error or an empty read, write what was read, stop on a short write.
 * The device's read answers and the local file's write counts are given
 * as sequences; a sequence that runs out stands for a failed call.
 */
module FileCopy {
  import opened Wrappers
  import opened Bytes
  import opened Afc
  import opened Text

  /** One answer to `afc_file_read`: the error code and the bytes delivered. */
  datatype ReadReply = ReadReply(code: int, data: seq<byte>)

  /** How the copy loop ended. */
  datatype CopyEnd =
    | Cancelled
    | ShortWrite(written: int, read: nat)
    | Drained

  /** The `j`-th read answer; past the end, a failed read. */
  function ReadAt(replies: seq<ReadReply>, j: nat): ReadReply {
    if j < |replies| then replies[j] else ReadReply(AFC_E_UNKNOWN_ERROR, [])
  }

  /** What the `j`-th local write reports; past the end, -1 (`QFile::write` failing). */
  function WrittenAt(writes: seq<int>, j: nat): int {
    if j < |writes| then writes[j] else -1
  }

  /** A read that keeps the loop going: it succeeded and delivered at least one byte. */
  predicate Delivers(reply: ReadReply) {
    reply.code == AFC_E_SUCCESS && |reply.data| > 0
  }

  /**
   * The copy loop from its `j`-th round on: how it ends, and the chunks
   * written to the local file in full, in order. Cancel checks are
   * counted from 0; `cancelAt` names the first one that sees the flag.
   */
  function CopyFrom(replies: seq<ReadReply>, writes: seq<int>, cancelAt: Option<nat>, j: nat): (r: (CopyEnd, seq<seq<byte>>))
    requires j <= |replies|
    decreases |replies| - j
    ensures j + |r.1| <= |replies|
  {
    var reply := ReadAt(replies, j);
    if cancelAt == Some(j) then (Cancelled, [])
    else if !Delivers(reply) then (Drained, [])
    else if WrittenAt(writes, j) != |reply.data| then (ShortWrite(WrittenAt(writes, j), |reply.data|), [])
    else
      var rest := CopyFrom(replies, writes, cancelAt, j + 1);
      (rest.0, [reply.data] + rest.1)
  }

  /**
   * What the copy loop guarantees: the chunks written are exactly the
   * delivered, fully written reads in order, none after the flag was
   * seen; the loop stops at the first cancel, short write, failed read
   * or empty read, whichever comes first.
   */
  lemma {:induction false} CopyFromShape(replies: seq<ReadReply>, writes: seq<int>, cancelAt: Option<nat>, j: nat)
    requires j <= |replies|
    decreases |replies| - j
    ensures var r := CopyFrom(replies, writes, cancelAt, j);
      (forall i :: j <= i < j + |r.1| ==>
        Delivers(replies[i]) && r.1[i - j] == replies[i].data && WrittenAt(writes, i) == |replies[i].data| &&
        cancelAt != Some(i)) &&
      (r.0.Cancelled? <==> cancelAt == Some(j + |r.1|)) &&
      (r.0.ShortWrite? ==> (
        var reply := ReadAt(replies, j + |r.1|);
        Delivers(reply) && r.0.read == |reply.data| &&
        r.0.written == WrittenAt(writes, j + |r.1|) && r.0.written != r.0.read)) &&
      (r.0.Drained? ==> !Delivers(ReadAt(replies, j + |r.1|)))
  {
    var reply := ReadAt(replies, j);
    if cancelAt != Some(j) && Delivers(reply) && WrittenAt(writes, j) == |reply.data| {
      CopyFromShape(replies, writes, cancelAt, j + 1);
    }
  }

  /** Each chunk fits the buffer, so the total is at most one buffer per chunk. */
  lemma {:induction false} ChunksFitBuffer(chunks: seq<seq<byte>>, bufferSize: nat)
    requires forall k :: 0 <= k < |chunks| ==> |chunks[k]| <= bufferSize
    ensures TotalLength(chunks) <= bufferSize * |chunks|
  {
    if |chunks| > 0 {
      ChunksFitBuffer(chunks[..|chunks| - 1], bufferSize);
    }
  }

  lemma TotalLengthSnoc(chunks: seq<seq<byte>>, c: seq<byte>)
    ensures TotalLength(chunks + [c]) == TotalLength(chunks) + |c|
    ensures Concat(chunks + [c]) == Concat(chunks) + c
  {
    assert (chunks + [c])[..|chunks|] == chunks;
  }

  /** One round of the loop: a delivered, fully written chunk is followed by the rest of the copy. */
  lemma CopyStep(replies: seq<ReadReply>, writes: seq<int>, cancelAt: Option<nat>, j: nat)
    requires j < |replies| && cancelAt != Some(j) && Delivers(replies[j])
    requires WrittenAt(writes, j) == |replies[j].data|
    ensures CopyFrom(replies, writes, cancelAt, j) ==
      (CopyFrom(replies, writes, cancelAt, j + 1).0, [replies[j].data] + CopyFrom(replies, writes, cancelAt, j + 1).1)
  {
  }

  /** A round that stops the loop: nothing more is written, and the end says why. */
  lemma CopyStop(replies: seq<ReadReply>, writes: seq<int>, cancelAt: Option<nat>, j: nat, end: CopyEnd)
    requires j <= |replies|
    requires end == (if cancelAt == Some(j) then Cancelled
      else if !Delivers(ReadAt(replies, j)) then Drained
      else ShortWrite(WrittenAt(writes, j), |ReadAt(replies, j).data|))
    requires end.ShortWrite? ==> end.written != end.read
    ensures CopyFrom(replies, writes, cancelAt, j) == (end, [])
  {
  }

  /**
   * The loop itself, reading `bufferSize` bytes at a time. `requested`
   * counts the read calls made, `total` the bytes written (`totalBytes`).
   */
  method CopyChunks(bufferSize: nat, replies: seq<ReadReply>, writes: seq<int>, cancelAt: Option<nat>)
    returns (end: CopyEnd, chunks: seq<seq<byte>>, total: nat, requested: nat)
    requires forall j :: 0 <= j < |replies| ==> |replies[j].data| <= bufferSize
    ensures (end, chunks) == CopyFrom(replies, writes, cancelAt, 0)
    ensures total == TotalLength(chunks) <= bufferSize * |chunks|
    ensures requested == if end.Cancelled? then |chunks| else |chunks| + 1
  {
    ghost var whole := CopyFrom(replies, writes, cancelAt, 0);
    var j := 0;
    chunks := [];
    total := 0;
    requested := 0;
    assert [] + whole.1 == whole.1;
    while true
      invariant j == |chunks| == requested <= |replies|
      invariant whole == (CopyFrom(replies, writes, cancelAt, j).0, chunks + CopyFrom(replies, writes, cancelAt, j).1)
      invariant total == TotalLength(chunks)
      invariant forall k :: 0 <= k < |chunks| ==> |chunks[k]| <= bufferSize
      decreases |replies| - j
    {
      if cancelAt == Some(j) {
        end := Cancelled;
        break;
      }
      var reply := ReadAt(replies, j);
      requested := requested + 1;
      if reply.code != AFC_E_SUCCESS || |reply.data| == 0 {
        end := Drained;
        assert requested == |chunks| + 1;
        break;
      }
      var written := WrittenAt(writes, j);
      if written != |reply.data| {
        end := ShortWrite(written, |reply.data|);
        assert requested == |chunks| + 1;
        break;
      }
      TotalLengthSnoc(chunks, reply.data);
      CopyStep(replies, writes, cancelAt, j);
      ghost var rest := CopyFrom(replies, writes, cancelAt, j + 1).1;
      assert chunks + ([reply.data] + rest) == (chunks + [reply.data]) + rest;
      total := total + |reply.data|;
      chunks := chunks + [reply.data];
      j := j + 1;
    }
    CopyStop(replies, writes, cancelAt, j, end);
    assert chunks + [] == chunks;
    ChunksFitBuffer(chunks, bufferSize);
    assert requested == if end.Cancelled? then |chunks| else |chunks| + 1;
  }

  // ---------------------------------------------------------------------
  // Messages both export engines put in a failed result

  const NoDataRead := "No data read from device file"

  function OpenFailureMessage(devicePath: string, code: int): string {
    "Failed to open file on device: " + devicePath + " (AFC error: " + IntToString(code) + ")"
  }

  function CreateFailureMessage(outputPath: string, reason: string): string {
    "Failed to create local file: " + outputPath + " (" + reason + ")"
  }

  function WriteErrorMessage(written: int, read: nat): string {
    "Write error: only wrote " + IntToString(written) + " of " + NatToString(read) + " bytes"
  }
}
