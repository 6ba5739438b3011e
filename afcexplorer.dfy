/**
 * `AfcExplorerWidget`: a file browser over a device's AFC service with
 * back/forward history, an address bar, and single-file export to and
 * import from the local disk. Directory listings, dialogs and message
 * boxes are left to the user interface; the device's and the local
 * file's answers are parameters.
 */
module AfcExplorer {
  import opened Wrappers
  import opened Bytes
  import opened Text
  import opened Afc
  import opened Paths
  import opened FileCopy

  // ---------------------------------------------------------------------
  // Paths

  /** A directory path with one '/' appended unless it already ends in one. */
  function WithTrailingSlash(dir: string): (r: string)
    ensures EndsWith(r, "/")
    ensures dir <= r && |r| <= |dir| + 1
  {
    if EndsWith(dir, "/") then dir else dir + "/"
  }

  /** An entry of the directory `dir`, as double-click, export and import address it. */
  function ChildPathOf(dir: string, name: string): (r: string)
  {
    WithTrailingSlash(dir) + name
  }

  /**
   * The entry's path is the directory, then a '/' unless the directory
   * already ends in one, then the name.
   */
  lemma ChildPathShape(dir: string, name: string)
    ensures dir <= ChildPathOf(dir, name)
    ensures EndsWith(dir, "/") ==> ChildPathOf(dir, name) == dir + name
    ensures !EndsWith(dir, "/") ==> ChildPathOf(dir, name) == dir + "/" + name
    ensures ChildPathOf(dir, name)[|WithTrailingSlash(dir)| - 1] == '/'
    ensures ChildPathOf(dir, name)[|WithTrailingSlash(dir)|..] == name
  {
    var d := WithTrailingSlash(dir);
    assert d[|d| - 1..] == "/";
    assert (d + name)[..|d|] == d;
    assert !EndsWith(dir, "/") ==> dir + "/" + name == dir + ("/" + name);
  }

  /** Positions `i` and `i + 1` both hold '/'. */
  predicate SlashPairAt(s: string, i: nat)
    requires i + 1 < |s|
  {
    s[i] == '/' && s[i + 1] == '/'
  }

  /** The text has no two '/' in a row. */
  predicate NoDoubleSlash(s: string) {
    forall i :: 0 <= i < |s| - 1 ==> !SlashPairAt(s, i)
  }

  /** `replace(QRegularExpression("/+"), "/")`: every run of '/' becomes one. */
  function CollapseSlashes(s: string): (r: string)
    ensures |r| <= |s|
    ensures |s| > 0 ==> |r| > 0 && r[0] == s[0] && r[|r| - 1] == s[|s| - 1]
  {
    if |s| <= 1 then s
    else if s[0] == '/' && s[1] == '/' then CollapseSlashes(s[1..])
    else [s[0]] + CollapseSlashes(s[1..])
  }

  /** The text with every '/' taken out. */
  function WithoutSlashes(s: string): (r: string)
    ensures '/' !in r
  {
    if |s| == 0 then [] else (if s[0] == '/' then [] else [s[0]]) + WithoutSlashes(s[1..])
  }

  /** Collapsing leaves no two '/' in a row. */
  lemma {:induction false} CollapseNoDouble(s: string)
    ensures NoDoubleSlash(CollapseSlashes(s))
  {
    if |s| > 1 {
      CollapseNoDouble(s[1..]);
      if !(s[0] == '/' && s[1] == '/') {
        var ct := CollapseSlashes(s[1..]);
        var r := [s[0]] + ct;
        forall i | 0 <= i < |r| - 1
          ensures !SlashPairAt(r, i)
        {
          if i > 0 {
            assert r[i] == ct[i - 1] && r[i + 1] == ct[i];
            assert !SlashPairAt(ct, i - 1);
          }
        }
      }
    }
  }

  /** Collapsing only drops '/'s: everything else stays, in order. */
  lemma {:induction false} CollapseKeepsText(s: string)
    ensures WithoutSlashes(CollapseSlashes(s)) == WithoutSlashes(s)
  {
    if |s| > 1 {
      CollapseKeepsText(s[1..]);
      if !(s[0] == '/' && s[1] == '/') {
        assert ([s[0]] + CollapseSlashes(s[1..]))[1..] == CollapseSlashes(s[1..]);
      }
    }
  }

  /** Text with no doubled '/' is left as it is. */
  lemma {:induction false} CollapseClean(s: string)
    requires NoDoubleSlash(s)
    ensures CollapseSlashes(s) == s
  {
    if |s| > 1 {
      assert !SlashPairAt(s, 0);
      var t := s[1..];
      assert NoDoubleSlash(t) by {
        forall i | 0 <= i < |t| - 1
          ensures !SlashPairAt(t, i)
        {
          assert t[i] == s[i + 1] && t[i + 1] == s[i + 2];
          assert !SlashPairAt(s, i + 1);
        }
      }
      CollapseClean(t);
      assert s == [s[0]] + t;
    }
  }

  /** The trimmed address made absolute: "/" when empty, a leading '/' added when missing. */
  function RootedAddress(t: string): (q: string)
    ensures |q| > 0 && q[0] == '/'
    ensures q[|q| - 1] == (if t == "" then '/' else t[|t| - 1])
  {
    var p := if t == "" then "/" else t;
    if StartsWith(p, "/") then p else "/" + p
  }

  /** Making the address absolute adds at most a '/'. */
  lemma RootedKeepsText(t: string)
    ensures WithoutSlashes(RootedAddress(t)) == WithoutSlashes(t)
  {
    var q := RootedAddress(t);
    if t == "" {
      assert WithoutSlashes(q) == [] + WithoutSlashes(q[1..]);
    } else if !StartsWith(t, "/") {
      assert q[1..] == t;
    }
  }

  /**
   * The address-bar path: trimmed, "/" when empty, a leading '/' added
   * when missing, and runs of '/' collapsed.
   */
  function NormalizeAddress(text: string): (r: string)
  {
    CollapseSlashes(RootedAddress(Trim(text)))
  }

  /**
   * A normalised address starts with '/', holds no "//", and keeps the
   * typed text apart from its '/'s.
   */
  lemma NormalizeAddressShape(text: string)
    ensures var r := NormalizeAddress(text);
      |r| > 0 && r[0] == '/' && NoDoubleSlash(r) &&
      WithoutSlashes(r) == WithoutSlashes(Trim(text))
  {
    var q := RootedAddress(Trim(text));
    CollapseNoDouble(q);
    CollapseKeepsText(q);
    RootedKeepsText(Trim(text));
  }

  /** An absolute address with no "//" and no whitespace at its end is already normal. */
  lemma CleanAddressFixed(r: string)
    requires |r| > 0 && r[0] == '/' && NoDoubleSlash(r) && !IsSpace(r[|r| - 1])
    ensures NormalizeAddress(r) == r
  {
    TrimIdentity(r);
    assert Trim(r) == r;
    assert StartsWith(r, "/") by {
      assert r[..1] == "/";
    }
    assert RootedAddress(r) == r;
    CollapseClean(r);
  }

  /** Normalising a normalised address changes nothing. */
  lemma NormalizeAddressIdempotent(text: string)
    ensures NormalizeAddress(NormalizeAddress(text)) == NormalizeAddress(text)
  {
    var t := Trim(text);
    var q := RootedAddress(t);
    var r := CollapseSlashes(q);
    assert r == NormalizeAddress(text);
    CollapseNoDouble(q);
    assert r[|r| - 1] == q[|q| - 1];
    CleanAddressFixed(r);
  }

  /** `exportSelectedFile`: the device path of the selected entry, and where it is saved. */
  function ExportTargets(currentDir: string, directory: string, fileName: string): (r: (string, string))
    ensures r.0 == ChildPathOf(currentDir, fileName)
    ensures r.1 == directory + "/" + fileName
  {
    (ChildPathOf(currentDir, fileName), directory + "/" + fileName)
  }

  /** `onImportClicked`: a local file lands under its own name in the directory shown. */
  function ImportTarget(currentDir: string, localPath: string): (r: string)
    ensures r == WithTrailingSlash(currentDir) + FileNameOf(localPath)
    ensures '/' !in r[|WithTrailingSlash(currentDir)|..]
  {
    FileNameOfHasNoSlash(localPath);
    ChildPathOf(currentDir, FileNameOf(localPath))
  }

  // ---------------------------------------------------------------------
  // Navigation

  class AfcExplorer {
    /** `m_history`, a stack whose top (the last element) is the directory shown. */
    var history: seq<string>
    /** `m_forwardHistory`, a stack whose top is the last element. */
    var forward: seq<string>
    /** The path last handed to `loadPath` (the address bar's text). */
    var shown: string

    ghost predicate Valid()
      reads this
    {
      |history| >= 1 && shown == history[|history| - 1]
    }

    /** A new explorer shows the root with no history around it. */
    constructor()
      ensures Valid()
      ensures history == ["/"] && forward == [] && shown == "/"
    {
      history := ["/"];
      forward := [];
      shown := "/";
    }

    /** The directory shown. */
    function Current(): (r: string)
      reads this
      requires Valid()
      ensures r == shown
    {
      history[|history| - 1]
    }

    /** `goBack`: with somewhere to go back to, the shown path moves onto the forward stack. */
    method GoBack()
      requires Valid()
      modifies this
      ensures Valid()
      ensures |old(history)| > 1 ==>
        history == old(history)[..|old(history)| - 1] && forward == old(forward) + [old(history)[|old(history)| - 1]]
      ensures |old(history)| <= 1 ==> history == old(history) && forward == old(forward) && shown == old(shown)
    {
      if |history| > 1 {
        var currentPath := history[|history| - 1];
        history := history[..|history| - 1];
        forward := forward + [currentPath];
        shown := history[|history| - 1];
      }
    }

    /** `goForward`: the top of the forward stack is shown again. */
    method GoForward()
      requires Valid()
      modifies this
      ensures Valid()
      ensures |old(forward)| > 0 ==>
        forward == old(forward)[..|old(forward)| - 1] && history == old(history) + [old(forward)[|old(forward)| - 1]]
      ensures |old(forward)| == 0 ==> history == old(history) && forward == old(forward) && shown == old(shown)
    {
      if |forward| > 0 {
        var forwardPath := forward[|forward| - 1];
        forward := forward[..|forward| - 1];
        history := history + [forwardPath];
        shown := forwardPath;
      }
    }

    /** Going back and then forward again restores both stacks and the path shown. */
    method BackThenForward()
      requires Valid() && |history| > 1
      modifies this
      ensures history == old(history) && forward == old(forward) && shown == old(shown)
    {
      GoBack();
      GoForward();
    }

    /** Opening a directory entry (double-click): forward history is dropped and the entry shown. */
    method OpenDirectory(name: string)
      requires Valid()
      modifies this
      ensures Valid()
      ensures forward == [] && history == old(history) + [ChildPathOf(old(shown), name)]
    {
      var nextPath := ChildPathOf(history[|history| - 1], name);
      forward := [];
      history := history + [nextPath];
      shown := nextPath;
    }

    /** `onAddressBarReturnPressed`: the normalised address is shown and forward history dropped. */
    method SubmitAddress(text: string)
      requires Valid()
      modifies this
      ensures Valid()
      ensures forward == [] && history == old(history) + [NormalizeAddress(text)]
    {
      var path := NormalizeAddress(text);
      forward := [];
      history := history + [path];
      shown := path;
    }

    /** `updateNavigationButtons`: the back button is enabled iff there is somewhere to go back to. */
    function BackEnabled(): (r: bool)
      reads this
      ensures r <==> |history| > 1
    {
      |history| > 1
    }

    /** `updateNavigationButtons`: the forward button is enabled iff the forward stack is not empty. */
    function ForwardEnabled(): (r: bool)
      reads this
      ensures r <==> forward != []
    {
      |forward| > 0
    }
  }

  // ---------------------------------------------------------------------
  // export_file_to_path

  /** The bytes the export loop writes from read `j` on: every delivered read, up to the first that is not. */
  function Drain(replies: seq<ReadReply>, j: nat): seq<byte>
    decreases |replies| - j
  {
    if j < |replies| && Delivers(replies[j]) then replies[j].data + Drain(replies, j + 1) else []
  }

  /** Reads after the first failed or empty one are never made: they do not change what is written. */
  lemma {:induction false} DrainStops(replies: seq<ReadReply>, extra: seq<ReadReply>, j: nat)
    requires j < |replies| && !Delivers(replies[|replies| - 1])
    decreases |replies| - j
    ensures Drain(replies + extra, j) == Drain(replies, j)
  {
    assert (replies + extra)[j] == replies[j];
    if Delivers(replies[j]) {
      DrainStops(replies, extra, j + 1);
    }
  }

  /**
   * `export_file_to_path`: -1 when the device file or the local file
   * cannot be opened; otherwise every delivered chunk is written
   * (`fwrite`'s result is not looked at) until a read fails or returns
   * nothing, and the result is 0. The device handle is closed whenever
   * it was opened.
   */
  method ExportFileToPath(openCode: int, localOpens: bool, replies: seq<ReadReply>)
    returns (result: int, written: seq<byte>, deviceClosed: bool)
    ensures result == -1 <==> openCode != AFC_E_SUCCESS || !localOpens
    ensures result == 0 || result == -1
    ensures result == 0 ==> written == Drain(replies, 0)
    ensures result == -1 ==> written == []
    ensures deviceClosed <==> openCode == AFC_E_SUCCESS
  {
    written := [];
    deviceClosed := false;
    if openCode != AFC_E_SUCCESS {
      return -1, written, deviceClosed;
    }
    if !localOpens {
      deviceClosed := true;
      return -1, written, deviceClosed;
    }
    var j := 0;
    while j < |replies| && replies[j].code == AFC_E_SUCCESS && |replies[j].data| > 0
      invariant j <= |replies|
      invariant written + Drain(replies, j) == Drain(replies, 0)
      decreases |replies| - j
    {
      assert Drain(replies, j) == replies[j].data + Drain(replies, j + 1);
      assert written + (replies[j].data + Drain(replies, j + 1)) == (written + replies[j].data) + Drain(replies, j + 1);
      written := written + replies[j].data;
      j := j + 1;
    }
    assert written + [] == written;
    deviceClosed := true;
    result := 0;
  }

  // ---------------------------------------------------------------------
  // import_file_to_device

  /** Bytes per local read. */
  const ImportChunk: nat := 4096

  /** The pieces `QFile::read(buffer, 4096)` returns for a file's contents, in order. */
  function Chunks(content: seq<byte>): (r: seq<seq<byte>>)
    ensures forall j :: 0 <= j < |r| ==> 0 < |r[j]| <= ImportChunk
    decreases |content|
  {
    if |content| == 0 then []
    else
      var n := if |content| < ImportChunk then |content| else ImportChunk;
      [content[..n]] + Chunks(content[n..])
  }

  /** The next piece the loop reads at `pos`, and what is left of the file after it. */
  lemma ChunksStep(content: seq<byte>, pos: nat, n: nat)
    requires pos < |content| && n == (if |content| - pos < ImportChunk then |content| - pos else ImportChunk)
    ensures Chunks(content[pos..]) == [content[pos..pos + n]] + Chunks(content[pos + n..])
  {
    assert content[pos..][..n] == content[pos..pos + n];
    assert content[pos..][n..] == content[pos + n..];
  }

  /** Laid end to end, the pieces are the file. */
  lemma {:induction false} ChunksConcat(content: seq<byte>)
    decreases |content|
    ensures ConcatFront(Chunks(content)) == content
  {
    if |content| > 0 {
      var n := if |content| < ImportChunk then |content| else ImportChunk;
      ChunksConcat(content[n..]);
      assert content == content[..n] + content[n..];
    }
  }

  /** The pieces laid end to end, first piece first. */
  function ConcatFront(chunks: seq<seq<byte>>): seq<byte> {
    if |chunks| == 0 then [] else chunks[0] + ConcatFront(chunks[1..])
  }

  /** One answer to `afc_file_write`: the error code and the byte count reported. */
  datatype WriteReply = WriteReply(code: int, written: nat)

  /** The `j`-th write answer; past the end, a failed write. */
  function WriteAt(writes: seq<WriteReply>, j: nat): WriteReply {
    if j < |writes| then writes[j] else WriteReply(AFC_E_UNKNOWN_ERROR, 0)
  }

  /** Write `j` of a chunk of `n` bytes succeeded and reported all of them. */
  predicate WriteOk(writes: seq<WriteReply>, j: nat, n: nat) {
    WriteAt(writes, j).code == AFC_E_SUCCESS && WriteAt(writes, j).written == n
  }

  /** Every piece of the file was written whole. */
  predicate AllWritten(content: seq<byte>, writes: seq<WriteReply>) {
    forall j :: 0 <= j < |Chunks(content)| ==> WriteOk(writes, j, |Chunks(content)[j]|)
  }

  /** What the import loop has done once it has reached `pos`: all pieces before it were written whole. */
  ghost predicate ImportState(content: seq<byte>, writes: seq<WriteReply>, pos: nat, sent: seq<seq<byte>>) {
    pos <= |content| &&
    sent + Chunks(content[pos..]) == Chunks(content) &&
    forall j :: 0 <= j < |sent| ==> WriteOk(writes, j, |Chunks(content)[j]|)
  }

  /**
   * `import_file_to_device`: -1 when the local file or the device file
   * cannot be opened, or a write fails or reports fewer bytes than it
   * was given; 0 when every piece the local reads delivered was written
   * whole. A failing `QFile::read` returns -1, which ends the loop as the
   * end of the file does, so the pieces are those of the readable part.
   * `sent` are the pieces handed to `afc_file_write`, in order.
   */
  method ImportFileToDevice(localOpens: bool, openCode: int, content: seq<byte>, readsOk: Option<nat>,
                            writes: seq<WriteReply>)
    returns (result: int, sent: seq<seq<byte>>)
    ensures result == 0 || result == -1
    ensures result == 0 <==>
      localOpens && openCode == AFC_E_SUCCESS && AllWritten(ReadablePart(content, ImportChunk, readsOk), writes)
    ensures sent <= Chunks(ReadablePart(content, ImportChunk, readsOk))
    ensures result == 0 ==>
      sent == Chunks(ReadablePart(content, ImportChunk, readsOk)) &&
      ConcatFront(sent) == ReadablePart(content, ImportChunk, readsOk)
  {
    sent := [];
    if !localOpens {
      return -1, sent;
    }
    if openCode != AFC_E_SUCCESS {
      return -1, sent;
    }
    var part := ReadablePart(content, ImportChunk, readsOk);
    var pos := 0;
    while pos < |part|
      invariant ImportState(part, writes, pos, sent)
      decreases |part| - pos
    {
      var ok, pos', sent' := ImportNextChunk(part, writes, pos, sent);
      if !ok {
        return -1, sent';
      }
      pos, sent := pos', sent';
    }
    assert part[pos..] == [];
    assert sent + [] == sent;
    ChunksConcat(part);
    result := 0;
  }

  /**
   * As written, a read that fails before the end of the file passes for
   * the end of it: when the device takes every piece read, the import
   * reports success although only part of the file was sent.
   */
  method ImportAfterReadError(content: seq<byte>, readsOk: Option<nat>, writes: seq<WriteReply>)
    returns (result: int, sent: seq<seq<byte>>)
    requires ReadFails(content, ImportChunk, readsOk)
    requires AllWritten(ReadablePart(content, ImportChunk, readsOk), writes)
    ensures result == 0 && ConcatFront(sent) < content
  {
    result, sent := ImportFileToDevice(true, AFC_E_SUCCESS, content, readsOk, writes);
  }

  /**
   * `import_file_to_device` with the read checked after the loop (a last
   * `QFile::read` of -1 is a failure): 0 exactly when both files open, no
   * read fails and every piece of the file was written whole, and then the
   * file arrived in full.
   */
  method ImportFileToDeviceChecked(localOpens: bool, openCode: int, content: seq<byte>, readsOk: Option<nat>,
                                   writes: seq<WriteReply>)
    returns (result: int, sent: seq<seq<byte>>)
    ensures result == 0 || result == -1
    ensures result == 0 <==>
      localOpens && openCode == AFC_E_SUCCESS && !ReadFails(content, ImportChunk, readsOk) && AllWritten(content, writes)
    ensures sent <= Chunks(ReadablePart(content, ImportChunk, readsOk))
    ensures result == 0 ==> sent == Chunks(content) && ConcatFront(sent) == content
  {
    result, sent := ImportFileToDevice(localOpens, openCode, content, readsOk, writes);
    if result == 0 && ReadFails(content, ImportChunk, readsOk) {
      result := -1;
    }
  }

  /** One pass of the import loop: read the next piece and write it. */
  method ImportNextChunk(content: seq<byte>, writes: seq<WriteReply>, pos: nat, sent: seq<seq<byte>>)
    returns (ok: bool, pos': nat, sent': seq<seq<byte>>)
    requires pos < |content| && ImportState(content, writes, pos, sent)
    ensures ok ==> ImportState(content, writes, pos', sent') && pos < pos'
    ensures sent' <= Chunks(content)
    ensures !ok ==> !AllWritten(content, writes)
  {
    var n := if |content| - pos < ImportChunk then |content| - pos else ImportChunk;
    var chunk := content[pos..pos + n];
    ChunksStep(content, pos, n);
    ghost var all := Chunks(content);
    assert all == (sent + [chunk]) + Chunks(content[pos + n..]);
    assert all[|sent|] == chunk;
    var reply := WriteAt(writes, |sent|);
    sent' := sent + [chunk];
    pos' := pos + n;
    ok := reply.code == AFC_E_SUCCESS && reply.written == |chunk|;
    assert sent' == all[..|sent'|];
  }
}
