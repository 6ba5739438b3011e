/**
 * `MediaStreamer`: a local HTTP server that serves one device file with
 * byte-range support. Modelled here: the request parser, the `Range`
 * header reading, the status decision of `handleRequest` and the reply
 * heads it writes, the file-size cache, the MIME mapping, and the
 * per-connection streaming context with its idempotent cleanup.
 */
module MediaStreamer {
  import opened Wrappers
  import opened Text
  import opened Afc

  // ---------------------------------------------------------------------
  // Request parsing

  datatype HttpRequest = HttpRequest(
    verb: string,
    path: string,
    httpVersion: string,
    headers: map<string, string>,
    hasRange: bool,
    rangeStart: int,
    rangeEnd: int)

  /** A default-constructed request: no range, start 0, end -1. */
  const EmptyRequest: HttpRequest := HttpRequest("", "", "", map[], false, 0, -1)

  /** A header name as stored: lower case, and no whitespace at either end. */
  predicate NormalizedName(k: string) {
    Lower(k) == k && (|k| == 0 || (!IsSpace(k[0]) && !IsSpace(k[|k| - 1])))
  }

  /** What a header line contributes: nothing unless its first ':' is past position 0. */
  function HeaderField(line: string): (r: Option<(string, string)>)
    ensures r.Some? <==> IndexOf(line, ':') > 0
    ensures r.Some? ==> NormalizedName(r.value.0)
    ensures r.Some? ==> r.value.1 == Trim(line[IndexOf(line, ':') + 1..])
  {
    var colon := IndexOf(line, ':');
    if colon > 0 then
      LowerTrimNormalized(line[..colon]);
      Some((Lower(Trim(line[..colon])), Trim(line[colon + 1..])))
    else None
  }

  lemma LowerTrimNormalized(s: string)
    ensures NormalizedName(Lower(Trim(s)))
  {
    var t := Trim(s);
    LowerIdempotent(t);
    LowerKeepsSpaces(t);
  }

  /** The map with one header line applied; a later line replaces an earlier value. */
  function AddHeader(acc: map<string, string>, line: string): map<string, string> {
    match HeaderField(line)
    case None => acc
    case Some((k, v)) => acc[k := v]
  }

  /** The header block: lines applied in order until the first empty line. */
  function Headers(lines: seq<string>, acc: map<string, string>): map<string, string>
    decreases |lines|
  {
    if |lines| == 0 || lines[0] == "" then acc else Headers(lines[1..], AddHeader(acc, lines[0]))
  }

  /** Nothing after the first empty line is read. */
  lemma {:induction false} HeadersStopAtBlankLine(pre: seq<string>, post: seq<string>, acc: map<string, string>)
    requires forall i :: 0 <= i < |pre| ==> pre[i] != ""
    ensures Headers(pre + [""] + post, acc) == Headers(pre, acc)
    decreases |pre|
  {
    if |pre| > 0 {
      assert (pre + [""] + post)[1..] == pre[1..] + [""] + post;
      HeadersStopAtBlankLine(pre[1..], post, AddHeader(acc, pre[0]));
    } else {
      assert (pre + [""] + post)[0] == "";
    }
  }

  /** Every stored name is normalised. */
  lemma {:induction false} HeaderNamesNormalized(lines: seq<string>, acc: map<string, string>)
    requires forall k :: k in acc ==> NormalizedName(k)
    ensures forall k :: k in Headers(lines, acc) ==> NormalizedName(k)
    decreases |lines|
  {
    if |lines| > 0 && lines[0] != "" {
      HeaderNamesNormalized(lines[1..], AddHeader(acc, lines[0]));
    }
  }

  /** Applying the block line by line from the left: one more line is one more `AddHeader`. */
  lemma {:induction false} HeadersSnoc(lines: seq<string>, line: string, acc: map<string, string>)
    requires forall i :: 0 <= i < |lines| ==> lines[i] != ""
    requires line != ""
    ensures Headers(lines + [line], acc) == AddHeader(Headers(lines, acc), line)
    decreases |lines|
  {
    if |lines| == 0 {
      assert ([line])[1..] == [];
    } else {
      assert (lines + [line])[1..] == lines[1..] + [line];
      HeadersSnoc(lines[1..], line, AddHeader(acc, lines[0]));
    }
  }

  /** The last line naming a header decides its value. */
  lemma LastHeaderLineWins(lines: seq<string>, line: string, acc: map<string, string>)
    requires forall i :: 0 <= i < |lines| ==> lines[i] != ""
    requires HeaderField(line).Some?
    ensures HeaderField(line).value.0 in Headers(lines + [line], acc)
    ensures Headers(lines + [line], acc)[HeaderField(line).value.0] == HeaderField(line).value.1
  {
    HeadersSnoc(lines, line, acc);
  }

  /**
   * The `Range` header: `bytes=` followed by exactly one '-'. The start
   * is 0 when it does not parse; the end is -1 unless the part after
   * '-' is non-empty and parses.
   */
  function ParseRange(header: string): (r: Option<(int, int)>)
    ensures r.Some? <==> StartsWith(header, "bytes=") && |Split(header[6..], "-")| == 2
  {
    if StartsWith(header, "bytes=") then
      var parts := Split(header[6..], "-");
      if |parts| == 2 then
        var start := ParseInt64(parts[0]).GetOr(0);
        var end := if parts[1] != "" then ParseInt64(parts[1]).GetOr(-1) else -1;
        Some((start, end))
      else None
    else None
  }

  /** The reading of `bytes=x-y` when neither part holds a '-'. */
  lemma RangeOfParts(x: string, y: string)
    requires '-' !in x && '-' !in y
    ensures ParseRange("bytes=" + x + "-" + y) ==
      Some((ParseInt64(x).GetOr(0), if y != "" then ParseInt64(y).GetOr(-1) else -1))
  {
    var h := "bytes=" + x + "-" + y;
    StartsWithConcat("bytes=", x + "-" + y);
    assert h == "bytes=" + (x + "-" + y);
    assert h[6..] == x + "-" + y;
    SplitBeforeHead(x, "-", y);
    SplitWithoutHead(y, "-");
  }

  /** A closed range `bytes=a-b` is read as written. */
  lemma ClosedRange(a: nat, b: nat)
    requires a <= Int64Max && b <= Int64Max
    ensures ParseRange("bytes=" + NatToString(a) + "-" + NatToString(b)) == Some((a as int, b as int))
  {
    DigitsHaveNoDash(NatToString(a));
    DigitsHaveNoDash(NatToString(b));
    RangeOfParts(NatToString(a), NatToString(b));
    ParseIntToString(a);
    ParseIntToString(b);
  }

  /** An open range `bytes=a-` keeps the default end. */
  lemma OpenEndedRange(a: nat)
    requires a <= Int64Max
    ensures ParseRange("bytes=" + NatToString(a) + "-") == Some((a as int, -1))
  {
    DigitsHaveNoDash(NatToString(a));
    RangeOfParts(NatToString(a), "");
    assert "bytes=" + NatToString(a) + "-" + "" == "bytes=" + NatToString(a) + "-";
    ParseIntToString(a);
  }

  /**
   * A suffix range `bytes=-n` (the last n bytes, section 2.1 of
   * RFC 7233) is read as start 0, end n: the first n+1 bytes.
   */
  lemma SuffixRangeReadAsPrefix(n: nat)
    requires n <= Int64Max
    ensures ParseRange("bytes=" + "-" + NatToString(n)) == Some((0, n as int))
  {
    var d := NatToString(n);
    DigitsHaveNoDash(d);
    ParseEmpty();
    ParseIntToString(n);
    assert ParseInt64(d) == Some(n as int);
    RangeOfParts("", d);
    assert "bytes=" + "" == "bytes=";
  }

  /** A two-part range set `bytes=a-b,c-d` is not a range at all. */
  lemma MultiRangeIgnored(a: string, b: string, c: string, d: string)
    requires '-' !in a && '-' !in b && '-' !in c && '-' !in d
    ensures ParseRange("bytes=" + a + "-" + b + "," + c + "-" + d).None?
  {
    var h := "bytes=" + a + "-" + b + "," + c + "-" + d;
    var mid := b + "," + c;
    forall i | 0 <= i < |mid|
      ensures mid[i] != '-'
    {
      if i < |b| {
        assert mid[i] == b[i] && b[i] in b;
      } else if i > |b| {
        assert mid[i] == c[i - |b| - 1] && c[i - |b| - 1] in c;
      }
    }
    assert h == "bytes=" + (a + "-" + (mid + "-" + d));
    assert h[6..] == a + "-" + (mid + "-" + d);
    SplitBeforeHead(a, "-", mid + "-" + d);
    SplitBeforeHead(mid, "-", d);
    SplitWithoutHead(d, "-");
  }

  lemma DigitsHaveNoDash(s: string)
    requires AllDigits(s)
    ensures '-' !in s
  {
    forall i | 0 <= i < |s|
      ensures s[i] != '-'
    {
      assert IsDigit(s[i]);
    }
  }

  /** The request line is taken only when it has at least three space-separated tokens. */
  function RequestLine(line: string, request: HttpRequest): (r: HttpRequest)
    ensures |Split(line, " ")| < 3 ==> r == request
    ensures r.headers == request.headers && r.hasRange == request.hasRange
  {
    var tokens := Split(line, " ");
    if |tokens| >= 3 then request.(verb := tokens[0], path := tokens[1], httpVersion := tokens[2])
    else request
  }

  /** The range fields, set only when a `range` header reads as a range. */
  function WithRange(request: HttpRequest): (r: HttpRequest)
    ensures r.verb == request.verb && r.path == request.path && r.headers == request.headers
    ensures r.hasRange <==> request.hasRange || ("range" in request.headers && ParseRange(request.headers["range"]).Some?)
  {
    if "range" in request.headers then
      match ParseRange(request.headers["range"])
      case None => request
      case Some((start, end)) => request.(hasRange := true, rangeStart := start, rangeEnd := end)
    else request
  }

  /** What `parseHttpRequest` makes of the decoded request text. */
  function RequestOf(text: string): (r: HttpRequest)
    ensures forall k :: k in r.headers ==> NormalizedName(k)
  {
    var lines := Split(text, "\r\n");
    HeaderNamesNormalized(lines[1..], map[]);
    WithRange(RequestLine(lines[0], EmptyRequest).(headers := Headers(lines[1..], map[])))
  }

  /** A request line `m p v` with no spaces or CR in its parts sets the three fields. */
  lemma ParsesRequestLine(m: string, p: string, v: string, rest: string)
    requires ' ' !in m && ' ' !in p && ' ' !in v
    requires '\r' !in m && '\r' !in p && '\r' !in v
    ensures RequestOf(m + " " + p + " " + v + "\r\n" + rest).verb == m
    ensures RequestOf(m + " " + p + " " + v + "\r\n" + rest).path == p
    ensures RequestOf(m + " " + p + " " + v + "\r\n" + rest).httpVersion == v
  {
    var line := m + " " + p + " " + v;
    forall i | 0 <= i < |line|
      ensures line[i] != '\r'
    {
      if i < |m| {
        assert line[i] == m[i] && m[i] in m;
      } else if |m| < i < |m| + 1 + |p| {
        assert line[i] == p[i - |m| - 1] && p[i - |m| - 1] in p;
      } else if i > |m| + 1 + |p| {
        assert line[i] == v[i - |m| - |p| - 2] && v[i - |m| - |p| - 2] in v;
      }
    }
    SplitBeforeHead(line, "\r\n", rest);
    assert line == m + " " + (p + " " + v);
    SplitBeforeHead(m, " ", p + " " + v);
    SplitBeforeHead(p, " ", v);
    SplitWithoutHead(v, " ");
  }

  /** `parseHttpRequest`: the request line, then the header loop, then the range. */
  method ParseHttpRequest(text: string) returns (request: HttpRequest)
    ensures request == RequestOf(text)
  {
    request := EmptyRequest;
    var lines := Split(text, "\r\n");
    var requestLine := Split(lines[0], " ");
    if |requestLine| >= 3 {
      request := request.(verb := requestLine[0], path := requestLine[1], httpVersion := requestLine[2]);
    }
    var headers: map<string, string> := map[];
    var i := 1;
    while i < |lines|
      invariant 1 <= i <= |lines|
      invariant Headers(lines[i..], headers) == Headers(lines[1..], map[])
    {
      var line := lines[i];
      if line == "" {
        break;
      }
      var colon := IndexOf(line, ':');
      if colon > 0 {
        headers := headers[Lower(Trim(line[..colon])) := Trim(line[colon + 1..])];
      }
      assert lines[i..][1..] == lines[i + 1..];
      i := i + 1;
    }
    request := request.(headers := headers);
    if "range" in request.headers {
      var rangeHeader := request.headers["range"];
      if StartsWith(rangeHeader, "bytes=") {
        var parts := Split(rangeHeader[6..], "-");
        if |parts| == 2 {
          var start := ParseInt64(parts[0]);
          request := request.(hasRange := true, rangeStart := start.GetOr(0));
          if parts[1] != "" {
            request := request.(rangeEnd := ParseInt64(parts[1]).GetOr(-1));
          }
        }
      }
    }
  }

  // ---------------------------------------------------------------------
  // Status decision and reply heads

  datatype Response =
    | ErrorReply(status: int, reason: string)
    | ContentReply(status: int, start: int, end: int, size: int, mimeType: string, withBody: bool)

  /**
   * The end `handleRequest` serves up to: never past the last byte of the
   * file, never past a requested end, and the requested end itself when
   * it lies inside the file.
   */
  function EffectiveEnd(rangeEnd: int, fileSize: int): (r: int)
    ensures r <= fileSize - 1
    ensures fileSize > 0 ==> 0 <= r
    ensures 0 <= rangeEnd ==> r <= rangeEnd
    ensures 0 <= rangeEnd < fileSize ==> r == rangeEnd
  {
    if 0 <= rangeEnd < fileSize then rangeEnd else fileSize - 1
  }

  /** A range `handleRequest` refuses with 416. */
  predicate Unsatisfiable(start: int, end: int, fileSize: int) {
    start < 0 || start >= fileSize || start > end
  }

  /** The decision of `handleRequest`, given the file size it would look up. */
  function Respond(request: HttpRequest, fileSize: int, mimeType: string): (r: Response)
    ensures r == ErrorReply(405, "Method Not Allowed") <==> request.verb != "GET" && request.verb != "HEAD"
    ensures (request.verb == "GET" || request.verb == "HEAD") && fileSize <= 0 ==>
      r == ErrorReply(404, "File Not Found")
    ensures (request.verb == "GET" || request.verb == "HEAD") && fileSize > 0 ==>
      (r.ErrorReply? <==> (request.hasRange &&
         Unsatisfiable(request.rangeStart, EffectiveEnd(request.rangeEnd, fileSize), fileSize)))
    ensures r.ErrorReply? && r.status == 416 ==> r.reason == "Range Not Satisfiable"
    ensures r.ErrorReply? ==> r.status in {404, 405, 416}
    ensures r.ContentReply? ==> 0 <= r.start <= r.end < r.size == fileSize && r.mimeType == mimeType
    ensures r.ContentReply? ==> (r.status == 206 <==> request.hasRange) && r.status in {200, 206}
    ensures r.ContentReply? && !request.hasRange ==> r.start == 0 && r.end == fileSize - 1
    ensures r.ContentReply? && request.hasRange ==>
      r.start == request.rangeStart && r.end == EffectiveEnd(request.rangeEnd, fileSize)
    ensures r.ContentReply? ==> (r.withBody <==> request.verb == "GET")
  {
    if request.verb != "GET" && request.verb != "HEAD" then ErrorReply(405, "Method Not Allowed")
    else if fileSize <= 0 then ErrorReply(404, "File Not Found")
    else
      var start := if request.hasRange then request.rangeStart else 0;
      var end := if request.hasRange then EffectiveEnd(request.rangeEnd, fileSize) else fileSize - 1;
      if request.hasRange && Unsatisfiable(start, end, fileSize) then ErrorReply(416, "Range Not Satisfiable")
      else ContentReply(if request.hasRange then 206 else 200, start, end, fileSize, mimeType, request.verb == "GET")
  }

  /** The fields of every error reply: an empty body and `Connection: close`. */
  const ErrorFields: string := "Content-Length: 0\r\n" + "Connection: close\r\n" + "\r\n"

  /** The status line of `sendErrorResponse`. */
  function ErrorStatusLine(status: int, reason: string): string {
    "HTTP/1.1 " + IntToString(status) + " " + reason + "\r\n"
  }

  /** The fields every content reply carries, after the status lines. */
  function FixedFields(contentLength: int, mimeType: string): string {
    "Accept-Ranges: bytes\r\n" + "Content-Length: " + IntToString(contentLength) + "\r\n" +
    "Content-Type: " + mimeType + "\r\n" + "Connection: close\r\n" + "Cache-Control: no-cache\r\n" + "\r\n"
  }

  const PartialStatus: string := "HTTP/1.1 206 Partial Content\r\n"
  const OkStatus: string := "HTTP/1.1 200 OK\r\n"

  /** The status line of a content reply, with `Content-Range` for 206. */
  function StatusLines(r: Response): string
    requires r.ContentReply?
  {
    if r.status == 206
    then PartialStatus + "Content-Range: bytes " + IntToString(r.start) + "-" + IntToString(r.end) + "/" + IntToString(r.size) + "\r\n"
    else OkStatus
  }

  /** The bytes of the reply head for a decision. */
  function ResponseHead(r: Response): (head: string)
    ensures r.ErrorReply? ==> EndsWith(head, ErrorFields)
    ensures r.ContentReply? ==> EndsWith(head, FixedFields(r.end - r.start + 1, r.mimeType))
    ensures r.ContentReply? && r.status == 206 ==> StartsWith(head, PartialStatus)
    ensures r.ContentReply? && r.status != 206 ==> StartsWith(head, OkStatus)
  {
    if r.ErrorReply? then
      var line := ErrorStatusLine(r.status, r.reason);
      EndsWithConcat(line, ErrorFields);
      line + ErrorFields
    else
      var fields := FixedFields(r.end - r.start + 1, r.mimeType);
      var status := StatusLines(r);
      EndsWithConcat(status, fields);
      PrefixOfStatus(r, fields);
      status + fields
  }

  lemma PrefixOfStatus(r: Response, fields: string)
    requires r.ContentReply?
    ensures r.status == 206 ==> StartsWith(StatusLines(r) + fields, PartialStatus)
    ensures r.status != 206 ==> StartsWith(StatusLines(r) + fields, OkStatus)
  {
    if r.status == 206 {
      var tail := "Content-Range: bytes " + IntToString(r.start) + "-" + IntToString(r.end) + "/" + IntToString(r.size) + "\r\n";
      assert StatusLines(r) + fields == PartialStatus + (tail + fields);
      StartsWithConcat(PartialStatus, tail + fields);
    } else {
      StartsWithConcat(OkStatus, fields);
    }
  }

  /** A served range's `Content-Length` is positive and never more than the file. */
  lemma ContentLengthBounds(request: HttpRequest, fileSize: int, mimeType: string)
    requires Respond(request, fileSize, mimeType).ContentReply?
    ensures var r := Respond(request, fileSize, mimeType);
      1 <= r.end - r.start + 1 <= fileSize - r.start <= fileSize
  {
  }

  // ---------------------------------------------------------------------
  // MIME type and file size

  /** `getMimeType`: by case-insensitive suffix. */
  function MimeType(path: string): (r: string)
    ensures EndsWith(Lower(path), ".mp4") || EndsWith(Lower(path), ".m4v") ==> r == "video/mp4"
    ensures r == "application/octet-stream" <==>
      !EndsWith(Lower(path), ".mp4") && !EndsWith(Lower(path), ".m4v") && !EndsWith(Lower(path), ".mov") &&
      !EndsWith(Lower(path), ".avi") && !EndsWith(Lower(path), ".mkv")
  {
    var lower := Lower(path);
    if EndsWith(lower, ".mp4") || EndsWith(lower, ".m4v") then "video/mp4"
    else if EndsWith(lower, ".mov") then "video/quicktime"
    else if EndsWith(lower, ".avi") then "video/x-msvideo"
    else if EndsWith(lower, ".mkv") then "video/x-matroska"
    else "application/octet-stream"
  }

  /** The MIME type does not depend on letter case. */
  lemma MimeTypeIgnoresCase(path: string)
    ensures MimeType(Lower(path)) == MimeType(path)
  {
    LowerIdempotent(path);
  }

  /** The size a file-info reply gives: the first `st_size`, or -1. */
  function SizeFromInfo(reply: AfcOutcome): (r: int)
    ensures InfoPairs(reply).None? ==> r == -1
    ensures InfoPairs(reply).Some? && FirstValue(InfoPairs(reply).value, "st_size").None? ==> r == -1
    ensures r != -1 ==> Int64Min <= r <= Int64Max
  {
    match InfoPairs(reply)
    case None => -1
    case Some(pairs) =>
      match FirstValue(pairs, "st_size")
      case None => -1
      case Some(v) => ParseInt64(v).GetOr(-1)
  }

  /** The server: its file, the size cache, and the device look-ups it has made. */
  class Streamer {
    const filePath: string
    var cachedFileSize: int
    var fileSizeCached: bool
    var infoRequests: nat

    ghost predicate Valid()
      reads this
    {
      fileSizeCached ==> cachedFileSize > 0
    }

    constructor(filePath: string)
      ensures Valid() && this.filePath == filePath && !fileSizeCached && cachedFileSize == -1 && infoRequests == 0
    {
      this.filePath := filePath;
      cachedFileSize := -1;
      fileSizeCached := false;
      infoRequests := 0;
    }

    /**
     * `getFileSize`: the cached size without a device call, otherwise
     * one file-info call whose positive result is cached.
     */
    method GetFileSize(reply: AfcOutcome) returns (size: int)
      requires Valid()
      modifies this
      ensures Valid()
      ensures old(fileSizeCached) ==> (size == old(cachedFileSize) && infoRequests == old(infoRequests)
        && fileSizeCached && cachedFileSize == old(cachedFileSize))
      ensures !old(fileSizeCached) ==> (size == SizeFromInfo(reply) && infoRequests == old(infoRequests) + 1
        && (fileSizeCached <==> size > 0) && (fileSizeCached ==> cachedFileSize == size)
        && (!fileSizeCached ==> cachedFileSize == old(cachedFileSize)))
    {
      if fileSizeCached {
        return cachedFileSize;
      }
      infoRequests := infoRequests + 1;
      var pairs := InfoPairs(reply);
      if pairs.None? {
        return -1;
      }
      size := -1;
      var v := FindInfoValue(pairs.value, "st_size");
      if v.Some? {
        size := ParseInt64(v.value).GetOr(-1);
      }
      if size > 0 {
        cachedFileSize := size;
        fileSizeCached := true;
      }
    }

    /**
     * `handleRequest`'s decision: a bad method is refused before the
     * size is looked up; otherwise the (possibly cached) size decides.
     */
    method HandleRequest(request: HttpRequest, reply: AfcOutcome) returns (r: Response)
      requires Valid()
      modifies this
      ensures Valid()
      ensures request.verb != "GET" && request.verb != "HEAD" ==>
        r == ErrorReply(405, "Method Not Allowed") && infoRequests == old(infoRequests)
        && fileSizeCached == old(fileSizeCached) && cachedFileSize == old(cachedFileSize)
      ensures request.verb == "GET" || request.verb == "HEAD" ==>
        r == Respond(request, if old(fileSizeCached) then old(cachedFileSize) else SizeFromInfo(reply), MimeType(filePath))
      ensures (request.verb == "GET" || request.verb == "HEAD") && old(fileSizeCached) ==>
        infoRequests == old(infoRequests) && fileSizeCached && cachedFileSize == old(cachedFileSize)
      ensures (request.verb == "GET" || request.verb == "HEAD") && !old(fileSizeCached) ==>
        infoRequests == old(infoRequests) + 1 && (fileSizeCached <==> SizeFromInfo(reply) > 0)
        && cachedFileSize == (if SizeFromInfo(reply) > 0 then SizeFromInfo(reply) else old(cachedFileSize))
    {
      if request.verb != "GET" && request.verb != "HEAD" {
        return ErrorReply(405, "Method Not Allowed");
      }
      var size := GetFileSize(reply);
      r := Respond(request, size, MimeType(filePath));
    }
  }

  // ---------------------------------------------------------------------
  // Streaming context

  const ChunkSize: nat := 64 * 1024
  const BackpressureMark: nat := 32768

  /** The length `streamNextChunk` asks the device for. */
  function ReadSize(bytesRemaining: int): (r: nat)
    requires bytesRemaining > 0
    ensures 0 < r <= ChunkSize && r <= bytesRemaining
    ensures r == ChunkSize || r == bytesRemaining
  {
    if bytesRemaining < ChunkSize then bytesRemaining else ChunkSize
  }

  /** The next chunk is pulled at once only while the socket's queue is below the mark. */
  predicate PullsAtOnce(bytesToWrite: nat) { bytesToWrite < BackpressureMark }

  /**
   * `Opening`: created, not yet registered. `Streaming`: registered as
   * the socket's `streamingContext`. `CleanedUp`: cleaned up.
   * `Discarded`: deleted after a failed open or seek, never registered.
   */
  datatype Phase = Opening | Streaming | CleanedUp | Discarded

  datatype ChunkResult = Inactive | Finished | WaitForDrain | PullNow

  class StreamContext {
    var phase: Phase
    var bytesRemaining: int
    var afcHandle: nat
    /** Handles passed to `safeAfcFileClose`, in order. */
    var closed: seq<nat>
    /** Lengths passed to `safeAfcFileRead`, in order. */
    var readRequests: seq<nat>
    var disconnectRequested: bool

    /** The handle is closed at most once, and a registered context holds an open handle. */
    ghost predicate Valid()
      reads this
    {
      |closed| <= 1 &&
      (phase == Opening ==> closed == [] && afcHandle == 0 && !disconnectRequested) &&
      (phase == Streaming ==> closed == [] && afcHandle != 0) &&
      (phase == CleanedUp ==> afcHandle == 0)
    }

    constructor(startByte: int, endByte: int)
      ensures Valid() && phase == Opening
      ensures bytesRemaining == endByte - startByte + 1
      ensures afcHandle == 0 && closed == [] && readRequests == [] && !disconnectRequested
    {
      phase := Opening;
      bytesRemaining := endByte - startByte + 1;
      afcHandle := 0;
      closed := [];
      readRequests := [];
      disconnectRequested := false;
    }

    /**
     * The open-and-seek part of `streamFileRange`: a failed open
     * discards the context; a failed seek (only tried past byte 0)
     * closes the handle first. Neither registers the context.
     */
    method Open(startByte: int, openCode: int, handle: nat, seekCode: int) returns (started: bool)
      requires Valid() && phase == Opening
      modifies this
      ensures Valid()
      ensures started <==> openCode == 0 && handle != 0 && (startByte <= 0 || seekCode == 0)
      ensures started ==> phase == Streaming && afcHandle == handle && !disconnectRequested
      ensures !started ==> phase == Discarded && disconnectRequested
      ensures !started && openCode == 0 && handle != 0 ==> closed == [handle]
      ensures !(openCode == 0 && handle != 0) ==> closed == []
      ensures bytesRemaining == old(bytesRemaining) && readRequests == old(readRequests)
    {
      if openCode != 0 || handle == 0 {
        phase := Discarded;
        disconnectRequested := true;
        return false;
      }
      afcHandle := handle;
      if startByte > 0 && seekCode != 0 {
        closed := closed + [handle];
        phase := Discarded;
        disconnectRequested := true;
        return false;
      }
      phase := Streaming;
      return true;
    }

    /**
     * `cleanupStreamingContext`: only the first call does anything; it
     * unregisters the context, closes and zeroes the handle, and
     * disconnects the socket.
     */
    method Cleanup()
      requires Valid()
      modifies this
      ensures Valid()
      ensures old(phase) != Streaming ==> (phase == old(phase) && closed == old(closed)
        && afcHandle == old(afcHandle) && disconnectRequested == old(disconnectRequested))
      ensures old(phase) == Streaming ==> (phase == CleanedUp && closed == [old(afcHandle)]
        && afcHandle == 0 && disconnectRequested)
      ensures bytesRemaining == old(bytesRemaining) && readRequests == old(readRequests)
    {
      if phase != Streaming {
        return;
      }
      phase := CleanedUp;
      if afcHandle != 0 {
        closed := closed + [afcHandle];
        afcHandle := 0;
      }
      disconnectRequested := true;
    }

    /**
     * `streamNextChunk`, with the socket state, the device read and the
     * socket write as parameters: `bytesRead` is what the device
     * returned, `written` what `QTcpSocket::write` returned (-1, or at
     * most the bytes it was given), and `bytesToWrite` the socket's queue
     * afterwards.
     */
    method NextChunk(connected: bool, readCode: int, bytesRead: nat, written: int, bytesToWrite: nat)
      returns (result: ChunkResult)
      requires Valid()
      requires written == -1 || 0 <= written <= bytesRead
      modifies this
      ensures Valid()
      ensures result == Inactive <==> old(phase) != Streaming
      ensures result == Inactive ==> (phase == old(phase) && closed == old(closed) && readRequests == old(readRequests)
        && bytesRemaining == old(bytesRemaining))
      ensures result == Finished ==> phase == CleanedUp && closed == [old(afcHandle)]
      ensures result == WaitForDrain || result == PullNow ==>
        phase == Streaming && bytesRemaining > 0 && bytesRemaining == old(bytesRemaining) - written
        && written != -1 && (result == PullNow <==> PullsAtOnce(bytesToWrite))
      ensures bytesRemaining == old(bytesRemaining) || (written != -1 && bytesRemaining == old(bytesRemaining) - written)
      ensures bytesRemaining <= old(bytesRemaining)
      ensures old(phase) == Streaming && old(bytesRemaining) > 0 && connected ==>
        readRequests == old(readRequests) + [ReadSize(old(bytesRemaining))]
      ensures !(old(phase) == Streaming && old(bytesRemaining) > 0 && connected) ==> readRequests == old(readRequests)
    {
      if phase != Streaming {
        return Inactive;
      }
      if bytesRemaining <= 0 || !connected {
        Cleanup();
        return Finished;
      }
      var toRead := ReadSize(bytesRemaining);
      readRequests := readRequests + [toRead];
      if readCode != AFC_E_SUCCESS || bytesRead == 0 || written == -1 {
        Cleanup();
        return Finished;
      }
      bytesRemaining := bytesRemaining - written;
      if bytesRemaining <= 0 {
        Cleanup();
        return Finished;
      }
      if bytesToWrite >= BackpressureMark {
        return WaitForDrain;
      }
      return PullNow;
    }
  }
}
