# iDescriptor's device layer, modelled in Dafny

iDescriptor is a Qt desktop application for managing iOS devices over
libimobiledevice. This project models its device layer in Dafny and
proves properties of that model. The device layer sits between the
widgets and the native libraries. It covers:

- **Gateway** (`servicemanager.h`, `servicemanager.cpp`). The checked
  gateway runs every AFC (Apple File Conduit) call only when the device,
  its lock and its AFC client exist. The lock is held around the call and
  released on every path. The `safeAfc*` wrappers go through it.
- **Media streamer** (`mediastreamer.cpp`). This is the local HTTP
  byte-range server. It parses the request, chooses a status (200, 206,
  404, 405 or 416, after RFC 7233 sections 2.1 and 4) and streams the file
  chunk by chunk under back-pressure.
- **Export engines** (`exportmanager.cpp`, `photoexportmanager.cpp`).
  These hold the job registry, the cancellable batch loops with their
  counters and event order, the chunked copy that removes partial output,
  and collision-free output names.
- **Device registries** (`appcontext.cpp`, `devicemanagerwidget.cpp`).
  These are the connected, pending and recovery devices, and the device
  pages with the current device.
- **Parsers and decision rules**:
  - the plist navigator;
  - the XML key lookup, battery, health and activation rules of device
    initialisation;
  - the directory tree listing;
  - the explorer history and address normalisation;
  - the photo model's filter, sort and thumbnail bookkeeping;
  - DNS-SD and Avahi discovery, with TXT records after RFC 6763 sections
    6.1 and 6.4;
  - the simulated-location wire message;
  - IPA archive lookup, upload and install status;
  - the device image choice and the screen-area scan;
  - the disk-usage arithmetic;
  - the installed-apps lists and tabs;
  - the device information grid and labels;
  - the gallery's album rule and export guards.

Each source file keeps its own form:

- State the source updates in place becomes a Dafny `class`. This covers
  registries, widgets, the streaming context and the install status.
  Methods on such a class state their whole new state, and lemmas state
  the invariants they keep.
- Loops become methods with invariants, proved against a specification
  function on the inputs.
- Pure rules become functions and lemmas.

Calls into libimobiledevice, libzip, libplist, pugixml, the file system,
sockets and Qt are parameters of the model. These are called oracles
below. They are:

- a flag that says whether a call succeeded;
- the plist or directory a call returns;
- the sequence of replies a read or write loop receives;
- the index of the check that first sees a cancel flag.

Signals become entries in an event log that the methods return or extend.
There is one module per source file. The shared helpers are `Wrappers`,
`Bytes`, `Text`, `Sorting`, `Lists`, `Paths`, `FileCopy` and `Network`.

## Model

| member | source | states |
|---|---|---|
| Descriptor.Navigator.Key | src/iDescriptor.h:196-204 | a key subscript is null unless the node is a dict, and otherwise valid exactly when the dict holds the key, with that entry's value |
| Descriptor.Navigator.Index | src/iDescriptor.h:206-217 | an index subscript is valid exactly for an array and an index in range, and then yields that item |
| Descriptor.Navigator.GetBool | src/iDescriptor.h:222-229 | true exactly for a boolean node holding true; null and other kinds read false |
| Descriptor.Navigator.GetUInt | src/iDescriptor.h:231-238 | the integer of an unsigned node; 0 for null and other kinds |
| Descriptor.Navigator.GetString | src/iDescriptor.h:240-251 | the text of a string node; "" for null and other kinds |
| Descriptor.NullAbsorbs | src/iDescriptor.h:196-217 | no chain of key and index subscripts leads away from a null navigator |
| Descriptor.WalkThroughContainers | src/iDescriptor.h:196-217 | a chain that reaches a node went through a dict at every key step and an array at every index step |
| Afc.FirstKeyIndex | src/core/services/get_file_tree.cpp:46-47 | the position of the first pair with the key: none exactly when no pair has it, and no earlier pair has it |
| Afc.FindInfoValue | src/mediastreamer.cpp:345-352 | the scan of an AFC key/value list returns the value of the first matching key |
| Lists.RemoveAllCounts | src/appcontext.cpp:90 | `removeAll(x)` leaves no `x` and every other value exactly as often as before |
| Lists.RemoveAbsent | src/appcontext.cpp:164 | removing an absent value leaves the list unchanged |
| Lists.RemoveAllMembers | src/mediastreamer.cpp:99 | after `removeAll(x)` the members are exactly the former ones other than `x` |
| FileTree.ChildPath | src/core/services/get_file_tree.cpp:34-37 | the child path starts with the directory path and ends with the name, with exactly one '/' added unless the path already ends in one |
| FileTree.NonDotMembers | src/core/services/get_file_tree.cpp:28-31 | the kept listing names are exactly those other than "." and "..", never more than were listed |
| FileTree.EntriesShape | src/core/services/get_file_tree.cpp:27-68 | one entry per non-dot name in listing order, each flagged as a directory exactly as its child path classifies |
| FileTree.NoDotEntries | src/core/services/get_file_tree.cpp:28-31 | "." and ".." never become entries |
| FileTree.ClassifyEntry | src/core/services/get_file_tree.cpp:39-64 | an entry is a directory when its first `st_ifmt` is `S_IFDIR`, or `S_IFLNK` with a link that lists as a directory; missing file info means not a directory |
| FileTree.GetFileTree | src/core/services/get_file_tree.cpp:8-74 | no client or a failed listing gives an unsuccessful empty tree; otherwise a successful tree of the classified non-dot entries; the path is always recorded |
| Gateway.DisciplineAppend | src/servicemanager.h:28-43 | a lock log is disciplined exactly when both halves are, the second from the depth the first leaves |
| Gateway.DisciplinedDepth | src/servicemanager.h:35 | a disciplined log never holds a negative number of locks |
| Gateway.RoundKeepsDiscipline | src/servicemanager.h:35-42 | a pass through the gateway keeps the log disciplined and returns the lock depth to where it was |
| Gateway.Device.constructor | src/iDescriptor.h:148 | a new device holds no lock and has an empty log |
| Gateway.ExecuteOperation | src/servicemanager.h:27-61 | no device or no mutex gives the failure value without locking; no AFC client gives it after lock and unlock; otherwise exactly one invocation under the lock and its result; the lock is always given back |
| Gateway.ExecuteAfcOperation | src/servicemanager.h:63-84 | the same guard with `AFC_E_UNKNOWN_ERROR` on refusal, and an escaping exception also mapped to `AFC_E_UNKNOWN_ERROR` |
| Gateway.SafeAfc | src/servicemanager.cpp:3-68 | each AFC wrapper forwards its call unchanged through the guard and returns the device's answer or the unknown error |
| Gateway.SafeAfcReadDirectory | src/servicemanager.cpp:3-9 | forwards the directory read of that path through the guard |
| Gateway.SafeAfcGetFileInfo | src/servicemanager.cpp:11-17 | forwards the file-info request of that path through the guard |
| Gateway.SafeAfcFileOpen | src/servicemanager.cpp:19-27 | forwards the open of that path and mode through the guard |
| Gateway.SafeAfcFileRead | src/servicemanager.cpp:29-39 | forwards the read of that handle and length through the guard |
| Gateway.SafeAfcFileWrite | src/servicemanager.cpp:41-51 | forwards the write of that handle and data through the guard |
| Gateway.SafeAfcFileClose | src/servicemanager.cpp:53-59 | forwards the close of that handle through the guard |
| Gateway.SafeAfcFileSeek | src/servicemanager.cpp:61-68 | forwards the seek of that handle, offset and origin through the guard |
| Gateway.SafeReadAfcFileToByteArray | src/servicemanager.cpp:70-76 | the file's bytes when the guard lets the read through, an empty array otherwise |
| Gateway.SafeGetFileTree | src/servicemanager.cpp:78-85 | the device's tree when the guard lets the listing through, otherwise the empty unsuccessful tree |
| Descriptor.DictGet | src/iDescriptor.h:196-204 | the value stored under the key when the dictionary holds it, and nothing when it does not |
| InitDevice.KeyWithValueFrom | src/core/services/init_device.cpp:13-18 | from a start index, the first `<key>` element for the key that has a next sibling; none exactly when no such key precedes the last child |
| InitDevice.FirstKeyFrom | src/core/services/init_device.cpp:143-146 | from a start index, the first `<key>` element for the key, whether or not a sibling follows |
| InitDevice.SearchesAgree | src/core/services/init_device.cpp:140-153 | the first-key search and the first-key-with-sibling search agree when the first key has a sibling; when it has none, no later key has one either |
| InitDevice.XmlLookup | src/core/services/init_device.cpp:11-38 | with no key for the name before the last child the lookup reads "" |
| InitDevice.XmlAgreesWithText | src/core/services/init_device.cpp:11-38 | the XML lookup reads what the text lookup reads, except where it renders a `<true>` or `<false>` element as "true" or "false" |
| InitDevice.TextLookup | src/core/services/init_device.cpp:127-138 | with no key for the name before the last child the lookup reads "" |
| InitDevice.BoolLookup | src/core/services/init_device.cpp:140-153 | true exactly when the first key for the name has a next sibling and that sibling is `<true>` |
| InitDevice.BoolAgreesWithXml | src/core/services/init_device.cpp:11-38 | a key that reads as true as a boolean renders as "true" as XML |
| InitDevice.TrailingKeyReadsEmpty | src/core/services/init_device.cpp:17-18 | a key whose first occurrence is the last child reads as "", "" and false |
| InitDevice.SafeGetXML | src/core/services/init_device.cpp:11-38 | the loop over the children computes the XML lookup |
| InitDevice.SafeGet | src/core/services/init_device.cpp:127-138 | the loop over the children computes the text lookup |
| InitDevice.SafeGetBool | src/core/services/init_device.cpp:140-153 | the loop over the children computes the boolean lookup, stopping at the first key |
| InitDevice.ActivationFrom | src/core/services/init_device.cpp:183-203 | "Activated" and "WildcardActivated" map to activated, "FactoryActivated" to factory-activated, and any other string to unactivated |
| InitDevice.SerialOrPlaceholder | src/core/services/init_device.cpp:261-263 | never empty, and the serial itself when it is not empty |
| InitDevice.BatteryLevel | src/core/services/init_device.cpp:49-58 | 0 when either raw capacity is 0; otherwise the whole percentage, at most 100 when current does not exceed maximum and no overflow occurs |
| InitDevice.OldHealthPercent | src/core/services/init_device.cpp:85-89 | at most 100, and 0 for a zero design capacity |
| InitDevice.OldHealthExact | src/core/services/init_device.cpp:85-89 | without overflow the old-device health is the exact whole percentage, capped at 100, and a capacity within the design gives that percentage itself |
| InitDevice.PercentText | src/core/services/init_device.cpp:90 | a number as text with a final '%': for a number that is not negative the digits before the '%' read back as it, for a negative one a '-' followed by digits that read back as its magnitude |
| InitDevice.ConnectionFrom | src/core/services/init_device.cpp:63-65 | USB-C exactly when the adapter description is "usb type-c" |
| InitDevice.ParseOldDeviceBattery | src/core/services/init_device.cpp:41-71 | charge flags true exactly for boolean true nodes, the level from the raw capacities, the connection type, no voltage and the adapter watts; health, cycles and serial untouched |
| InitDevice.ParseOldDevice | src/core/services/init_device.cpp:73-97 | cycle count and capped health from the registry, the serial placeholder, then the battery fields |
| InitDevice.ParseDeviceBattery | src/core/services/init_device.cpp:100-119 | charge flags, state of charge, connection type, and voltage and watts of the first raw adapter; health, cycles and serial untouched |
| InitDevice.BatteryParsersShareFlags | src/core/services/init_device.cpp:41-119 | the old and new battery parsers read the charge flags and the connection type identically |
| InitDevice.ParsersIdempotent | src/core/services/init_device.cpp:41-119 | parsing again gives the same battery fields: no parser reads what it writes |
| InitDevice.CapacityPercent | src/core/services/init_device.cpp:258-259 | without overflow the whole percentage of maximum over design, at most 100 when maximum does not exceed design |
| InitDevice.FullDeviceInfo | src/core/services/init_device.cpp:122-273 | identity fields from the lockdown dictionary and the four disk capacities as the `try` block reads them; no diagnostics leaves the battery as it was; otherwise old devices are exactly those without battery data and take the old parser, and newer ones get the health text of maximum over design capacity, the registry's cycle count, the serial or its placeholder, and the charge fields of `parseDeviceBattery` |
| InitDevice.LeadingDigits | src/core/services/init_device.cpp:170-177 | the digits `stoull` reads: an all-digit prefix of the text, followed by the end or a non-digit |
| InitDevice.StoullReadsDecimal | src/core/services/init_device.cpp:170-177 | a capacity written in decimal and followed by a non-digit reads back as that capacity |
| InitDevice.StoullNeedsDigit | src/core/services/init_device.cpp:178-181 | text without a digit does not parse, so `stoull` throws and the `catch` takes over |
| InitDevice.ReadDisk | src/core/services/init_device.cpp:168-181 | each capacity is set exactly when it and every capacity before it in the `try` block parse; from the first that throws on, the fields keep their values, and no other field changes |
| InitDevice.DiskInfoReadsBack | src/core/services/init_device.cpp:168-181 | capacities that lockdown reports in decimal are all read into the disk fields |
| InitDevice.MissingDiskKeySetsNothing | src/core/services/init_device.cpp:168-181 | without a `TotalDiskCapacity` key the first `stoull` throws and no disk field changes |
| InitDevice.HealthTextReadsBack | src/core/services/init_device.cpp:257-259 | for a design capacity that is not 0 and no overflow, the newer-device health text is the digits of max * 100 / design followed by '%' |
| MediaStreamer.HeaderField | src/mediastreamer.cpp:132-136 | a line contributes a header exactly when its first ':' is past position 0; the name is lower-cased and trimmed, the value is the trimmed rest |
| MediaStreamer.LowerTrimNormalized | src/mediastreamer.cpp:134-136 | a trimmed, lower-cased name is in normal form |
| MediaStreamer.HeadersStopAtBlankLine | src/mediastreamer.cpp:127-130 | nothing after the first empty line is read as a header |
| MediaStreamer.HeaderNamesNormalized | src/mediastreamer.cpp:127-138 | every stored header name is lower case with no surrounding whitespace |
| MediaStreamer.HeadersSnoc | src/mediastreamer.cpp:127-138 | the header block is applied line by line from the left |
| MediaStreamer.LastHeaderLineWins | src/mediastreamer.cpp:136 | the last line naming a header decides its value |
| MediaStreamer.ParseRange | src/mediastreamer.cpp:141-160 | a range is read exactly when the header starts with `bytes=` and the rest splits on '-' into exactly two parts |
| MediaStreamer.RangeOfParts | src/mediastreamer.cpp:145-159 | `bytes=x-y` reads the start from `x` (0 when it does not parse) and the end from `y` (-1 when empty or unparsable) |
| MediaStreamer.ClosedRange | src/mediastreamer.cpp:141-160 | a closed range `bytes=a-b` is read as written |
| MediaStreamer.OpenEndedRange | src/mediastreamer.cpp:154-158 | an open range `bytes=a-` keeps the default end -1 |
| MediaStreamer.SuffixRangeReadAsPrefix | src/mediastreamer.cpp:145-158 | a suffix range `bytes=-n` (the last n bytes, section 2.1 of RFC 7233) is read as start 0, end n |
| MediaStreamer.MultiRangeIgnored | src/mediastreamer.cpp:147 | a two-part range set `bytes=a-b,c-d` is not taken as a range |
| MediaStreamer.RequestLine | src/mediastreamer.cpp:119-124 | a request line with fewer than three space-separated tokens leaves the request as it was; headers and range are never touched here |
| MediaStreamer.WithRange | src/mediastreamer.cpp:141-161 | the range flag is set exactly when a `range` header reads as a range; method, path and headers are unchanged |
| MediaStreamer.RequestOf | src/mediastreamer.cpp:107-164 | the parsed request stores only normalised header names |
| MediaStreamer.ParsesRequestLine | src/mediastreamer.cpp:119-124 | a request line `m p v` sets method, path and version to `m`, `p` and `v` |
| MediaStreamer.ParseHttpRequest | src/mediastreamer.cpp:107-164 | the loop over the header lines computes the request the specification function describes |
| MediaStreamer.EffectiveEnd | src/mediastreamer.cpp:181-188 | the end never passes the file's last byte and is not negative for a non-empty file; it never exceeds a requested end, and a requested end inside the file is kept |
| MediaStreamer.Respond | src/mediastreamer.cpp:166-230 | 405 exactly for methods other than GET and HEAD; 404 for a size that is not positive; 416 for an unsatisfiable range; otherwise 206 exactly for a range request, with bounds inside the file and a body only for GET |
| MediaStreamer.ResponseHead | src/mediastreamer.cpp:198-246 | a content reply starts with the 200 or 206 status line and ends with its fixed fields; an error reply ends with the error fields |
| MediaStreamer.PrefixOfStatus | src/mediastreamer.cpp:201-210 | the status lines of a content reply start with the status matching its code |
| MediaStreamer.ContentLengthBounds | src/mediastreamer.cpp:213-215 | a served reply's `Content-Length` is positive and never more than the file size |
| MediaStreamer.MimeType | src/mediastreamer.cpp:365-380 | `.mp4` and `.m4v` are `video/mp4`, any case; the fallback type exactly when no known suffix matches |
| MediaStreamer.MimeTypeIgnoresCase | src/mediastreamer.cpp:367 | the MIME type does not depend on letter case |
| MediaStreamer.SizeFromInfo | src/mediastreamer.cpp:335-355 | -1 when the file info or its `st_size` is missing; any other size fits a signed 64-bit integer |
| MediaStreamer.Streamer.constructor | src/mediastreamer.cpp:15-18 | a new streamer has no cached size (-1) and has made no device call |
| MediaStreamer.Streamer.GetFileSize | src/mediastreamer.cpp:325-363 | a cached size is returned without a device call; otherwise one file-info call, and only a positive size is cached |
| MediaStreamer.Streamer.HandleRequest | src/mediastreamer.cpp:166-230 | a bad method is refused with 405 before any size look-up, leaving the size cache and the look-up count alone; otherwise the decision is the one `Respond` describes for the looked-up size, a cached size costs no look-up, and an uncached one costs one, whose positive result is cached |
| MediaStreamer.ReadSize | src/mediastreamer.cpp:406-408 | the chunk asked for is positive, at most 64 KiB and no more than what remains, and equals one of the two |
| MediaStreamer.StreamContext.constructor | src/mediastreamer.cpp:250-258 | a new context is opening, with `end - start + 1` bytes to go and no handle |
| MediaStreamer.StreamContext.Open | src/mediastreamer.cpp:264-291 | the stream starts exactly when the open succeeds with a handle and, past byte 0, the seek succeeds; a failed seek closes the handle; a failure discards the context and disconnects |
| MediaStreamer.StreamContext.Cleanup | src/mediastreamer.cpp:456-487 | only the first cleanup of a registered context does anything: it closes the handle once and disconnects |
| MediaStreamer.StreamContext.NextChunk | src/mediastreamer.cpp:382-454 | an unregistered context does nothing; finished, disconnected, failed reads and failed writes clean up; otherwise the remaining count drops by what was written, and it never grows and the next chunk waits for the queue to drain below 32768 bytes |
| Paths.DirPath | src/exportmanager.cpp:208 | the directory a `QDir` keeps is never empty, and it ends in '/' only for the root or a path that ended in "//" |
| Paths.FilePath | src/exportmanager.cpp:208 | joining a directory and a name never gives the empty path |
| Paths.FilePathShape | src/exportmanager.cpp:208 | an absolute name is kept as it is; otherwise the result starts with the directory, ends with the name, and a '/' separates the two |
| Paths.ExtractFileNameShape | src/photoexportmanager.cpp:219-227 | with a '/' before the last character the file name is the non-empty, slash-free text after the last '/'; otherwise the whole path |
| Paths.LastIndexOfAppend | src/photoexportmanager.cpp:222 | appending text free of the character does not move its last occurrence |
| Paths.ExtractFileNameOfFilePath | src/photoexportmanager.cpp:100-102 | taking the file name back out of `dir/name` gives `name` for a plain name |
| Paths.AfterLastAvoids | src/photoexportmanager.cpp:222-224 | nothing after the last occurrence of a character is that character |
| Paths.FileNameOfHasNoSlash | src/mediastreamer.cpp:395 | the last path component holds no '/' |
| Paths.DirectoryOf | src/photoexportmanager.cpp:239 | the directory of a path is never empty |
| Paths.BaseNameAndSuffix | src/photoexportmanager.cpp:237-238 | the base name is a prefix and the suffix a '.'-free ending of the file name; base name, '.' and suffix make up the name again, and without a '.' the base name is all of it |
| Paths.CandidateNameShape | src/photoexportmanager.cpp:245-248 | the n-th renaming keeps the base name and the suffix, with `_n` between them |
| Paths.FirstFreeChoice | src/photoexportmanager.cpp:244-252 | the search returns a candidate before which every candidate tried is taken, and which is free or the last one tried |
| Paths.UniqueOutputPath | src/photoexportmanager.cpp:230-234 | a base path not on disk is returned unchanged |
| Paths.UniqueOutputPathRule | src/photoexportmanager.cpp:230-255 | a taken base path becomes the first free candidate `_1` .. `_9999`, or the last one tried |
| Paths.FirstFreeWhenRoom | src/photoexportmanager.cpp:251-252 | when some candidate is free, the search returns a free one |
| Paths.UniquePathFreeWhenRoom | src/photoexportmanager.cpp:230-255 | when some candidate is free, the chosen path is not on disk |
| Paths.FirstFreeGivesUp | src/photoexportmanager.cpp:251-252 | when every candidate is taken, the search ends on the last one |
| Paths.UniquePathGivesUp | src/photoexportmanager.cpp:230-255 | when every candidate is taken, candidate 9999 is returned although it exists |
| Paths.GenerateUniqueOutputPath | src/exportmanager.cpp:358-382 | the do-while loop returns the path the renaming rule describes |
| FileCopy.CopyFromShape | src/exportmanager.cpp:289-329 | the chunks written are exactly the delivered, fully written reads, in order and none after the flag was seen; the loop stops at the first cancel, short write, failed read or empty read |
| FileCopy.ChunksFitBuffer | src/exportmanager.cpp:288 | each chunk fits the buffer, so the total is at most one buffer per chunk |
| FileCopy.CopyStep | src/exportmanager.cpp:303-322 | a delivered, fully written chunk is followed by the rest of the copy |
| FileCopy.CopyStop | src/exportmanager.cpp:294-319 | a round that stops the loop writes nothing more, and its end says why |
| FileCopy.CopyChunks | src/exportmanager.cpp:289-329 | the loop writes what the copy specification describes; the byte total is the length of the chunks and at most one buffer per chunk; one read call per chunk plus the one that stopped the loop, unless a cancel stopped it |
| ExportManager.ExportManager.constructor | src/exportmanager.cpp:36-41 | a new manager has no job and no event |
| ExportManager.ExportManager.StartExport | src/exportmanager.cpp:60-118 | the null id exactly for an invalid device, no items, or a destination that neither exists nor can be created; then nothing changes; otherwise a fresh id is registered with its job and `exportStarted` is emitted |
| ExportManager.ExportManager.CancelExport | src/exportmanager.cpp:120-128 | a registered job's cancel flag is raised; an unknown id changes nothing |
| ExportManager.ExportManager.IsExporting | src/exportmanager.cpp:130-134 | true exactly when some job is registered |
| ExportManager.ExportManager.IsJobRunning | src/exportmanager.cpp:136-140 | true exactly when the id is registered |
| ExportManager.ExportManager.CleanupJob | src/exportmanager.cpp:393-406 | the job is forgotten, and an unknown id changes nothing |
| ExportManager.ItemEvents | src/exportmanager.cpp:163-177 | two events per started item |
| ExportManager.ItemEventsAt | src/exportmanager.cpp:163-177 | event 2i announces item i counted from 1, event 2i+1 reports its result |
| ExportManager.Tallied | src/exportmanager.cpp:170-175 | every counted result is either a success or a failure |
| ExportManager.Successes | src/exportmanager.cpp:170-172 | only successful results are kept |
| ExportManager.TallyMatchesSuccesses | src/exportmanager.cpp:170-175 | the summary counts each success and each failure once, and its byte total sums `bytesTransferred` over the successes |
| ExportManager.StartedItems | src/exportmanager.cpp:152-187 | the loop begins every item unless a cancel check saw the flag, and never more than there are |
| ExportManager.StartedItemsAt | src/exportmanager.cpp:154-186 | a flag seen before item i stops with i items begun, one seen after it with i+1 |
| ExportManager.ExecuteExportJob | src/exportmanager.cpp:142-195 | the summary tallies exactly the started items; the log is their progress and result events followed by `exportCancelled` exactly when a check saw the flag, else `exportFinished` with the summary |
| ExportManager.JobEndsOnce | src/exportmanager.cpp:152-194 | a job's log ends in exactly one terminal event, and every started item is counted once |
| ExportManager.ProgressInOrder | src/exportmanager.cpp:163-164 | progress indices strictly increase, one per started item |
| ExportManager.TransferMarks | src/exportmanager.cpp:324-328 | transfer progress is reported only at multiples of 64 KiB or at the file size, never beyond the bytes copied, in increasing order, and at the end when the total is a mark |
| ExportManager.ExportSingleItem | src/exportmanager.cpp:197-356 | the output path is the unique renaming of the suggested name; missing metadata, a failed open, a failed local create, a cancel, a short write and an empty copy each fail with their message; success exactly when the copy drains with data, keeping those bytes; the device handle is closed exactly once after a successful open |
| PhotoExportManager.PhotoExportManager.constructor | src/photoexportmanager.cpp:11-15 | a new manager is idle, with nothing requested |
| PhotoExportManager.PhotoExportManager.ExportFiles | src/photoexportmanager.cpp:17-72 | an export starts exactly when none runs, the device is valid, the list is not empty and the directory exists or can be made; then the state is recorded and `exportStarted` emitted, otherwise nothing changes |
| PhotoExportManager.PhotoExportManager.WorkerFinished | src/photoexportmanager.cpp:65-69 | the export is over; nothing else changes |
| PhotoExportManager.PhotoExportManager.CancelExport | src/photoexportmanager.cpp:74-81 | the flag is raised only while an export runs; nothing else changes |
| PhotoExportManager.FileEvents | src/photoexportmanager.cpp:117-118 | two events per handled file |
| PhotoExportManager.FileEventsAt | src/photoexportmanager.cpp:117-118 | event 2i reports file i's result, event 2i+1 the progress after it |
| PhotoExportManager.HandledFiles | src/photoexportmanager.cpp:88-96 | the loop never handles more files than there are |
| PhotoExportManager.RunEndsOnce | src/photoexportmanager.cpp:88-127 | a run's log ends in exactly one terminal event: `exportCancelled` exactly when a check before some file saw the flag |
| PhotoExportManager.SuccessCount | src/photoexportmanager.cpp:108-115 | never more successes than results counted |
| PhotoExportManager.SuccessCountBounds | src/photoexportmanager.cpp:108-115 | all count as successes exactly when every one succeeded, none exactly when every one failed |
| PhotoExportManager.Planned | src/photoexportmanager.cpp:98-105 | one output path per handled file, and the files on disk only grow |
| PhotoExportManager.PerformExport | src/photoexportmanager.cpp:83-128 | the counters tally the handled files, each output path is the unique renaming against the disk as the earlier files left it, and the log ends in `exportCancelled` or `exportFinished` with the counts |
| PhotoExportManager.ChooseOutputPath | src/photoexportmanager.cpp:100-105 | the output path is the unique renaming of the file name in the directory |
| PhotoExportManager.OutputPathKeepsFreeName | src/photoexportmanager.cpp:100-105 | a device file whose name is still free in the export directory is written under exactly that name, which reads back from the path |
| PhotoExportManager.ExportNextFile | src/photoexportmanager.cpp:99-120 | one pass of the export loop keeps the loop's whole state in step with the specification functions for one file more |
| PhotoExportManager.PlanNextFile | src/photoexportmanager.cpp:99-105 | one file's output path is picked against the files on disk at that moment, and only a successful export adds it there |
| PhotoExportManager.CountNextFile | src/photoexportmanager.cpp:110-117 | one file adds a success or a failure, so the successes are those counted so far and the two counters add up to the files done |
| PhotoExportManager.LogNextFile | src/photoexportmanager.cpp:119-120 | one file's result is logged, then the progress after it, extending the log of the files before |
| PhotoExportManager.ExportSingleFile | src/photoexportmanager.cpp:130-217 | a failed open, a failed local create, a cancel, a short write and an empty copy each fail with their message; success exactly when the copy drains with data, keeping those bytes; the handle is closed once after a successful open |
| PhotoModel.DetermineFileType | src/photomodel.cpp:684-693 | Video exactly for names ending, in any case, in .MOV, .MP4 or .M4V |
| PhotoModel.LowerOfUpper | src/photomodel.cpp:686-688 | case folding erases the difference between a name and its upper-case form |
| PhotoModel.FileTypeIgnoresCase | src/photomodel.cpp:467-472 | neither the kind nor whether a name is kept depends on its letter case |
| PhotoModel.VideosAreMedia | src/photomodel.cpp:467-472 | every video name is kept by the listing filter |
| PhotoModel.Entries | src/photomodel.cpp:465-483 | a listing yields at most one entry per name |
| PhotoModel.EntriesShape | src/photomodel.cpp:465-483 | every entry is a media name under the album path, classified by its suffix and not yet asked for a thumbnail |
| PhotoModel.EntriesComplete | src/photomodel.cpp:465-483 | every media name of the listing gets its entry |
| PhotoModel.FiltersPartition | src/photomodel.cpp:546-558 | every entry passes the wide filter and exactly one of the two narrowing ones |
| PhotoModel.Filtered | src/photomodel.cpp:517-527 | the filter never adds entries |
| PhotoModel.FilteredCounts | src/photomodel.cpp:517-527 | the filter keeps every matching entry as often as it occurs, and nothing else |
| PhotoModel.FilteredPartition | src/photomodel.cpp:546-558 | images and videos together are the whole list, and the wide filter keeps everything |
| PhotoModel.BeforeIsStrictWeak | src/photomodel.cpp:534-544 | both timestamp comparators meet what `std::sort` demands |
| PhotoModel.ArrangedShape | src/photomodel.cpp:513-544 | the rows are a permutation of the matching entries, ordered by timestamp in the chosen direction |
| PhotoModel.ArrangedKinds | src/photomodel.cpp:546-558 | the image filter shows only images, the video filter only videos, and the wide one every entry |
| PhotoModel.SelectedPaths | src/photomodel.cpp:562-571 | never more paths than indexes |
| PhotoModel.SelectedPathsShape | src/photomodel.cpp:562-571 | every selected path is a row's path; with only usable indexes, one path per index in order |
| PhotoModel.SelectedPathsSkipInvalid | src/photomodel.cpp:566 | unusable indexes contribute nothing |
| PhotoModel.PathsOf | src/photomodel.cpp:589-605 | one path per entry, in order |
| PhotoModel.PhotoModel.constructor | src/photomodel.cpp:18-35 | a new model sorts newest first, filters nothing, uses 256 by 256 thumbnails and lists and caches nothing |
| PhotoModel.PhotoModel.KeyFor | src/photomodel.cpp:202-212 | the cache key names the file path and the current thumbnail size |
| PhotoModel.PhotoModel.RowCount | src/photomodel.cpp:104-108 | the number of shown rows |
| PhotoModel.PhotoModel.GetFilePath | src/photomodel.cpp:573-579 | the row's path for a usable index, "" otherwise |
| PhotoModel.PhotoModel.GetFileType | src/photomodel.cpp:581-587 | the row's kind for a usable index, Image otherwise |
| PhotoModel.PhotoModel.GetSelectedFilePaths | src/photomodel.cpp:562-571 | the paths of the usable indexes, in order |
| PhotoModel.PhotoModel.GetAllFilePaths | src/photomodel.cpp:589-596 | every listed entry's path, in listing order |
| PhotoModel.PhotoModel.GetFilteredFilePaths | src/photomodel.cpp:598-605 | the shown rows' paths, in row order |
| PhotoModel.PhotoModel.ApplyFilterAndSort | src/photomodel.cpp:513-532 | the rows become the matching entries sorted in the current order; nothing else changes |
| PhotoModel.PhotoModel.SetSortOrder | src/photomodel.cpp:497-503 | the order is stored, and the rows are re-arranged only when it changed |
| PhotoModel.PhotoModel.SetFilterType | src/photomodel.cpp:505-511 | the filter is stored, and the rows are re-arranged only when it changed |
| PhotoModel.PhotoModel.PopulatePhotoPaths | src/photomodel.cpp:413-494 | no album path changes nothing; a missing album or failed listing empties the model; otherwise the listing's media entries, arranged |
| PhotoModel.ListEntries | src/photomodel.cpp:463-484 | the listing loop computes the entries function: the media names of the listing in order, each under the album path |
| PhotoModel.PhotoModel.SetAlbumPath | src/photomodel.cpp:695-701 | a new path is stored and listed; the same path changes nothing |
| PhotoModel.PhotoModel.RequestThumbnail | src/photomodel.cpp:219-246 | an out-of-range row is ignored; otherwise the row is marked as asked for, and a loader starts unless one already runs for its key or its path |
| PhotoModel.PhotoModel.FirstRowOf | src/photomodel.cpp:253-259 | the first row showing the path, or none when no row shows it |
| PhotoModel.PhotoModel.LoaderFinished | src/photomodel.cpp:240-262 | the path and the key stop loading; a loaded thumbnail is cached and exactly the first row showing the file is reported changed, or no row when none shows it; a failed load changes nothing else |
| PhotoModel.PhotoModel.DecorationData | src/photomodel.cpp:110-175 | nothing for an unusable row; the cached icon when there is one; otherwise a placeholder by kind, with a load queued unless one is pending |
| PhotoModel.PhotoModel.ClearCache | src/photomodel.cpp:186-200 | the cache is emptied, every row may be asked for again, a non-empty model reports all its rows changed and an empty one reports nothing; nothing else changes |
| PhotoModel.PhotoModel.SetThumbnailSize | src/photomodel.cpp:177-184 | the size is stored; a different size clears the cache and reports every row changed, the same size changes nothing; the photo lists and the load queue are untouched |
| PhotoModel.RequestTwiceThenFinish | src/photomodel.cpp:219-246 | two requests for the same row start one loader, and once it finishes neither set remembers the file |
| AfcExplorer.WithTrailingSlash | src/afcexplorerwidget.cpp:89-90 | the directory ends in '/', with at most one character added |
| AfcExplorer.ChildPathShape | src/afcexplorerwidget.cpp:85-91 | an entry's path is the directory, then a '/' unless it already ends in one, then the name |
| AfcExplorer.CollapseSlashes | src/afcexplorerwidget.cpp:153 | collapsing never lengthens the text and keeps its first and last characters |
| AfcExplorer.WithoutSlashes | src/afcexplorerwidget.cpp:153 | the text without its '/' characters holds none |
| AfcExplorer.CollapseNoDouble | src/afcexplorerwidget.cpp:153 | collapsing leaves no two '/' in a row |
| AfcExplorer.CollapseKeepsText | src/afcexplorerwidget.cpp:153 | collapsing drops only '/' characters; everything else stays, in order |
| AfcExplorer.CollapseClean | src/afcexplorerwidget.cpp:153 | text with no doubled '/' is left as it is |
| AfcExplorer.RootedAddress | src/afcexplorerwidget.cpp:142-150 | the address starts with '/' and ends as the trimmed text did, or is "/" |
| AfcExplorer.RootedKeepsText | src/afcexplorerwidget.cpp:147-150 | making the address absolute adds at most a '/' |
| AfcExplorer.NormalizeAddressShape | src/afcexplorerwidget.cpp:140-153 | a normalised address starts with '/', holds no "//", and keeps the typed text apart from its '/'s |
| AfcExplorer.CleanAddressFixed | src/afcexplorerwidget.cpp:140-153 | an absolute address with no "//" and no trailing whitespace is already normal |
| AfcExplorer.NormalizeAddressIdempotent | src/afcexplorerwidget.cpp:140-153 | normalising a normalised address changes nothing |
| AfcExplorer.ExportTargets | src/afcexplorerwidget.cpp:276-289 | the device path is the entry's child path, and the save path is the chosen directory, '/', and the name |
| AfcExplorer.ImportTarget | src/afcexplorerwidget.cpp:365-380 | a local file lands under its own slash-free name in the directory shown |
| AfcExplorer.AfcExplorer.constructor | src/afcexplorerwidget.cpp:47-49 | a new explorer shows the root, with nothing to go back or forward to |
| AfcExplorer.AfcExplorer.Current | src/afcexplorerwidget.cpp:85-87 | the directory shown is the top of the history |
| AfcExplorer.AfcExplorer.GoBack | src/afcexplorerwidget.cpp:55-66 | with somewhere to go back to, the shown path moves onto the forward stack; otherwise nothing changes |
| AfcExplorer.AfcExplorer.GoForward | src/afcexplorerwidget.cpp:68-76 | the top of the forward stack is shown again; with an empty forward stack nothing changes |
| AfcExplorer.AfcExplorer.BackThenForward | src/afcexplorerwidget.cpp:55-76 | going back and then forward restores both stacks and the path shown |
| AfcExplorer.AfcExplorer.OpenDirectory | src/afcexplorerwidget.cpp:78-97 | opening a directory entry drops the forward history and shows the entry's child path |
| AfcExplorer.AfcExplorer.SubmitAddress | src/afcexplorerwidget.cpp:140-162 | the normalised address is shown and the forward history dropped |
| AfcExplorer.AfcExplorer.BackEnabled | src/afcexplorerwidget.cpp:167-168 | back is enabled exactly when there is somewhere to go back to |
| AfcExplorer.AfcExplorer.ForwardEnabled | src/afcexplorerwidget.cpp:170-172 | forward is enabled exactly when the forward stack is not empty |
| AfcExplorer.DrainStops | src/afcexplorerwidget.cpp:343-348 | reads after the first failed or empty one are never made; they do not change what is written |
| AfcExplorer.ExportFileToPath | src/afcexplorerwidget.cpp:324-353 | -1 exactly when the device file or the local file cannot be opened, and nothing is written; otherwise 0 with every delivered chunk written in order; the device handle is closed exactly when it was opened |
| AfcExplorer.Chunks | src/afcexplorerwidget.cpp:412-414 | every piece read is non-empty and at most 4096 bytes |
| AfcExplorer.ChunksStep | src/afcexplorerwidget.cpp:414 | the next piece is the next 4096 bytes, or what is left when less remains |
| AfcExplorer.ChunksConcat | src/afcexplorerwidget.cpp:412-425 | the pieces laid end to end are the file |
| AfcExplorer.ImportFileToDevice | src/afcexplorerwidget.cpp:395-430 | as written, a failing `QFile::read` ends the loop like the end of the file: 0 exactly when both files open and every piece that was read is written whole, and then the bytes read arrived in full; what was sent is always a prefix of the pieces read |
| AfcExplorer.ImportAfterReadError | src/afcexplorerwidget.cpp:414-429 | as written, when a read fails before the end of the file and the device takes every piece read, the import returns 0 although only a proper prefix of the file was sent |
| AfcExplorer.ImportFileToDeviceChecked | src/afcexplorerwidget.cpp:395-430 | with the read result checked after the loop, 0 exactly when both files open, no read fails and every piece of the file is written whole, and then the file arrived in full |
| AfcExplorer.ImportNextChunk | src/afcexplorerwidget.cpp:414-424 | a good write advances the loop, keeping everything before it written whole; a failed one means not all was written |
| AppContext.ConnectedCount | src/appcontext.cpp:144-147 | the count is 0 exactly when neither map holds anything |
| AppContext.AppContext.constructor | src/appcontext.cpp:16-36 | a new registry holds no device, no pending udid and no recovery device |
| AppContext.AppContext.AddDevice | src/appcontext.cpp:64-142 | a failed initialisation never adds a device and queues the udid, with its 30-second timer, only for a password-protected device or a pending pairing dialog; a success files the device under its udid, announcing it as added or, after pairing, as paired and dropping it from the pending list |
| AppContext.AppContext.PairingTimerFired | src/appcontext.cpp:82-94 | a still-pending udid leaves the pending list, every occurrence, and its pairing expires; otherwise nothing changes |
| AppContext.AppContext.RemoveDevice | src/appcontext.cpp:155-190 | a pending udid leaves the pending list without the device map being looked at; otherwise a known udid is removed and announced, and an unknown one changes nothing |
| AppContext.AppContext.RemoveRecoveryDeviceAsWritten | src/appcontext.cpp:192-208 | with the read-back after the removal, a known ECID ends up filed again with a null entry |
| AppContext.AppContext.RemoveRecoveryDevice | src/appcontext.cpp:192-204 | a known ECID leaves the map and is announced; an unknown one changes nothing |
| AppContext.AppContext.AddRecoveryDevice | src/appcontext.cpp:232-254 | a failed initialisation adds nothing; otherwise the device is filed under the ECID it reports and announced |
| AppContext.AppContext.GetDevice | src/appcontext.cpp:210-213 | the device filed under the udid, and null exactly when there is none |
| AppContext.AppContext.GetConnectedDeviceCount | src/appcontext.cpp:144-147 | regular plus recovery devices; pending ones are not counted |
| AppContext.AppContext.NoDevicesConnected | src/appcontext.cpp:226-230 | true exactly when no device of any kind is held, pending ones included |
| AppContext.AsWrittenRemovalKeepsCount | src/appcontext.cpp:202-205 | the removal as written leaves the ECID filed, so the connected count does not drop |
| AppContext.RemovalDropsCount | src/appcontext.cpp:202 | the intended removal takes one off the connected count |
| AppContext.RecoveryRoundTrip | src/appcontext.cpp:192-254 | a recovery device plugged in and removed again: as written the registry still counts one, as intended none |
| DeviceManager.DeviceManagerWidget.constructor | src/devicemanagerwidget.cpp:7-58 | a new manager has no page, no pending page and no current device |
| DeviceManager.DeviceManagerWidget.AddDevice | src/devicemanagerwidget.cpp:84-107 | a udid with an entry, even a null one, is ignored; otherwise its page is created, titled by the product type |
| DeviceManager.DeviceManagerWidget.AddPendingDevice | src/devicemanagerwidget.cpp:109-135 | an existing pending page moves on to the trust prompt only for a device no longer locked; a new udid gets a pending page with the prompt its lock state calls for |
| DeviceManager.DeviceManagerWidget.AddPairedDevice | src/devicemanagerwidget.cpp:137-165 | the pending page goes, then the device is added as by `addDevice` |
| DeviceManager.DeviceManagerWidget.SetCurrentDevice | src/devicemanagerwidget.cpp:190-212 | the udid already shown, or one without an entry, changes nothing; otherwise it becomes current and `deviceChanged` is emitted |
| DeviceManager.DeviceManagerWidget.RemoveDeviceAsWritten | src/devicemanagerwidget.cpp:167-188 | reading an unknown udid first files a null entry for it; only an entry with both pointers is removed, and then the first remaining udid in key order becomes current; when no device remains the current udid and the announcements stay as they were |
| DeviceManager.DeviceManagerWidget.RemoveDevice | src/devicemanagerwidget.cpp:167-188 | corrected removal: an unknown udid changes nothing; a device's entry is removed, the first remaining udid in key order becomes current, and when the last device goes no udid is current any more |
| DeviceManager.DeviceManagerWidget.OnDeviceAdded | src/devicemanagerwidget.cpp:12-17 | the device gets a page unless an entry is already filed, becomes current, `deviceChanged` is announced only when it was not current already, and the "no devices" view is refreshed |
| DeviceManager.DeviceManagerWidget.OnDeviceRemovedAsWritten | src/devicemanagerwidget.cpp:19-23 | a device's entry is removed and the "no devices" view refreshed; when the last device goes its udid stays current |
| DeviceManager.DeviceManagerWidget.OnDeviceRemoved | src/devicemanagerwidget.cpp:19-23 | the handler with the corrected removal: the entry goes, the view is refreshed, and after the last device no udid is current |
| DeviceManager.ReplugAsWritten | src/devicemanagerwidget.cpp:190-194 | as written, the only device unplugged and plugged back in is announced once: the second `setCurrentDevice` returns early because the stale udid is still current |
| DeviceManager.Replug | src/devicemanagerwidget.cpp:167-212 | with the corrected removal the re-plugged device is selected and announced again |
| DeviceManager.LockedOutAfterStrayRemoval | src/devicemanagerwidget.cpp:84-89 | after a removal for an unknown udid the as-written manager never gives that device a page |
| DeviceManager.PageAfterStrayRemoval | src/devicemanagerwidget.cpp:84-107 | with the intended removal the same sequence gives the device its page |
| Network.AddIfAbsentShape | src/core/services/avahi/avahi_service.cpp:206-217 | after the "add unless already present" step the device is listed, the old list is an unchanged prefix, the list grows by one exactly when no equal device was there, and a duplicate-free list stays duplicate-free |
| Network.RemoveNamed | src/core/services/avahi/avahi_service.cpp:146-149 | removal by service name never lengthens the list |
| Network.RemoveNamedMembers | src/core/services/dnssd/dnssd_service.cpp:129-132 | a device remains after removal by name exactly when it was listed under another name |
| Network.RemoveNamedDistinct | src/core/services/avahi/avahi_service.cpp:146-149 | removal by name keeps a duplicate-free list duplicate-free |
| Network.DevicePort | src/core/services/dnssd/dnssd_service.cpp:251 | a device's port is never 0: the advertised port when there is one, the SSH port 22 otherwise |
| Network.NtohsReadsBigEndian | src/core/services/dnssd/dnssd_service.cpp:156 | the port bytes as they arrive, most significant first, read back as the port they encode |
| Network.NtohsInvolutive | src/core/services/dnssd/dnssd_service.cpp:156 | converting twice between network and host order restores the port |
| Network.Ntohs | src/core/services/dnssd/dnssd_service.cpp:156 | the two bytes of the port change places |
| Network.SplitPair | src/core/services/dnssd/dnssd_service.cpp:171-176 | a record splits exactly when it holds a `=`; the key holds no `=`, and key, `=` and value rebuild the record |
| Network.SplitPairUnique | src/core/services/dnssd/dnssd_service.cpp:171-174 | key and value are determined by the record: any `=`-free key followed by `=` and a value is the split found |
| Avahi.GetPair | src/core/services/avahi/avahi_service.cpp:190-192 | a TXT string with `=` yields a `=`-free key and the value that rebuild it; one without yields the whole string as key and no value |
| Avahi.AvahiKeepsBareKeys | src/core/services/avahi/avahi_service.cpp:193-194 | a TXT string without `=` is still filed, as a key with the empty value |
| Avahi.AvahiTxtKeys | src/core/services/avahi/avahi_service.cpp:189-200 | the keys filed are exactly the keys of the TXT strings |
| Avahi.AvahiTxtKeyHasString | src/core/services/avahi/avahi_service.cpp:189-200 | every key filed is the key of some TXT string |
| Avahi.AvahiTxtStringFilesKey | src/core/services/avahi/avahi_service.cpp:189-200 | every TXT string's key is filed |
| Avahi.AvahiTxtSnoc | src/core/services/avahi/avahi_service.cpp:192-194 | one more TXT string files its key with its value, or the empty value, over the pairs so far |
| Avahi.AvahiTxtLastWins | src/core/services/avahi/avahi_service.cpp:189-200 | a key given by several strings keeps the value of the last string that gives it |
| Avahi.AvahiService.constructor | src/core/services/avahi/avahi_service.cpp:7-12 | a new service is stopped, holds no poll object, client or browser, and lists no device |
| Avahi.AvahiService.GetNetworkDevices | src/core/services/avahi/avahi_service.cpp:44-48 | the devices listed so far |
| Avahi.AvahiService.Cleanup | src/core/services/avahi/avahi_service.cpp:77-93 | browser, client and poll object are all released; the running flag and the list are untouched |
| Avahi.AvahiService.StartBrowsing | src/core/services/avahi/avahi_service.cpp:16-28 | a running service is left alone; otherwise a poll object that cannot be created leaves the service stopped with client and browser as they were, a client that cannot be created leaves nothing allocated, and with both the service runs and polls with a new client and the old browser |
| Avahi.AvahiService.StopBrowsing | src/core/services/avahi/avahi_service.cpp:30-42 | a stopped service is left alone; a running one stops polling, releases everything and forgets its devices |
| Avahi.AvahiService.ClientCallback | src/core/services/avahi/avahi_service.cpp:95-115 | a running client gets a browser when one can be created; a failed client stops the service; other states change nothing |
| Avahi.AvahiService.BrowseCallback | src/core/services/avahi/avahi_service.cpp:117-160 | a removed service is announced and every device of that name leaves the list; new services, failures and other events leave the list and the announcements as they were |
| Avahi.AvahiService.ReadTxt | src/core/services/avahi/avahi_service.cpp:189-200 | the loop over the TXT list files each string's key with its value or the empty value, later strings overriding earlier ones |
| Avahi.AvahiService.ResolveCallback | src/core/services/avahi/avahi_service.cpp:162-224 | a found service becomes a device with its name, host, address, non-zero port and TXT pairs, which is appended and announced unless an equal device is listed; a failed resolution changes nothing |
| Dnssd.TxtRoundTrip | src/core/services/dnssd/dnssd_service.cpp:160-179 | parsing TXT data built from records of at most 255 bytes gives back exactly those records |
| Dnssd.TxtRecordsFit | src/core/services/dnssd/dnssd_service.cpp:165-170 | every record parsed from TXT data has fewer than 256 bytes |
| Dnssd.TxtEncodeStep | src/core/services/dnssd/dnssd_service.cpp:164-177 | the records parsed from data encode back to the data's first record, length byte included, followed by what the rest encodes to |
| Dnssd.TxtRecordsPrefix | src/core/services/dnssd/dnssd_service.cpp:164-167 | the parsed records, encoded again, are a prefix of the data: bytes from an overrunning length on are dropped |
| Dnssd.ToText | src/core/services/dnssd/dnssd_service.cpp:169-170 | the text of a record has one character per byte |
| Dnssd.TxtMapSnoc | src/core/services/dnssd/dnssd_service.cpp:171-176 | one more record files its pair over the pairs so far, or leaves them as they were when it has no `=` |
| Dnssd.TxtMapKeys | src/core/services/dnssd/dnssd_service.cpp:164-178 | the keys filed are exactly those of the records that hold a `=` |
| Dnssd.TxtLastWins | src/core/services/dnssd/dnssd_service.cpp:175 | a key given by several records keeps the value of the last record that gives it |
| Dnssd.TxtDropsBareRecord | src/core/services/dnssd/dnssd_service.cpp:172 | a record without `=` leaves the pairs unchanged |
| Dnssd.TxtRecordsAt | src/core/services/dnssd/dnssd_service.cpp:164-168 | the records from a length byte on are the record it announces, when that fits, followed by the records after it; none when it overruns |
| Dnssd.TxtDone | src/core/services/dnssd/dnssd_service.cpp:164-167 | where the loop stops, at the end of the data or at an overrunning record, every record of the data has been filed |
| Dnssd.TxtStateStep | src/core/services/dnssd/dnssd_service.cpp:165-177 | filing the record at the current length byte and moving past it keeps the loop's account of the records filed so far |
| Dnssd.ParseNextRecord | src/core/services/dnssd/dnssd_service.cpp:165-177 | one pass of the loop files the next record's pair and moves the position past that record |
| Dnssd.ParseTxt | src/core/services/dnssd/dnssd_service.cpp:160-179 | the pairs filed are those of the records the TXT data holds, in order, each record with a `=` setting its key |
| Dnssd.OnHost | src/core/services/dnssd/dnssd_service.cpp:226-232 | exactly the pending services reported on the host |
| Dnssd.DnssdService.constructor | src/core/services/dnssd/dnssd_service.cpp:16-20 | a new service is stopped, browses nothing and has no device and no pending entry |
| Dnssd.DnssdService.GetNetworkDevices | src/core/services/dnssd/dnssd_service.cpp:62-66 | the devices listed so far |
| Dnssd.DnssdService.StartBrowsing | src/core/services/dnssd/dnssd_service.cpp:24-46 | a running service is left alone; otherwise it runs exactly when the browse was accepted |
| Dnssd.DnssdService.StopBrowsing | src/core/services/dnssd/dnssd_service.cpp:48-60 | a stopped service is left alone; a running one stops and forgets its devices and pending entries |
| Dnssd.DnssdService.BrowseCallback | src/core/services/dnssd/dnssd_service.cpp:88-135 | with an error or an added service nothing changes; a removal is announced under the bare service name, and only devices and pending entries filed under that bare name go |
| Dnssd.FullName | src/core/services/dnssd/dnssd_service.cpp:139-150 | the name a resolution reports starts with the instance name and a dot, so it never equals the bare instance name the browser reports |
| Dnssd.DnssdService.BrowseCallbackIntended | src/core/services/dnssd/dnssd_service.cpp:123-134 | corrected removal: it is announced under the full name, and the device and pending entry filed under the full name go |
| Dnssd.RemovalMissesResolved | src/core/services/dnssd/dnssd_service.cpp:124-133 | a removal by bare name keeps every device listed under the full name a resolution reports |
| Dnssd.DnssdService.ResolveCallback | src/core/services/dnssd/dnssd_service.cpp:137-181 | a resolution files the service as pending under its full name, with its host, its port in host order, its interface and the pairs of its TXT data; an error changes nothing |
| Dnssd.DnssdService.PendingFor | src/core/services/dnssd/dnssd_service.cpp:224-232 | no result exactly when no pending service is on the host; otherwise the first such service in key order |
| Dnssd.DnssdService.AddrInfoCallback | src/core/services/dnssd/dnssd_service.cpp:208-273 | the first pending service on the host becomes a device at the address with a non-zero port, appended and announced unless an equal device is listed, and leaves the pending entries; without such a service, with one under the empty name, or on an error nothing changes |
| Dnssd.ResolveTwice | src/core/services/dnssd/dnssd_service.cpp:258-267 | a second resolution and address reply for a device already listed leaves exactly one device |
| Dnssd.ResolvedService | src/core/services/dnssd/dnssd_service.cpp:137-269 | a service resolved and its address found is listed once, under its full name, with the SSH port for port 0, and leaves no pending entry |
| Dnssd.RemovedServiceStaysAsWritten | src/core/services/dnssd/dnssd_service.cpp:124-133 | as written, the removal of a resolved service leaves its device listed |
| Dnssd.RemovedServiceGoes | src/core/services/dnssd/dnssd_service.cpp:124-133 | with the corrected removal the device goes |
| InstallIpa.StatusFlags | src/core/services/install_ipa.cpp:61-65 | the completion flag is set after a sequence of status callbacks exactly when some well-formed one reported "Complete", and the error flag exactly when some well-formed one carried an error name; neither is ever reset |
| InstallIpa.StatusLast | src/core/services/install_ipa.cpp:114-115 | the last status kept is the status name (possibly none) of the last well-formed callback |
| InstallIpa.InstallStatus.constructor | src/core/services/install_ipa.cpp:293 | the status data starts with both flags clear and no last status |
| InstallIpa.InstallStatus.StatusCallback | src/core/services/install_ipa.cpp:50-123 | a well-formed callback sets the completion flag on "Complete", the error flag on an error name, and replaces the last status; one without command or status changes neither |
| InstallIpa.WaitForInstall | src/core/services/install_ipa.cpp:509-517 | the wait never ends when no report is decisive; otherwise it ends at the first decisive report and the installation failed exactly when that report carried an error |
| InstallIpa.Locate | src/core/services/install_ipa.cpp:130 | the index of the first entry with the name, or -1 exactly when there is none |
| InstallIpa.ZipGetContents | src/core/services/install_ipa.cpp:125-170 | the result is one of 0, -1 … -5; -1 exactly when no entry has the name; 0 exactly when the entry stats, is at most 10 MiB, opens and reads in full, and then the buffer holds the entry's stated number of bytes; every failure leaves no buffer and length 0 |
| InstallIpa.ContentsTooLargeFirst | src/core/services/install_ipa.cpp:146-149 | an entry larger than 10 MiB is reported as too large (-3) whatever the later checks would say |
| InstallIpa.SlashFrom | src/core/services/install_ipa.cpp:192-197 | the position found holds the first `/` at or after the start; none means there is no `/` from the start on |
| InstallIpa.AppDirOf | src/core/services/install_ipa.cpp:186-207 | an app directory found is a prefix of the entry name of at least 12 characters: `Payload/`, a component not starting with `.` and free of `/`, ending in `.app/` |
| InstallIpa.AppDirOfInside | src/core/services/install_ipa.cpp:186-207 | every name inside an app directory names exactly that directory |
| InstallIpa.SlashAt | src/core/services/install_ipa.cpp:193-197 | the scan stops at the first `/` after the start |
| InstallIpa.InfoPlistInsideApp | src/core/services/install_ipa.cpp:403-407 | the `Info.plist` name built from the app directory lies in that same directory |
| InstallIpa.SinfInsideApp | src/core/services/install_ipa.cpp:443-444 | for a plain executable name, the SINF name built lies in the app directory named after the executable |
| InstallIpa.FirstAppDirIsFirst | src/core/services/install_ipa.cpp:180-225 | no app directory is found exactly when no entry names one; otherwise the directory found is that of an entry such that no earlier entry names one |
| InstallIpa.FirstAppDirSkip | src/core/services/install_ipa.cpp:199-208 | an entry naming no app directory can be skipped without changing the answer |
| InstallIpa.ScanOverruns | src/core/services/install_ipa.cpp:193-201 | for a name with no further `/`, the scan as written runs past the end of the name, where the corrected scan reports no `/` |
| InstallIpa.PayloadFileAhead | src/core/services/install_ipa.cpp:186-201 | with a plain file directly under `Payload/` ahead of the app, the scan as written leaves the name, while the corrected search still finds `Payload/Demo.app/` |
| InstallIpa.FindSlash | src/core/services/install_ipa.cpp:192-201 | the loop finds the first `/` from the start, or reports none at the end of the name |
| InstallIpa.AppDirectory | src/core/services/install_ipa.cpp:172-232 | the directory of the first entry naming an app directory, with code 0, or no directory and -1 |
| InstallIpa.Taken | src/core/services/install_ipa.cpp:262 | what the device takes from a write is a prefix of what was sent |
| InstallIpa.AsWrittenResends | src/core/services/install_ipa.cpp:259-268 | as written, two one-byte writes of a two-byte chunk count as complete while the device file holds the first byte twice |
| InstallIpa.AsWrittenSpinsOnZeroWrites | src/core/services/install_ipa.cpp:259-267 | as written, however many successful writes of no bytes the device answers, the loop counts nothing and sends nothing: it only stops when the answers change |
| InstallIpa.WriteChunk | src/core/services/install_ipa.cpp:258-268 | the corrected inner loop (each retry passes `buf + total`, and a write of no bytes ends it) computes the write-loop function: it consumes replies in order, stops at a failed or empty write or when the chunk is written, and the device holds exactly the chunk's first bytes counted |
| InstallIpa.ChunkFrom | src/core/services/install_ipa.cpp:258-268 | the corrected inner loop never counts more than the chunk, never goes back in the replies, and moves past a reply only when it wrote at least one byte, so it makes at most one call per byte whatever the device answers |
| InstallIpa.ChunkInOneWrite | src/core/services/install_ipa.cpp:258-268 | a reply that takes a whole chunk writes it in one call |
| InstallIpa.ReadAmount | src/core/services/install_ipa.cpp:255-256 | each `fread` takes a full 1 MiB buffer or what is left of the file, and at least one byte |
| InstallIpa.UploadFromStep | src/core/services/install_ipa.cpp:255-276 | one chunk: an incomplete write ends the upload with -1 and what the device took of the chunk; a complete one continues after it |
| InstallIpa.UploadFromOutcome | src/core/services/install_ipa.cpp:255-282 | the chunk loop reports 0 or -1, the device holds a prefix of the file's rest, and 0 exactly when it holds all of it |
| InstallIpa.AcceptingDeviceGetsAll | src/core/services/install_ipa.cpp:255-282 | a device that takes every write whole, with a reply for every chunk, receives the rest of the file with code 0 |
| InstallIpa.UploadChunks | src/core/services/install_ipa.cpp:255-278 | the chunk loop computes the upload function once both files are open |
| InstallIpa.UploadLoopStep | src/core/services/install_ipa.cpp:255-276 | one pass of the chunk loop: an incomplete write makes the whole upload -1 with the file so far plus what the device took of the chunk; a complete one leaves the upload equal to the file so far before the rest of the loop |
| InstallIpa.UploadFile | src/core/services/install_ipa.cpp:234-283 | with the corrected retry (`buf + total`), computes the upload function over the bytes the `fread` calls deliver, as written without `ferror`: the result is 0 or -1, -1 with nothing sent when the local or the device file cannot be opened, 0 exactly when the device file received everything read, and what it received is a prefix of what was read |
| InstallIpa.ReadErrorReportsSuccess | src/core/services/install_ipa.cpp:255-282 | as written, a `fread` that fails before the end of the file ends the loop like the end of the file: with a device taking every write, the upload returns 0 although the device holds only a proper prefix of the file |
| InstallIpa.UploadFileChecked | src/core/services/install_ipa.cpp:234-283 | the upload with the corrected retry and the read error checked: 0 or -1, -1 with nothing sent when a file cannot be opened, and 0 exactly when the device file received the whole local file, of which it always holds a prefix |
| InstallIpa.AcceptingDeviceUploads | src/core/services/install_ipa.cpp:234-283 | with both files open and every read good, a device that takes every write whole receives the package and the checked upload returns 0 |
| InstallIpa.NamesOf | src/core/services/install_ipa.cpp:175-182 | the archive's entry names, in index order |
| InstallIpa.StageArchive | src/core/services/install_ipa.cpp:349-491 | invalid argument exactly when the package cannot be stat'ed or opened, has no app directory, or its `Info.plist` does not read, parse or name an executable; otherwise the package is copied to `PublicStaging/<bundle id>` by the corrected, read-checked upload, success exactly when that upload returns 0, the device holds what the upload sent, and on success the package arrived whole and the options hold the identifier, the SINF and the metadata found |
| InstallIpa.StagingPathsApart | src/core/services/install_ipa.cpp:463-466 | packages with different bundle identifiers are staged under different names |
| InstallIpa.InstallIpa | src/core/services/install_ipa.cpp:285-526 | null arguments are an invalid argument, a failed handshake or service start a failed operation, and a failed proxy client its own error, each before anything is staged; once installation was requested the call waits forever when no report is decisive, and otherwise fails exactly when the first decisive report carried an error; with the corrected, read-checked upload, success means the package arrived whole |
| SetLocation.BE32 | src/core/services/set_location.cpp:96 | a 32-bit word in network order is four bytes |
| SetLocation.ReadBE32 | src/core/services/set_location.cpp:103-104 | four bytes read as a big-endian word give an unsigned 32-bit value |
| SetLocation.ReadWritten | src/core/services/set_location.cpp:103-104 | reading back a word written in network order gives the number written |
| SetLocation.WrittenRead | src/core/services/set_location.cpp:103-108 | every four bytes are the network-order form of the word they encode |
| SetLocation.Payload | src/core/services/set_location.cpp:99 | the coordinates message is 4 + latitude length + 4 + longitude length bytes long |
| SetLocation.PayloadLayout | src/core/services/set_location.cpp:102-109 | the latitude's length word, the latitude, the longitude's length word and the longitude sit at offsets 0, 4, 4 + latitude length and 8 + latitude length |
| SetLocation.PayloadRoundTrip | src/core/services/set_location.cpp:99-112 | a receiver reading two length-prefixed fields recovers the latitude and longitude exactly |
| SetLocation.DecodedIsPayload | src/core/services/set_location.cpp:99-112 | any message such a receiver reads as two fields is the message built from them |
| SetLocation.CopyInto | src/core/services/set_location.cpp:104-109 | a copy into the buffer writes the source bytes at the offset and leaves every other byte as it was |
| SetLocation.BuildPayload | src/core/services/set_location.cpp:99-109 | the buffer filled piece by piece is a new array holding exactly the coordinates message |
| SetLocation.SetLocation | src/core/services/set_location.cpp:53-126 | the call succeeds exactly when the handshake, the service start and the client creation succeed; a failure sends nothing; a success sends the mode word 0 (set location) and then the coordinates message |
| DeviceImage.WallpaperVersion | src/deviceimagewidget.cpp:56-99 | iOS 18 and later share the `ios18` wallpaper, versions 4 to 17 each have their own, and anything older or unknown falls back to `ios26` |
| DeviceImage.WallpaperPathIdentifies | src/deviceimagewidget.cpp:56-99 | two versions load the same wallpaper file exactly when they share a wallpaper |
| DeviceImage.ParseInt32 | src/deviceimagewidget.cpp:147 | a number is accepted only inside the 32-bit `int` range |
| DeviceImage.IosVersion | src/deviceimagewidget.cpp:132-155 | a reported packed version gives its major byte (bits 16 to 23); without one, a product version whose first part is no number gives 0 |
| DeviceImage.IosVersionFromText | src/deviceimagewidget.cpp:141-150 | a product version starting with a major number and a `.` reads back as that number |
| DeviceImage.IosVersionFromPacked | src/deviceimagewidget.cpp:136-138 | a version packed as major, minor and patch bytes, major in bits 16 to 23, gives its major number back |
| DeviceImage.MockupName | src/deviceimagewidget.cpp:101-130 | the mockup chosen for a name is always one of the shipped mockups |
| DeviceImage.MockupNameAmong | src/deviceimagewidget.cpp:101-130 | when every rule names a shipped mockup, so does the rule chain |
| DeviceImage.FirstRuleWins | src/deviceimagewidget.cpp:105-125 | the first rule whose pattern occurs in the name, compared case-insensitively, decides the mockup |
| DeviceImage.NoRuleGivesX | src/deviceimagewidget.cpp:126-129 | a name matched by no rule gets the iPhone X mockup |
| DeviceImage.NameWithoutSpaceGivesX | src/deviceimagewidget.cpp:47-54 | every pattern holds a space, so a name without one, such as a one-word name, always gets the iPhone X mockup |
| DeviceImage.MockupPathIdentifies | src/deviceimagewidget.cpp:101-130 | two names load the same mockup file exactly when the rules give them the same mockup |
| DeviceImage.ScreenRect | src/deviceimagewidget.cpp:233-254 | a measured rectangle exists exactly for the shipped mockups, and each lies at non-negative coordinates with a positive size |
| DeviceImage.EveryMockupHasScreen | src/deviceimagewidget.cpp:233-254 | every mockup the rules can choose has a measured, non-empty screen rectangle, so the proportional fallback is never taken |
| DeviceImage.LeftEnd | src/deviceimagewidget.cpp:188-190 | the left scan never passes its start |
| DeviceImage.RightEnd | src/deviceimagewidget.cpp:193-195 | the right scan ends between its start and the last column |
| DeviceImage.TopEnd | src/deviceimagewidget.cpp:198-200 | the upward scan never passes its start |
| DeviceImage.BottomEnd | src/deviceimagewidget.cpp:203-205 | the downward scan ends between its start and the last row |
| DeviceImage.LeftEndStops | src/deviceimagewidget.cpp:188-190 | the left scan stops at the image edge or at the first opaque pixel, crossing only transparent ones |
| DeviceImage.RightEndStops | src/deviceimagewidget.cpp:193-195 | the right scan stops at the image edge or at the first opaque pixel, crossing only transparent ones |
| DeviceImage.TopEndStops | src/deviceimagewidget.cpp:198-200 | the upward scan stops at the image edge or at the first opaque pixel, crossing only transparent ones |
| DeviceImage.BottomEndStops | src/deviceimagewidget.cpp:203-205 | the downward scan stops at the image edge or at the first opaque pixel, crossing only transparent ones |
| DeviceImage.ScreenArea | src/deviceimagewidget.cpp:164-180 | an empty image gives the null rectangle, and an opaque centre a fallback rectangle inside the image |
| DeviceImage.ScreenAreaInside | src/deviceimagewidget.cpp:182-207 | for a non-empty image with a transparent centre, the screen found starts one pixel past the frame, no further than one past the centre, and ends two pixels short of the far edges |
| DeviceImage.FindScreenArea | src/deviceimagewidget.cpp:164-208 | the loops compute the null rectangle for an empty image, the proportional fallback for an opaque centre, and otherwise the rectangle inside the frame the four scans reach |
| DeviceInfoView.NumRows | src/deviceinfowidget.cpp:266 | half the items rounded up: enough rows for two items each, and no more than that |
| DeviceInfoView.DistributeItems | src/deviceinfowidget.cpp:266-282 | the loop fills exactly the cells of the grid's occupied rows and columns, each even column with its item's key label and each odd one with its value |
| DeviceInfoView.PlacedExactlyOnce | src/deviceinfowidget.cpp:266-282 | every item appears once: its key label in one cell, its value just right of it, and in no other key cell |
| DeviceInfoView.SixteenItems | src/deviceinfowidget.cpp:266-282 | with the page's 16 items the grid has 8 rows, and the 9th item opens the right half |
| DeviceInfoView.ActivationView | src/deviceinfowidget.cpp:194-214 | each activation state gets its label text and colour: green "Activated", orange "Factory Activated", red "Unactivated" |
| DeviceInfoView.ActivationViewDistinct | src/deviceinfowidget.cpp:194-210 | the label text, and likewise the colour, tell the three states apart |
| DeviceInfoView.ReportedActivation | src/deviceinfowidget.cpp:194-210 | from lockdown's report to the label: "Activated" and "WildcardActivated" show green, "FactoryActivated" orange, every other text red |
| DeviceInfoView.CapacityLabel | src/deviceinfowidget.cpp:104-107 | the capacity badge ends in " GB" after at least one digit |
| DeviceInfoView.CapacityLabelReadsBack | src/deviceinfowidget.cpp:104-107 | the badge's digits read back as the capacity in decimal gigabytes, rounded down |
| DeviceInfoView.ChargingText | src/deviceinfowidget.cpp:119-121 | the status reads "Charging" exactly when the battery charges |
| DeviceInfoView.CableText | src/deviceinfowidget.cpp:149-152 | the cable reads "USB" exactly for a USB connection |
| DeviceInfoView.WattsLabel | src/deviceinfowidget.cpp:147-152 | the watts label starts with the adapter's watts in decimal |
| DeviceInfoView.WattsLabelNamesCable | src/deviceinfowidget.cpp:147-152 | the label ends in "/USB-C" exactly for type C and in "/USB" exactly for USB, and its leading digits read back as the watts |
| DeviceInfoView.HeaderFor | src/deviceinfowidget.cpp:361-374 | after an update the lightning icon is shown exactly when the status reads "Charging", that is exactly when the battery charges |
| DeviceInfoView.IconShownWhileNotCharging | src/deviceinfowidget.cpp:119-145 | as constructed, a battery that is not charging shows "Not Charging" beside a visible lightning icon until the first refresh |
| DeviceInfoView.RefreshedBattery | src/deviceinfowidget.cpp:344-348 | a refresh keeps the health, cycle count and serial number, and rereads the battery with the parser for old devices exactly when the device is old |
| DeviceInfoView.RefreshIndependentOfAge | src/deviceinfowidget.cpp:345-355 | the status text and the lightning icon after a refresh are the same whichever parser was used |
| DeviceInfoView.DeviceInfoWidget.constructor | src/deviceinfowidget.cpp:104-152 | the page shows the capacity badge and a header whose icon agrees with the charging status (the corrected constructor) |
| DeviceInfoView.DeviceInfoWidget.UpdateChargingStatusIcon | src/deviceinfowidget.cpp:361-374 | the status text and the icon follow the charging flag, and nothing else changes |
| DeviceInfoView.DeviceInfoWidget.UpdateBatteryInfo | src/deviceinfowidget.cpp:330-359 | without a diagnostics plist nothing changes; otherwise the battery is reread and the header follows it |
| Gallery.AppleAlternativeImplied | src/gallerywidget.cpp:422-427 | the album test is the same without its `^\d{3}APPLE$` alternative: a directory whose name contains "APPLE" or is eight digits |
| Gallery.AlbumFolders | src/gallerywidget.cpp:422-427 | every folder whose name ends in `APPLE` and every folder named by eight digits is an album; a file never is, nor is a folder whose name is shorter than `APPLE` |
| Gallery.AlbumOf | src/gallerywidget.cpp:429-431 | an album row carries the folder's name and the path `/DCIM/` followed by that name |
| Gallery.AlbumsExactly | src/gallerywidget.cpp:416-435 | a row is in the album list exactly when it is the row of a DCIM entry that passes the album test |
| Gallery.LoadAlbumList | src/gallerywidget.cpp:398-445 | no album list when DCIM cannot be read; otherwise one row per album folder, in listing order |
| Gallery.GalleryWidget.constructor | src/gallerywidget.cpp:34-44 | a new gallery has only an idle export manager: nothing loaded, no model, no selection, no album |
| Gallery.GalleryWidget.Load | src/gallerywidget.cpp:24-32 | the interface is built exactly once; the first call shows the album page with controls off, the back button hidden and the albums from DCIM; later calls change nothing |
| Gallery.GalleryWidget.SetControlsEnabled | src/gallerywidget.cpp:491-498 | the sort box, filter box and "Export All" follow the flag, and "Export Selected" is enabled exactly when the flag is on and there is a selection |
| Gallery.GalleryWidget.OnSelectionChanged | src/gallerywidget.cpp:457-462 | "Export Selected" is enabled exactly when the view has a selection |
| Gallery.GalleryWidget.OnAlbumSelected | src/gallerywidget.cpp:447-476 | the album becomes current and the model's album, the photo page is shown with controls and back button on, and a selection survives only when the same album is reselected |
| Gallery.GalleryWidget.OnBackToAlbums | src/gallerywidget.cpp:478-489 | the album page is shown again with controls off, "Export Selected" off, the back button hidden and no current album |
| Gallery.GalleryWidget.OnExportSelected | src/gallerywidget.cpp:178-230 | refused without a model or selection, while an export runs, with no valid paths and for a cancelled directory dialog, leaving the export manager untouched; otherwise the export is requested, and it starts, with those paths and that directory, exactly when the device is valid and the directory exists or can be made |
| Gallery.GalleryWidget.OnExportAll | src/gallerywidget.cpp:232-288 | nothing without a model; refused while an export runs, with nothing shown, when the confirmation is declined and for a cancelled directory dialog; otherwise the shown items are requested for export, starting exactly when the device is valid and the directory exists or can be made |
| InstalledApps.DisplayText | src/installedappswidget.cpp:97-101 | a tab label has at most 20 characters: a name that fits is shown whole, a longer one as its first 17 characters and "..." |
| InstalledApps.ReadApp | src/installedappswidget.cpp:378-435 | an app's identifier, display name and version are the string values under their keys (empty otherwise), file sharing is on exactly for a boolean true, and the type is that of its browse |
| InstalledApps.CollectedExactly | src/installedappswidget.cpp:368-440 | an app is kept from a browse exactly when it is read from a dictionary item with a non-empty bundle identifier, and it carries that browse's type |
| InstalledApps.CollectType | src/installedappswidget.cpp:367-441 | the loop over one browse appends exactly the apps that browse contributes, in array order |
| InstalledApps.CollectApps | src/installedappswidget.cpp:339-445 | the collected apps are those of the "User" browse followed by those of the "System" browse, each with a bundle identifier and one of the two types |
| InstalledApps.NameBeforeIsStrictWeak | src/installedappswidget.cpp:489-498 | the case-insensitive name comparator is irreflexive, asymmetric and transitive, with transitive incomparability, as `std::sort` requires |
| InstalledApps.SortAppsOrdered | src/installedappswidget.cpp:489-498 | sorting yields a permutation of the apps ordered by their display names (or bundle identifiers), compared without regard to case |
| InstalledApps.TabNameShape | src/installedappswidget.cpp:520-528 | a tab's name starts with the name the apps are sorted by and is never empty for an app with a bundle identifier; a system app's name ends in " (System)", any other app's is exactly as long as its sort name |
| InstalledApps.TabsFor | src/installedappswidget.cpp:506-531 | at most one tab per app, and exactly one per app when file sharing is not required |
| InstalledApps.TabsForExactly | src/installedappswidget.cpp:515-531 | a tab is made exactly for each app that passes the file-sharing filter, unselected and visible |
| InstalledApps.TabMatchesIgnoringCase | src/installedappswidget.cpp:586-606 | an empty search shows every tab; otherwise a tab shows exactly when its lower-cased name or bundle identifier contains the lower-cased text |
| InstalledApps.TypingNarrows | src/installedappswidget.cpp:593-602 | typing one more character never shows a tab that was hidden |
| InstalledApps.ContainsPrefix | src/installedappswidget.cpp:600-601 | a text containing a string contains each of its prefixes |
| InstalledApps.SystemTextFindsSystemApps | src/installedappswidget.cpp:526-528 | searching for "(system)" finds every system app's tab |
| InstalledApps.AtMostOneSelected | src/installedappswidget.cpp:569-578 | at most one tab is selected, and it is the one the widget remembers |
| InstalledApps.AsWrittenTabList | src/installedappswidget.cpp:550-558 | as written, creating n tabs lists 2n entries |
| InstalledApps.DeletionsOfPair | src/installedappswidget.cpp:501 | a tab listed twice is deleted twice by `qDeleteAll`, and no other tab is |
| InstalledApps.AsWrittenDeletesTwice | src/installedappswidget.cpp:500-558 | as written, the next reload deletes every tab twice |
| InstalledApps.AsWrittenNeverHolds | src/installedappswidget.cpp:550-558 | as written, the tab list holds no tab that was not created |
| InstalledApps.TabList | src/installedappswidget.cpp:550 | with one append per tab, the list holds the n tabs once each, in order |
| InstalledApps.EachTabDeletedOnce | src/installedappswidget.cpp:500-558 | with one append per tab, the reload deletes every tab exactly once |
| InstalledApps.TabListMisses | src/installedappswidget.cpp:550 | the corrected list holds no tab that was not created |
| InstalledApps.InstalledAppsWidget.constructor | src/installedappswidget.cpp:162-198 | the widget starts loading, with no tabs, no selection and the file-sharing box checked |
| InstalledApps.InstalledAppsWidget.CreateAppTab | src/installedappswidget.cpp:542-559 | the new tab, unselected and visible, is appended once at the end, and nothing else changes |
| InstalledApps.InstalledAppsWidget.SelectAppTab | src/installedappswidget.cpp:569-584 | the chosen tab is the only selected one and is remembered; with a valid device its container is loaded; the tabs are otherwise unchanged |
| InstalledApps.InstalledAppsWidget.FilterApps | src/installedappswidget.cpp:586-606 | each tab's visibility becomes the outcome of the search test, and nothing else changes |
| InstalledApps.InstalledAppsWidget.MakeTabs | src/installedappswidget.cpp:505-531 | from no tabs, the loop makes exactly the tabs for the apps, in order, with none selected |
| InstalledApps.InstalledAppsWidget.OnAppsDataReady | src/installedappswidget.cpp:470-540 | a failed job shows its error ("Unknown error" without one) and an empty result "No apps found", leaving the tabs; otherwise the content is shown with one tab per sorted app that passes the filter, the first selected and its container loaded |
| InstalledApps.NonDotSnoc | src/installedappswidget.cpp:740-745 | one more name from the listing is kept exactly when it is neither "." nor ".." |
| InstalledApps.ListFiles | src/installedappswidget.cpp:738-747 | no files for a null listing; otherwise the listed names other than "." and "..", in order |
| DiskUsage.AppsTotalSplit | src/diskusagewidget.cpp:211-233 | the apps' usage adds up over any split of the browse result |
| DiskUsage.IgnoredAppAddsNothing | src/diskusagewidget.cpp:213-232 | a null item, or one whose usage values are not unsigned integers, adds nothing to the total |
| DiskUsage.WrapAdd | src/diskusagewidget.cpp:216-232 | adding to a counter that wrapped at 2^64 wraps like adding to the exact sum |
| DiskUsage.AddApp | src/diskusagewidget.cpp:216-232 | one app adds its static and dynamic usage to the counter, modulo 2^64 |
| DiskUsage.SumAppsUsage | src/diskusagewidget.cpp:166-237 | the apps counter is the exact sum of all apps' static and dynamic usage, modulo 2^64 |
| DiskUsage.MediaUsage | src/diskusagewidget.cpp:241-253 | without the iTunes domain the media usage is 0 |
| DiskUsage.FetchUsage | src/diskusagewidget.cpp:151-256 | an invalid device, a failed handshake and a missing installation proxy client each give their own error text; otherwise the capacities, the wrapped apps total (0 when the browse fails) and the media size are returned |
| DiskUsage.OthersFillBar | src/diskusagewidget.cpp:136-143 | when nothing wraps, the system, apps, media, others and free shares add up to the capacity exactly when it covers the known ones, and "others" is 0 otherwise |
| DiskUsage.OthersUsage | src/diskusagewidget.cpp:136-143 | the others share never exceeds the capacity; it is 0 exactly when the wrapped sum of free space and known usage reaches the capacity, and otherwise it and that sum make up the capacity |
| DiskUsage.DiskUsageWidget.constructor | src/diskusagewidget.cpp:13-20 | the widget starts loading with every value 0 |
| DiskUsage.DiskUsageWidget.OnFinished | src/diskusagewidget.cpp:123-149 | an error result shows its message and keeps the values; otherwise the values are taken from the result, "others" is derived from them and the widget is ready |
| DiskUsage.DiskUsageWidget.Paint | src/diskusagewidget.cpp:24-118 | a bar is drawn exactly when the widget is ready and the capacity is not 0, and every segment drawn is non-empty |
| DiskUsage.NonZero | src/diskusagewidget.cpp:66-74 | only non-zero segments are drawn, and never more than there are values |
| DiskUsage.NonZeroKeepsSum | src/diskusagewidget.cpp:66-91 | leaving out the zero segments keeps the width the bar covers |
| Sorting.SortSorted | src/photomodel.cpp:536 | sorting with a strict weak order yields a permutation of the input that no later element precedes an earlier one in |
| Sorting.InsertSorted | src/installedappswidget.cpp:489 | inserting into a sorted sequence keeps it sorted and adds only the new element |
| Text.Trim | src/mediastreamer.cpp:134-135 | the trimmed text is a slice of the original starting and ending with a non-space, and everything cut before and after it is whitespace |
| Text.Lower | src/mediastreamer.cpp:136 | lower-casing keeps the length and folds each character on its own |
| Text.LowerIdempotent | src/mediastreamer.cpp:136 | folding twice is folding once |
| Text.Split | src/mediastreamer.cpp:112 | splitting always yields at least one piece |
| Text.JoinSplit | src/mediastreamer.cpp:112 | the pieces, joined with the separator, give back the text |
| Text.SplitPiecesAvoidSeparator | src/mediastreamer.cpp:112 | no piece contains the separator |
| Text.ParseInt64 | src/mediastreamer.cpp:150 | a number read is inside the signed 64-bit range |
| Text.ParseIntToString | src/mediastreamer.cpp:150 | the decimal text of every signed 64-bit number reads back as that number |
| Text.ParseEmpty | src/mediastreamer.cpp:150 | the empty text is no number |
| Text.LastIndexOfIsLast | src/photoexportmanager.cpp:219-227 | the position found holds the last occurrence of the character |
| Text.NatToStringValue | src/deviceinfowidget.cpp:104-107 | the decimal text of a number reads back as that number |
| Text.StringLessTrichotomy | src/core/services/dnssd/dnssd_service.cpp:226-232 | the key order is irreflexive, asymmetric and total on distinct texts |
| Text.FirstKey | src/core/services/dnssd/dnssd_service.cpp:226-232 | the key chosen is the least of the keys in map order |
| Bytes.Wrap64 | src/diskusagewidget.cpp:222 | an unsigned 64-bit counter keeps every value that fits in 64 bits unchanged |
| Bytes.ToInt32 | src/core/services/init_device.cpp:87 | a conversion to a 32-bit `int` lands in its range and keeps every value below 2^31 |

## Left out

- Concurrency is not modelled, because the model is sequential. This covers QtConcurrent, QThread, QFutureWatcher, `std::recursive_mutex`, QMutex and `std::atomic`. The gateway's lock is a depth counter, and cancel flags are plain booleans whose first observation is an oracle index.
- Timers and async callbacks are not modelled: `QTimer::singleShot`, the 30-second pending expiry and the install busy-wait. They become explicit events or methods the caller invokes.
- The event loop is not modelled: `select()` waits and time-outs in DNS-SD, and Avahi polling. These are events that drive the modelled state.
- Native library calls and file-system results are oracles (flags, plists, reply sequences), because their code is not part of this model.
- When a reply sequence runs out before its loop ends, the model counts that as a failed read or write. The native libraries have no such bound.
- The socket is not modelled. `QTcpServer` listening, `waitForDisconnected` and the socket's write buffer become a connected flag and a pending-bytes counter.
- Floating point is not modelled:
  - the disk-bar segment widths and `drawSegment` scaling;
  - the fallback rectangles of the screen-area scan and the mockup table;
  - the splitter alpha fades.
- DeviceImage.FindScreenArea: the `width * 0.1` style margin is computed with integer division in place of floating point.
- Qt presentation is not modelled: widget construction, styles, icons, layouts, dialogs, message boxes and painting. Only the values shown (label texts, visibility, enabled flags, the tabs listed) are kept.
- Text handling is ASCII only: `toLower`, case-insensitive comparison, `trimmed` and the `\d` class, because the model holds no Unicode tables. Characters are Dafny `char`s, so text coming from UTF-8 bytes with `QString::fromUtf8` is modelled only for ASCII.
- Sorting.SortSorted: `std::sort` is not stable, so only "ordered and a permutation" is proved. The model fixes one such order, insertion sort, and does not claim that order is the one the library produces.
- Media is not modelled: QPixmap scaling, HEIC decoding, video thumbnails, and AirPlay/V4L2.
- PhotoModel: the MD5 thumbnail cache key is stood in for by the tuple it hashes, because hashing is not part of the model.
- Clock and file times are not modelled: QDateTime construction, `setFileTime`, and the current-time fallback for a photo without a date. A date becomes an integer parameter.
- InstallIpa's archive is a sequence of entries (name, stat result, size, open result, bytes read), because libzip is not part of this model.
- InstallIpa does not model `asprintf` out-of-memory results, memory leaks, the warning-only creation of the staging directory, or console output.
- InstallIpa.InstallIpa: the zip is opened before the arguments are checked (install_ipa.cpp:304). The model checks the arguments first and treats the archive as given.
- InstalledApps does not model the session setup of `fetchInstalledApps` and `loadAppContainer`, nor the file-sharing checkbox handler beyond its effect on `MakeTabs`, because both only start native sessions and refetch.
- DiskUsage: the job creates the installation proxy client twice. Only the second creation decides the outcome, so only that one is modelled.
- MediaStreamer: the defaults of a request that was never parsed are taken as the struct's initial values.
- SetLocation.SetLocation requires the text of both coordinates to fit the 32-bit length words and the `int` total length (`Fits`). The C code would truncate longer input, which no coordinate text reaches.
- Gallery: the paths selected in the photo view and the paths the filter keeps are parameters, because the view selection is Qt state.
- Avahi's string-list memory management is not modelled. The resolved address is a string parameter, because `inet_ntop` and `avahi_address_snprint` are foreign calls.
- AppContext: `removeDevice` deletes the device's mutex while its `lock_guard` is live, and never clears `afcClient`, so the gateway's re-check cannot see the teardown (appcontext.cpp:183-189). This is a memory-safety defect, not modelled because the model has no object lifetimes.
- SetLocation: the failure paths free the caller's `idevice_t` (set_location.cpp:64-76 and 88). This is a memory-safety defect, not modelled for the same reason, and the return values are kept.
- ExportManager: `exportSingleItem` calls `safeAfcGetFileInfoPlist` and `altAfc` overloads that `servicemanager.h` does not declare. The model takes their answers (the stat plist, the open result code) as oracles, without a separate gateway member.
- DnssdService: the TXT records parsed in `resolveCallback` are discarded by the source after parsing. The model parses them and proves the parse, but does not carry them into the `NetworkDevice`.
- RFC 6763 section 6.4 deviations are reproduced, not fixed. A key that occurs twice keeps its last value (`Dnssd.TxtLastWins`), where the standard says the first occurrence wins. A record without `=` is dropped by DNS-SD (`Dnssd.TxtDropsBareRecord`) and filed with an empty value by Avahi (`Avahi.AvahiKeepsBareKeys`), where the standard treats it as a boolean attribute.
- RFC 7233 deviations are reproduced, not fixed. A suffix range `bytes=-N` (section 2.1) is read as the prefix `0-N`, and a header with several ranges is ignored, as the streamer does.
- PhotoModel: the thumbnail `QCache` is set to 50 MB (photomodel.cpp:29) and may evict entries at any time. The model's cache evicts nothing, so a thumbnail once loaded stays until the cache is cleared.
- Dnssd.FullName: DNS-SD escapes '.' and '\\' inside an instance name when it builds the full name. The model concatenates the parts unescaped, which agrees for the names Apple devices announce.
- Paths.CandidateName: `QString("%1_%2").arg(baseName).arg(counter)` re-reads the text the first `arg` put in, so a base name holding a place marker such as `%1` or `%2` has the counter put inside it too (base name `a%1` gives `a1_%2`). The model puts each argument in once, so it agrees with the source only for base names without `%` followed by a digit.
- Paths.CandidateNameShape: states the renaming for the model's one-pass substitution; for a base name holding a `%`-digit marker the source's name differs, as the line above says.
- Paths.UniqueOutputPathRule: the candidates it is stated over are the model's `CandidateName`s, exact only for base names without a `%`-digit marker.
- Paths.GenerateUniqueOutputPath: tries the model's `CandidateName`s, exact only for base names without a `%`-digit marker.
- ExportManager.ExportSingleItem: the open and create failure texts are built with chained `arg` calls (exportmanager.cpp:271-283), so a `%`-digit marker inside the device or output path is replaced again by the next argument. The model's texts put each path in verbatim. Its output path comes from `GenerateUniqueOutputPath`, with the same limit.
- PhotoExportManager.ExportSingleFile: the same chained-`arg` limit for its failure texts (photoexportmanager.cpp:145-158) and its output path.
- FileCopy.OpenFailureMessage: the device path is put in verbatim; the source's second `arg` would replace a `%`-digit marker inside it.
- FileCopy.CreateFailureMessage: the output path is put in verbatim; the source's second `arg` would replace a `%`-digit marker inside it.
- PhotoModel.PhotoModel.KeyFor: the key is the triple (path, width, height), so different paths never share a key. The source's key text `%1_%2x%3` is filled by chained `arg` calls, which re-read the path, so a path holding a marker can collide with another (paths `a%3` and `a64` both give `a64_64x64` at 64×64). This collision is not modelled.
- InstallIpa.UploadFile: a failing `fread` is taken to deliver no bytes, so reading stops at a multiple of the 1 MiB buffer. A short read just before the error, which the C library allows, is not modelled.
- AfcExplorer.ImportFileToDevice: a failing `QFile::read` is taken to deliver no bytes, so reading stops at a multiple of 4096 bytes. A short read just before the error is not modelled.
- The files `zlineedit.cpp`, `fileexportdialog.cpp`, `devicependingwidget.cpp`, `jailbrokenwidget.cpp`, `networkdeviceswidget.cpp`, `toolboxwidget.cpp`, `appswidget.cpp`, the app dialogs, `main.cpp`, device-image mounting, TSS, and battery and device-information retrieval are not part of this model. They are UI or native plumbing.


## Findings

| source | as written | input that shows it | evidently intended | confidence | as-written member | corrected member |
|---|---|---|---|---|---|---|
| src/appcontext.cpp:202-205 | after `m_recoveryDevices.remove(ecid)` the removed entry is read back with `operator[]`, which files the ECID again with a null entry | a recovery device added and then removed: the registry still holds its ECID, and the connected count stays 1 | the ECID leaves the map and the count drops by one | high (not executed) | AppContext.AppContext.RemoveRecoveryDeviceAsWritten, AppContext.AsWrittenRemovalKeepsCount, AppContext.RecoveryRoundTrip | AppContext.AppContext.RemoveRecoveryDevice, AppContext.RemovalDropsCount |
| src/devicemanagerwidget.cpp:167-188 | `removeDevice` reads `m_deviceWidgets[uuid]` before checking the key, filing a null pair for an unknown udid; `addDevice` then rejects that udid because the key is present | a removal for udid "u" that was never added, then a `deviceAdded` for "u": no page is created | an unknown udid changes nothing, and the later add creates the page | high (not executed) | DeviceManager.DeviceManagerWidget.RemoveDeviceAsWritten, DeviceManager.LockedOutAfterStrayRemoval | DeviceManager.DeviceManagerWidget.RemoveDevice, DeviceManager.PageAfterStrayRemoval |
| src/core/services/install_ipa.cpp:193-201 | the slash scan advances its pointer without testing for the terminating NUL, so a name with no `/` after `Payload/` is read past its end | an archive whose first `Payload/` entry is the file `Payload/README` | the scan stops at the end of the name and the entry is skipped | high (not executed) | InstallIpa.ScanOverruns, InstallIpa.PayloadFileAhead | InstallIpa.SlashFrom, InstallIpa.AppDirectory, InstallIpa.FirstAppDirIsFirst |
| src/core/services/install_ipa.cpp:259-268 | after a partial write the retry passes `buf` again instead of `buf + total`, so the device file repeats the start of the chunk | a two-byte chunk "ab" written one byte per call: the file receives "aa" and the upload reports success | each retry sends the bytes not yet written | high (not executed) | InstallIpa.AsWrittenResends | InstallIpa.WriteChunk, InstallIpa.UploadFile |
| src/installedappswidget.cpp:550-558 | `createAppTab` appends the new tab to `m_appTabs` twice | creating one tab: the list holds it twice, and the next reload deletes it twice | each tab is listed once and deleted once | high (not executed) | InstalledApps.AsWrittenTabList, InstalledApps.AsWrittenDeletesTwice | InstalledApps.TabList, InstalledApps.EachTabDeletedOnce, InstalledApps.InstalledAppsWidget.CreateAppTab |
| src/deviceinfowidget.cpp:119-145 | the constructor shows the lightning icon whatever the charging state; only a later battery refresh hides it | a device that is not charging: the page reads "Not Charging" beside a visible lightning icon until the first refresh | the icon is shown exactly when the battery charges, as `updateChargingStatusIcon` does | medium (not executed) | DeviceInfoView.IconShownWhileNotCharging | DeviceInfoView.DeviceInfoWidget.constructor, DeviceInfoView.HeaderFor |
| src/devicemanagerwidget.cpp:167-194 | when the last device is removed, `removeDevice` leaves its udid as the current device, and `setCurrentDevice` returns early for the current udid | the only device "u" unplugged and plugged back in: the stale udid "u" stays current, so `setCurrentDevice` returns early and `deviceChanged` is sent for the first connection only (the signal has no receiver in this source, and the new page is shown anyway because it is the only page) | removing the last device clears the current udid, so the re-plugged device is made current again | low (not executed) | DeviceManager.ReplugAsWritten, DeviceManager.DeviceManagerWidget.RemoveDeviceAsWritten | DeviceManager.Replug, DeviceManager.DeviceManagerWidget.RemoveDevice |
| src/core/services/dnssd/dnssd_service.cpp:124-133 | a removed service is looked up by its bare service name, but the resolve callback files the device and its pending entry under the full name `name._apple-mobdev2._tcp.local.` | a device resolved and later withdrawn by the browser: it stays in the device list, and the removal is announced under a name no listed device carries | the lookup uses the name the device was filed under, so it leaves the list | high (not executed) | Dnssd.RemovedServiceStaysAsWritten, Dnssd.RemovalMissesResolved | Dnssd.RemovedServiceGoes, Dnssd.DnssdService.BrowseCallbackIntended |
| src/core/services/install_ipa.cpp:255-282 | a failing `fread` returns 0, which ends the chunk loop like the end of the file, and `ferror` is never asked, so the function returns 0 | a package whose first read fails on a device that takes every write: the upload returns 0 with nothing sent | a read error after the loop is a failed upload | medium (not executed) | InstallIpa.ReadErrorReportsSuccess, InstallIpa.UploadFile | InstallIpa.UploadFileChecked, InstallIpa.AcceptingDeviceUploads, InstallIpa.StageArchive |
| src/afcexplorerwidget.cpp:414-429 | a failing `QFile::read` returns -1, which ends the loop like the end of the file, so the function returns 0 | a file whose second 4096-byte read fails: the import returns 0 with only the first piece on the device | a read of -1 after the loop is a failed import | medium (not executed) | AfcExplorer.ImportAfterReadError, AfcExplorer.ImportFileToDevice | AfcExplorer.ImportFileToDeviceChecked |
| src/core/services/install_ipa.cpp:259-267 | a successful `afc_file_write` that reports 0 bytes written leaves `total` unchanged, and the loop calls it again with the same arguments | a device that keeps answering success with 0 bytes: the loop never ends | a write of no bytes ends the chunk as a failure | low (not executed) | InstallIpa.AsWrittenSpinsOnZeroWrites | InstallIpa.ChunkFrom, InstallIpa.WriteChunk |
