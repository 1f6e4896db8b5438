# RFID attendance logging, modelled in Dafny

The repository is a set of small C++ programs that log RFID scans.
This project models their bookkeeping core:

- **The fixed-width scan record** `LogEntry`. It holds a 20-byte NUL-padded student ID and a `long long` timestamp, and it is written raw to the binary log `attendance.dat` (`AttendanceCommon`, `BinaryLog`).
- **The in-memory log store** `AttendanceSystem` (`AttendanceStore`). It records scans, reloads the binary log, searches by ID, sorts by time and exports JSON text. Two copies exist, in attendance_system.cpp and iambouttogram.cpp. They differ only in how a reload validates an ID, so the class takes a `ReloadRule` that selects one copy or the other.
- **The socket server's text logic** `RFIDServer` (`Roster`, `Server`). This covers:
  - the line-by-line roster reader;
  - the scan log and its daily CSV line;
  - the JSON export;
  - the answer to a `SCAN:` request.
- **The client** `RFIDClient` (`Client`). This covers the request it sends, how it decodes the server's reply, and the `connected` guard.
- **The lab entry/exit sequencer** in project/src/AttendanceSystem.cpp (`LabAttendance`). A scan toggles a user between entry and exit, moves the lab's occupancy and queues a log; the queue then drains into the processed logs.

Supporting modules:

- `CStrings` (`strlen`, C-string reads, `strncpy`);
- `Decimal` (`std::to_string` on integers, with a parser that reads it back);
- `Text` (`isspace`, the erase-remove idiom, `find`, splitting at a separator);
- `JsonText` (the array layout both JSON exporters write).

Each piece of state the C++ code changes in place is a `class` field: `logs` and the file image `disk` of the store, the roster, logs and daily CSV lines of the server, and the users, labs, readers, logs and queue of the lab sequencer. Each method is proved against a pure function of the old state. Properties that span several calls are proved as lemmas about those functions.

Modelling decisions:

- A C `char` is a `CChar`, a `char` below 256. The binary file is a `seq<CChar>`. The record layout is 20 ID bytes, 4 padding bytes, then the timestamp as 8 little-endian two's-complement bytes, 32 bytes in all (`RECORD_SIZE`). The program never initialises the padding, so every encoding takes the padding bytes as a parameter.
- The two reload rules are written out:
  - `ForceTerminator` (attendance_system.cpp) overwrites byte 19 with NUL and keeps the record when its C string is non-empty.
  - `RequireTerminator` (iambouttogram.cpp) keeps the record as read when `0 < strlen < 20`. A field with no NUL in its 20 bytes is dropped. In C, `strlen` would run on into the padding there, but it cannot come back below 20.
- Whether a file opens is a `bool` parameter. The bytes `recv` delivers, the clock and the roster file's lines are all parameters.
- The client's reply decoder is modelled twice: as written (`DecodeReply`, with `size_t` wrap-around made explicit) and as evidently intended (`DecodeReplyFixed`). The client class uses the intended one. See "## Findings".

## Model

| member | source | states |
|---|---|---|
| CStrings.Strlen | attendance_system.cpp:87 | `strlen` is the index of the first NUL: no NUL before it, a NUL at it unless it is the whole buffer |
| CStrings.CStr | attendance_system.cpp:116 | the C string of a buffer is a prefix of it, holds no NUL and is followed in the buffer by a NUL unless it is the whole buffer, so it is exactly the bytes before the first NUL |
| CStrings.Strncpy | attendance_common.h:24 | `strncpy` copies min(strlen(src), n) bytes and pads the rest of the n bytes with NUL |
| CStrings.TerminatedIffShort | iambouttogram.cpp:116 | a buffer holds a NUL exactly when `strlen` stops inside it |
| Decimal.NatToDecimal | attendance_system.cpp:146 | the decimal rendering is non-empty, all digits, with no leading zero |
| Decimal.IntToDecimal | attendance_system.cpp:146 | a signed rendering starts with `-` exactly when the number is negative |
| Decimal.DecimalRoundTrip | attendance_system.cpp:146 | parsing the rendered digits gives back the number |
| Decimal.IntToDecimalInjective | attendance_system.cpp:146 | distinct timestamps render as distinct text |
| AttendanceCommon.IdOf | attendance_common.h:13 | the ID read from a field is NUL-free and at most 20 bytes |
| AttendanceCommon.DefaultEntry | attendance_common.h:17-19 | the default entry has timestamp 0 and an empty ID (byte 0 NUL); bytes 1..19 keep what the storage held |
| AttendanceCommon.MakeEntry | attendance_common.h:22-26 | the `(id, ts)` constructor stores ts verbatim, copies the first min(strlen(id), 19) bytes, sets every later byte (byte 19 included) to NUL |
| AttendanceCommon.MakeEntryReadBack | attendance_common.h:22-26 | the C string read back is the first min(strlen(id), 19) bytes of the id |
| AttendanceCommon.MakeEntryPreservesShortId | iambouttogram.cpp:30-34 | a NUL-free id of at most 19 bytes reads back unchanged; a longer one reads back as its 19-byte prefix |
| AttendanceCommon.MakeEntryInjective | attendance_common.h:22-26 | two distinct accepted NUL-free ids never make the same field |
| BinaryLog.LittleEndianRoundTrip | attendance_system.cpp:47 | k little-endian bytes of a number below 256^k decode to that number |
| BinaryLog.TimestampRoundTrip | attendance_system.cpp:47 | the 8 timestamp bytes decode to the same `long long`, negatives included |
| BinaryLog.EncodeRecord | attendance_system.cpp:47 | a record is RECORD_SIZE bytes: the ID field in bytes 0..19, then the padding |
| BinaryLog.RecordRoundTrip | attendance_system.cpp:47 | reading a record back gives the entry that was written |
| BinaryLog.DecodeRecord | attendance_system.cpp:82 | reading 32 bytes into a `LogEntry`; its meaning is given by RecordRoundTrip and PaddingIgnored |
| BinaryLog.PaddingIgnored | attendance_system.cpp:82 | the padding bytes never reach the entry read back |
| BinaryLog.AppendRecord | attendance_system.cpp:42-47 | append mode creates a missing file and puts the record after the existing bytes |
| BinaryLog.ReloadRecord | attendance_system.cpp:84-88 | a record is kept iff its ID is non-empty (and, under the iambouttogram.cpp rule, NUL-terminated in its field); a kept entry has the same timestamp and a terminated ID, forced at byte 19 or unchanged |
| BinaryLog.Kept | attendance_system.cpp:87-92 | one record adds at most one entry |
| BinaryLog.Reload | attendance_system.cpp:82-93 | every reloaded entry has a non-empty, terminated ID |
| BinaryLog.ReloadWellFormed | iambouttogram.cpp:114-118 | both rules keep a constructed entry exactly when its ID is non-empty, and keep it unchanged |
| BinaryLog.RulesDifferOnUnterminated | iambouttogram.cpp:116 | a field without NUL is dropped by the iambouttogram.cpp rule and kept, cut to 19 bytes, by the attendance_system.cpp rule |
| BinaryLog.RequireImpliesForce | attendance_system.cpp:84-87 | whatever the iambouttogram.cpp rule keeps, the other rule keeps with the same ID |
| BinaryLog.NonEmptyAll | attendance_system.cpp:87 | entries that all have a non-empty ID are all kept by the filter |
| BinaryLog.ReloadEncodeLog | attendance_system.cpp:82-92 | writing constructed entries and reloading gives back, in order, exactly those with a non-empty ID, under either rule |
| BinaryLog.EncodeLog | attendance_system.cpp:41-48 | the file after appending each entry in turn holds 32 bytes per entry; ReloadEncodeLog gives its reload |
| BinaryLog.ReloadIgnoresPartialTail | attendance_system.cpp:82 | a trailing partial record does not change the reload |
| BinaryLog.ReloadAppend | attendance_system.cpp:41-49 | a file grown by one record reloads as before plus what that record keeps |
| AttendanceStore.ReadStep | attendance_system.cpp:82-92 | one more whole record read extends what was loaded by exactly what that record keeps |
| AttendanceStore.ReloadPrefixEnd | attendance_system.cpp:82 | once less than a whole record remains, what was loaded is the reload of the whole file |
| AttendanceStore.Search | attendance_system.cpp:111-121 | the result is exactly the entries whose ID equals the query's C string |
| AttendanceStore.Matches | attendance_system.cpp:116 | `strcmp` equality of the stored ID with the query's C string; Search and SearchLongQuery state its consequences |
| AttendanceStore.SearchConcat | attendance_system.cpp:114-118 | the search keeps log order |
| AttendanceStore.SearchLongQuery | attendance_system.cpp:116 | a query of 20 bytes or more matches no stored entry |
| AttendanceStore.ReadRecords | attendance_system.cpp:82-93 | the read loop's result is the reload of the whole file |
| AttendanceStore.RecordedScansRoundTrip | attendance_system.cpp:41-49 | scans with non-empty NUL-free IDs under 20 bytes, written to an empty file, reload with the same IDs and timestamps in the same order, under either rule |
| AttendanceStore.Swap | attendance_system.cpp:126 | the two elements trade places and the contents stay a permutation |
| AttendanceStore.InsertAt | attendance_system.cpp:126-128 | one insertion step extends the ordered prefix by one element and keeps the contents a permutation |
| AttendanceStore.SortByTime | attendance_system.cpp:126-128 | the array ends non-decreasing by timestamp and a permutation of its old contents |
| AttendanceStore.ExportJsonSingle | attendance_system.cpp:142-153 | a one-entry export is its block with no comma |
| AttendanceStore.EntryBlock | attendance_system.cpp:144-147 | the block written for one entry; ExportJsonSingle and ExportJsonSnoc place it in the document |
| AttendanceStore.ExportJson | attendance_system.cpp:142-153 | the document exporting writes; WriteJson, ExportJsonSingle and ExportJsonSnoc state it |
| AttendanceStore.ExportJsonSnoc | attendance_system.cpp:142-153 | appending an entry adds a comma after the previously last block and puts the new block last |
| AttendanceStore.WriteJson | attendance_system.cpp:142-153 | the write loop produces exactly the export document of the logs |
| AttendanceStore.AttendanceSystem.constructor | attendance_system.cpp:52-54 | the store starts from the reload of the file, or empty when the file is missing |
| AttendanceStore.AttendanceSystem.AppendLogToBinary | attendance_system.cpp:41-49 | one record is appended to the file; a file that does not open is left alone |
| AttendanceStore.AttendanceSystem.RecordScan | attendance_system.cpp:57-68 | an ID of 20 bytes or more changes nothing; otherwise exactly one entry is appended to the logs and one record to the file, and a failed open loses only the file write |
| AttendanceStore.AttendanceSystem.LoadLogsFromBinary | attendance_system.cpp:71-93 | a missing file leaves the logs alone; otherwise the logs become the reload of the file |
| AttendanceStore.AttendanceSystem.SearchLogsByID | iambouttogram.cpp:125-134 | the result is the order-preserving exact-match filter, and the logs are not changed |
| AttendanceStore.AttendanceSystem.SortLogsByTime | iambouttogram.cpp:137-143 | the logs become a timestamp-ordered permutation of themselves |
| AttendanceStore.AttendanceSystem.ExportLogsToJSON | iambouttogram.cpp:146-166 | the text written is the export document, or nothing when the file does not open |
| JsonText.JoinSnoc | server.cpp:160-172 | a part joined at the end goes after one separator |
| JsonText.DocumentEmpty | server.cpp:160-172 | an empty log exports as an empty array |
| JsonText.DocumentSnoc | server.cpp:160-172 | one more block puts a comma after the previously last block |
| JsonText.WrittenIsJoin | attendance_system.cpp:143-152 | after i turns the loop has written the first i blocks joined by commas, with a comma after the last unless it is the final block |
| JsonText.DocumentWritten | attendance_system.cpp:142-153 | the whole loop's output is the document |
| JsonText.WrittenStep | attendance_system.cpp:144-151 | one turn of the loop extends the text by exactly one block and its separator |
| Text.StripSpace | server.cpp:77 | removing whitespace leaves no whitespace and never lengthens the line |
| Text.StripSpaceConcat | server.cpp:77 | whitespace removal works piecewise |
| Text.StripSpaceNoSpace | server.cpp:77 | a line without whitespace is left as it is |
| Text.StripSpaceAllSpace | server.cpp:77 | a line of whitespace becomes empty |
| Text.RemoveChar | server.cpp:93-95 | removing a character keeps exactly the other characters, and adds no whitespace |
| Text.RemoveCharConcat | server.cpp:93-95 | character removal works piecewise |
| Text.RemoveCharAbsent | server.cpp:93-95 | removing a character the line lacks changes nothing |
| Text.FindFrom | client.cpp:102 | `find` returns the first index at or after the start holding the character, or none when no such index exists |
| Text.FindFromAt | client.cpp:102 | the first such index is determined by the character and the indices before it |
| Text.SplitCons | server.cpp:147-150 | a separator-free piece before a separator comes back as the first piece |
| Text.SplitFour | server.cpp:147-150 | four separator-free pieces joined by the separator split back into those four pieces |
| Roster.SplitField | server.cpp:88-95 | a line splits iff it holds a colon; the key is free of `"` and the value of `"` and `,` |
| Roster.RunSnoc | server.cpp:76-102 | reading one more line is one more step of the reader |
| Roster.Step | server.cpp:79-100 | one line only ever appends to the students: at most one, the record being built, and only with a non-empty npm |
| Roster.RunConcat | server.cpp:76-102 | reading two runs of lines is reading their concatenation |
| Roster.StepKeepsClean | server.cpp:79-100 | a line keeps the record clean and appends at most the current record, and only one with a set npm |
| Roster.RunAppendsKept | server.cpp:76-102 | reading only appends to the students it started with, and every appended student has clean fields and a non-empty npm |
| Roster.ObjectRoundTrip | server.cpp:79-100 | one student object in the file's layout is read back as that student |
| Roster.ObjectsRoundTrip | server.cpp:79-100 | a run of student objects is read back as those students, in order |
| Roster.RosterRoundTrip | server.cpp:65-105 | a roster file in the file's layout is read back as its students, after those already loaded |
| Server.FirstMatch | server.cpp:118-124 | the index found is the first student with the npm; none means no student has it |
| Server.NameFor | server.cpp:118-124 | the name logged is the first matching student's, or `Unknown` when none matches |
| Server.ReplyFor | server.cpp:190-196 | the reply is `OK` iff no student matches; otherwise it is `FOUND:` + name + `:` + program of the first match |
| Server.NameForClean | server.cpp:118-131 | with a roster as the reader leaves it, the name logged holds no comma, so the daily CSV line keeps its four fields |
| Server.ScanNpm | server.cpp:186-188 | a message is a scan iff it starts with `SCAN:`, and the npm is the rest |
| Server.CsvRecordFields | server.cpp:147-150 | the CSV record (the line without its line break) splits back into timestamp, npm, name and action when none holds a comma |
| Server.CsvRecord | server.cpp:149-150 | the four fields joined by commas; CsvRecordFields splits it back |
| Server.CsvLine | server.cpp:149-150 | the record and the line break `std::endl` writes |
| Server.ExportTextEmpty | server.cpp:160-172 | an empty log exports as an empty array |
| Server.LogBlock | server.cpp:163-168 | the block written for one log; ExportTextSnoc places it in the document |
| Server.ExportText | server.cpp:160-172 | the document exporting writes; WriteExport, ExportTextEmpty and ExportTextSnoc state it |
| Server.ExportTextSnoc | server.cpp:160-172 | one more log puts a comma after the previously last block and its own block last |
| Server.WriteExport | server.cpp:156-175 | the export loop writes exactly the export document of the logs |
| Server.ReadRoster | server.cpp:76-102 | the read loop ends with the students the line reader gives |
| Server.LookupStudent | server.cpp:118-124 | the lookup loop finds the first student with the npm |
| Server.FirstMatchAt | server.cpp:118-124 | the first student with the npm is the one the lookup returns |
| Server.FirstMatchIsFirstWith | server.cpp:191-195 | only the index the lookup returns is the first with the npm |
| Server.RFIDServer.constructor | server.cpp:51-57 | the server starts with the roster read from the file, or none when the file does not open, and no logs |
| Server.RFIDServer.LoadDatabase | server.cpp:65-105 | the file's students go after those already loaded and all have clean fields and an npm; a file that does not open changes nothing |
| Server.RFIDServer.SaveDailyLog | server.cpp:139-154 | only the newest log is written, as one CSV line, and nothing when there is no log or the file does not open |
| Server.RFIDServer.AddLog | server.cpp:115-137 | exactly one log is appended, with the looked-up name, followed by its daily line |
| Server.RFIDServer.ExportToJSON | server.cpp:156-175 | the text written is the export document, or nothing when the file does not open |
| Server.RFIDServer.HandleMessage | server.cpp:177-201 | a message that is not `SCAN:` changes nothing and gets no reply; a scan is logged before the reply, whether or not the student is found, and the reply is the roster verdict |
| Client.FindPos | client.cpp:102 | `find` yields the first index at or after the start holding the character, and `npos` exactly when there is none |
| Client.Substr | client.cpp:105-106 | `substr` throws exactly when the start is past the end; otherwise it yields the first min(count, length - start) characters from the start |
| Client.DecodeReplyCases | client.cpp:101-112 | as written: a reply not starting with `FOUND` is "not found"; `FOUND` alone throws; `FOUND:` + t shows t as both name and program; a `FOUND` reply without a colon shows the whole reply as the program |
| Client.DecodeReplyLaterColon | client.cpp:101-106 | as written: when the first colon from index 5 on is at p > 5, the name is the text from index 6 to p and the program the text after p |
| Client.DecodeReply | client.cpp:101-112 | as written: "not found" exactly when the reply does not start with `FOUND`; otherwise a name and a program or the uncaught `out_of_range` |
| Client.Request | client.cpp:91 | `SCAN:` followed by the npm, unchanged |
| Client.ReadReply | client.cpp:94-113 | as written: an empty read shows nothing; otherwise the buffer's C string goes to the as-written decoder, so a bare `FOUND` throws `out_of_range` |
| Client.ReadReplyFixed | client.cpp:94-113 | the same read with the corrected decoder: nothing for an empty read, otherwise found or not found, never an exception |
| Client.DecodeFoundReplyAsWritten | client.cpp:101-106 | as written, the server's reply for a student shows `name:program` as both fields |
| Client.FoundFieldsNeverSeparate | client.cpp:102-106 | as written, a student's name and program are never shown as the two fields the server sent |
| Client.DecodeReplyFixed | client.cpp:101-112 | the corrected decoder answers only "not found" or "found" |
| Client.DecodeReplyFixedRoundTrip | client.cpp:101-112 | the corrected decoder gives back the name and program of the server's reply when the name holds no colon; `OK` is "not found" |
| Client.DecodersAgreeOnNotFound | client.cpp:101 | both decoders report "not found" for every reply not starting with `FOUND` |
| Client.RFIDClient.constructor | client.cpp:39-44 | a new client is not connected and has sent nothing |
| Client.RFIDClient.ConnectToServer | client.cpp:55-83 | only a successful connection sets the flag |
| Client.RFIDClient.SimulateRFIDScan | client.cpp:85-116 | without a connection nothing is sent; otherwise exactly `SCAN:` + npm is sent and the reply is decoded with the corrected decoder |
| Client.RequestParsedByServer | client.cpp:91 | the server reads the client's request back as the npm up to its first NUL |
| Client.ScanRoundTrip | client.cpp:91-112 | with the corrected decoder: a scan of a NUL-free npm gets the roster student's name and program when the npm is on the roster, and "not found" otherwise |
| Client.ScanAsWritten | client.cpp:91-112 | with the decoder as written: a student on the roster is shown with `name:program` as both name and program; an npm not on the roster is "not found" |
| LabAttendance.NewLab | project/include/Lab.hpp:6-16 | a lab starts with nobody inside |
| LabAttendance.NewReader | project/include/RFIDReader.hpp:8-18 | a reader starts online |
| LabAttendance.UserByRfid | project/src/AttendanceSystem.cpp:44-45 | the first user holding the RFID tag, as `find_if` returns it; none means no user holds it |
| LabAttendance.ReaderById | project/src/AttendanceSystem.cpp:47-48 | the first reader with the ID; none means no reader has it |
| LabAttendance.LabById | project/src/AttendanceSystem.cpp:55-56 | the first lab with the ID; none means no lab has it |
| LabAttendance.LastIndex | project/src/AttendanceSystem.cpp:64-69 | the reverse search finds the user's most recent processed log; none means the user has no processed log |
| LabAttendance.NextIsEntry | project/src/AttendanceSystem.cpp:63-70 | a user with no processed log enters; otherwise the direction is the opposite of the user's most recent processed log |
| LabAttendance.LogId | project/src/AttendanceSystem.cpp:72 | `log-` followed by decimal digits whose value is the processed count plus one |
| LabAttendance.Delta | project/src/AttendanceSystem.cpp:76-80 | +1 exactly for an entry, -1 for an exit |
| LabAttendance.ScanRefused | project/src/AttendanceSystem.cpp:44-61 | an unknown tag, an unknown reader, an offline reader or a missing lab leaves the state unchanged |
| LabAttendance.AcceptedMeans | project/src/AttendanceSystem.cpp:44-61 | an accepted scan has a user with the tag and an online reader with the ID whose lab exists; conversely a known tag and reader ID are accepted when every reader with that ID is online in an existing lab |
| LabAttendance.Scan | project/src/AttendanceSystem.cpp:41-90 | a refused scan changes nothing; an accepted one keeps users, readers, processed logs and the number of labs, and queues exactly one more log |
| LabAttendance.ScanWhenAccepted | project/src/AttendanceSystem.cpp:63-85 | the state an accepted scan leaves: the found lab with its occupancy moved by the toggled direction, and the log built from the found user, reader and lab at the back of the queue |
| LabAttendance.Drain | project/src/AttendanceSystem.cpp:97-103 | the queue, in order, ends up after the processed logs and is empty; users, labs and readers are unchanged |
| LabAttendance.ScanQueuesOne | project/src/AttendanceSystem.cpp:63-85 | an accepted scan queues exactly one log at the back, carrying the tag's user (ID, name, role), the reader, the reader's lab (ID and name), the time, `log-` + (processed count + 1) and the toggled direction of that user; only that lab's occupancy moves, by one, and nothing else changes |
| LabAttendance.OccupancyUpdate | project/src/AttendanceSystem.cpp:76-80 | changing one lab changes the total occupancy by that lab's difference |
| LabAttendance.NetEntriesConcat | project/src/AttendanceSystem.cpp:97-103 | entries minus exits add up over concatenated logs |
| LabAttendance.ScanBalanced | project/src/AttendanceSystem.cpp:76-85 | a scan keeps the total occupancy equal to entries minus exits over processed and queued logs |
| LabAttendance.DrainBalanced | project/src/AttendanceSystem.cpp:97-103 | draining keeps that balance |
| LabAttendance.LastFlagIsLast | project/src/AttendanceSystem.cpp:64-69 | the most recent flag is the last of the user's flags in log order |
| LabAttendance.NextIsEntryAlternates | project/src/AttendanceSystem.cpp:63-70 | on alternating flags the toggle says "entry" after an even number of moves |
| LabAttendance.NextIsEntryAfter | project/src/AttendanceSystem.cpp:63-70 | after a log, that user's next move is the opposite one and other users' are unchanged |
| LabAttendance.ScanThenDrainAlternates | project/src/AttendanceSystem.cpp:63-70 | with the queue drained before each scan, every user's logs alternate starting with an entry |
| LabAttendance.FirstMoveIsEntry | project/src/AttendanceSystem.cpp:63-70 | under alternation every user's first log is an entry |
| LabAttendance.ScanTwiceWithoutDrain | project/src/AttendanceSystem.cpp:63-72 | two scans of one tag with no drain between queue two logs with the same ID and the same direction |
| LabAttendance.LabByIdSameIds | project/src/AttendanceSystem.cpp:55-56 | the lab lookup depends only on the labs' IDs |
| LabAttendance.ScanThenDrainNumbered | project/src/AttendanceSystem.cpp:72 | with the queue drained before each scan, processed logs stay numbered `log-1`, `log-2`, ... |
| LabAttendance.NumberedDistinct | project/src/AttendanceSystem.cpp:72 | numbered logs have pairwise distinct IDs |
| LabAttendance.LabSystem.constructor | project/src/AttendanceSystem.cpp:21-39 | the mock data: four users, two empty labs, three online readers, no logs, a balanced state |
| LabAttendance.LabSystem.SimulateRFIDScan | project/src/AttendanceSystem.cpp:41-90 | the new state is the scan function applied to the old state |
| LabAttendance.LabSystem.ProcessLogQueue | project/src/AttendanceSystem.cpp:97-103 | the queue is moved, front first, to the end of the processed logs, leaving the queue empty |

## Left out

- Sockets, process setup and WSA: `start`, the accept loop, `send` and `recv`. A received buffer is one whole message (no TCP fragmentation). The `handleClient` session loop is reduced to a single message: the `running` flag and the break on `recv <= 0` are not modelled. The client's `connectToServer` keeps only its effect on `connected`.
- Threads, mutexes and condition variables: every operation is atomic and sequential. The lab logger thread's wait is replaced by explicit calls to `ProcessLogQueue`.
- Clocks and calendar formatting: `getCurrentDateString`, `getCurrentTime`, `getFormattedTimestamp` and `viewAllLogs`. Timestamps are parameters (`ScanLog`'s `Time` is a plain integer that is only stored), and the file names built from dates are not modelled.
- Console messages, including the loaded-count and warning messages of the reload.
- The nlohmann-based `exportToJson`, `saveToBinaryFile`, the random `RFIDReader::updateStatus` (with the reader's last-ping time), `displayStatus`, the menus and the `main` programs. `processIncomingScansFromFile` is only declared and is not part of this model.
- `std::getline`: the roster file is given as its sequence of lines.
- Short writes: `outFile.write` is taken to write the whole record.
- The client's second `find` (`pos2`, client.cpp:103): its value is never used and `find` does not throw.
- LabAttendance.LabSystem.SimulateRFIDScan: `currentOccupancy` is an unbounded integer, so C `int` overflow is not modelled.
- Client.RFIDClient.SimulateRFIDScan: uses the corrected decoder, through `ReadReplyFixed`. The as-written read is `ReadReply` over `DecodeReply`, whose behaviour is stated by `DecodeReplyCases` and `DecodeReplyLaterColon` (see "## Findings").
- Client.ScanRoundTrip: states the round trip with the corrected decoder `DecodeReplyFixed`; as written the client shows `name:program` in both fields, which `ScanAsWritten` and `DecodeFoundReplyAsWritten` state.
- Roster.RosterRoundTrip: states the round trip only for rosters whose fields hold no whitespace, `"` or `,`, because the reader deletes those characters.

## Findings

| source | as written | input that shows it | evidently intended | confidence | as-written member | corrected member |
|---|---|---|---|---|---|---|
| client.cpp:102-106 | `response.find(':', 5)` starts at index 5, which holds the colon after `FOUND`. So `pos1` is 5, the name is `substr(6, (size_t)-1)` and the program is `substr(6)`: both are the whole tail | the server's reply `FOUND:Alice:CS` is shown as name `Alice:CS` and program `Alice:CS` | search for the colon from index 6, giving name `Alice` and program `CS` | high (proved about the model; not executed) | Client.FoundFieldsNeverSeparate | Client.DecodeReplyFixedRoundTrip |
