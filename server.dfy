/** The text side of `RFIDServer` in server.cpp: the roster it loads, the
    scan log it keeps, the daily CSV file, the JSON export and the answer
    to a `SCAN:` request. Sockets, threads and the clock stay outside: a
    timestamp, a received buffer and whether a file opens are inputs. */
module Server {
  import opened Wrappers
  import opened CStrings
  import opened Text
  import opened Roster
  import opened JsonText

  /** server.cpp's own `LogEntry`: four strings. */
  datatype ServerLog = ServerLog(npm: string, name: string, timestamp: string, action: string)

  /** The index of the first student with this npm. */
  function FirstMatch(students: seq<Student>, npm: string): (r: Option<nat>)
    ensures r.Some? ==> r.value < |students| && students[r.value].npm == npm
    ensures r.Some? ==> forall j :: 0 <= j < r.value ==> students[j].npm != npm
    ensures r.None? <==> forall j :: 0 <= j < |students| ==> students[j].npm != npm
  {
    if students == [] then None
    else if students[0].npm == npm then Some(0)
    else match FirstMatch(students[1..], npm)
      case None => None
      case Some(k) => Some(k + 1)
  }

  /** Student `k` is the first on the roster with this npm. */
  predicate FirstWith(students: seq<Student>, npm: string, k: nat)
  {
    k < |students| && students[k].npm == npm && forall j :: 0 <= j < k ==> students[j].npm != npm
  }

  const UNKNOWN := "Unknown"

  /** The name `addLog` records: the first matching student's, else
      `Unknown`. */
  function NameFor(students: seq<Student>, npm: string): (name: string)
    ensures (forall j :: 0 <= j < |students| ==> students[j].npm != npm) ==> name == UNKNOWN
    ensures forall k: nat :: FirstWith(students, npm, k) ==> name == students[k].name
  {
    FirstMatchIsFirstWith(students, npm);
    match FirstMatch(students, npm)
    case None => UNKNOWN
    case Some(k) => students[k].name
  }

  /** `"FOUND:" + name + ":" + program` */
  function FoundReply(name: string, program: string): string
  {
    "FOUND:" + name + ":" + program
  }

  /** The reply to a scan: the first matching student's name and
      program, or `OK` when the npm is not on the roster. */
  function ReplyFor(students: seq<Student>, npm: string): (reply: string)
    ensures reply == "OK" <==> forall j :: 0 <= j < |students| ==> students[j].npm != npm
    ensures forall k: nat :: FirstWith(students, npm, k) ==> reply == FoundReply(students[k].name, students[k].program)
  {
    FirstMatchIsFirstWith(students, npm);
    match FirstMatch(students, npm)
    case None => "OK"
    case Some(k) => FoundReply(students[k].name, students[k].program)
  }

  /** The npm of a `SCAN:` request: everything after the first five
      characters, when those are `SCAN:`. */
  function ScanNpm(message: string): (npm: Option<string>)
    ensures npm.Some? <==> |message| >= 5 && message[..5] == "SCAN:"
    ensures npm.Some? ==> message == "SCAN:" + npm.value
  {
    if |message| >= 5 && message[..5] == "SCAN:" then Some(message[5..]) else None
  }

  /** The four fields of a log, comma separated. */
  function CsvRecord(e: ServerLog): string
  {
    e.timestamp + ([','] + (e.npm + ([','] + (e.name + ([','] + e.action)))))
  }

  /** The line `saveDailyLog` appends: the record and `std::endl`. */
  function CsvLine(e: ServerLog): string
  {
    CsvRecord(e) + "\n"
  }

  /** Cut at its commas, a CSV record gives back the four fields, as long
      as none of them holds a comma. */
  lemma CsvRecordFields(e: ServerLog)
    requires ',' !in e.timestamp && ',' !in e.npm && ',' !in e.name && ',' !in e.action
    ensures Split(CsvRecord(e), ',') == [e.timestamp, e.npm, e.name, e.action]
  {
    SplitFour(e.timestamp, e.npm, e.name, e.action, ',');
  }

  /** The block `exportToJSON` writes for one log, without the separator
      after it. Values go in unescaped. */
  function LogBlock(e: ServerLog): string
  {
    "  {\n" +
    "    \"npm\": \"" + e.npm + "\",\n" +
    "    \"name\": \"" + e.name + "\",\n" +
    "    \"timestamp\": \"" + e.timestamp + "\",\n" +
    "    \"action\": \"" + e.action + "\"\n" +
    "  }"
  }

  function LogBlocks(logs: seq<ServerLog>): (r: seq<string>)
    ensures |r| == |logs|
  {
    if logs == [] then [] else [LogBlock(logs[0])] + LogBlocks(logs[1..])
  }

  lemma {:induction false} LogBlocksAt(logs: seq<ServerLog>, i: nat)
    requires i < |logs|
    ensures LogBlocks(logs)[i] == LogBlock(logs[i])
  {
    if i > 0 {
      LogBlocksAt(logs[1..], i - 1);
    }
  }

  lemma {:induction false} LogBlocksSnoc(logs: seq<ServerLog>, e: ServerLog)
    ensures LogBlocks(logs + [e]) == LogBlocks(logs) + [LogBlock(e)]
  {
    if logs == [] {
      assert logs + [e] == [e];
    } else {
      assert (logs + [e])[1..] == logs[1..] + [e];
      LogBlocksSnoc(logs[1..], e);
    }
  }

  /** attendance_export.json: the log blocks in log order. */
  function ExportText(logs: seq<ServerLog>): string
  {
    Document(LogBlocks(logs))
  }

  /** An empty log exports as an empty array. */
  lemma ExportTextEmpty()
    ensures ExportText([]) == "[\n]\n"
  {
  }

  /** One more log puts a comma after the previously last block and adds
      its own block at the end. */
  lemma ExportTextSnoc(logs: seq<ServerLog>, e: ServerLog)
    requires logs != []
    ensures ExportText(logs + [e]) == "[\n" + (Join(LogBlocks(logs), ",\n") + ",\n" + LogBlock(e)) + "\n" + "]\n"
  {
    LogBlocksSnoc(logs, e);
    DocumentSnoc(LogBlocks(logs), LogBlock(e));
  }

  /** The write loop of `exportToJSON`. */
  method WriteExport(logs: seq<ServerLog>) returns (doc: string)
    ensures doc == ExportText(logs)
  {
    var n := |logs|;
    ghost var parts := LogBlocks(logs);
    doc := "[\n";
    var i := 0;
    while i < n
      invariant 0 <= i <= n
      invariant doc == "[\n" + Written(parts, i)
    {
      LogBlocksAt(logs, i);
      var block := LogBlock(logs[i]);
      WrittenStep(parts, i, block);
      doc := doc + block;
      if i < n - 1 {
        doc := doc + ",";
      }
      doc := doc + "\n";
      i := i + 1;
    }
    doc := doc + "]\n";
    DocumentWritten(parts);
  }

  /** The roster reader as a loop over the lines of the file. */
  method ReadRoster(prior: seq<Student>, lines: seq<string>) returns (students: seq<Student>)
    ensures students == Run(RosterState(prior, Blank, false), lines).students
  {
    ghost var start := RosterState(prior, Blank, false);
    students := prior;
    var student := Blank;
    var inObject := false;
    var i := 0;
    while i < |lines|
      invariant 0 <= i <= |lines|
      invariant RosterState(students, student, inObject) == Run(start, lines[..i])
    {
      var line := StripSpace(lines[i]);
      if line == "{" {
        inObject := true;
        student := Blank;
      } else if line == "}," || line == "}" {
        if inObject && student.npm != "" {
          students := students + [student];
        }
        inObject := false;
      } else if inObject {
        var colon := Find(line, ':');
        if colon.Some? {
          var key := RemoveChar(line[..colon.value], '"');
          var value := RemoveChar(RemoveChar(line[colon.value + 1..], '"'), ',');
          if key == "npm" {
            student := student.(npm := value);
          } else if key == "name" {
            student := student.(name := value);
          } else if key == "program" {
            student := student.(program := value);
          }
        }
      }
      RunSnoc(start, lines[..i], lines[i]);
      assert lines[..i + 1] == lines[..i] + [lines[i]];
      i := i + 1;
    }
    assert lines[..i] == lines;
  }

  /** The first student with this npm, as the lookup loops of `addLog`
      and `handleClient` find it. */
  method LookupStudent(students: seq<Student>, npm: string) returns (found: Option<nat>)
    ensures found == FirstMatch(students, npm)
  {
    var i := 0;
    while i < |students|
      invariant 0 <= i <= |students|
      invariant forall j :: 0 <= j < i ==> students[j].npm != npm
    {
      if students[i].npm == npm {
        found := Some(i);
        FirstMatchAt(students, npm, i);
        return;
      }
      i := i + 1;
    }
    found := None;
  }

  lemma FirstMatchAt(students: seq<Student>, npm: string, k: nat)
    requires FirstWith(students, npm, k)
    ensures FirstMatch(students, npm) == Some(k)
  {
  }

  /** Only the index the lookup returns is first with the npm. */
  lemma FirstMatchIsFirstWith(students: seq<Student>, npm: string)
    ensures forall k: nat :: FirstWith(students, npm, k) ==> FirstMatch(students, npm) == Some(k)
  {
    forall k: nat | FirstWith(students, npm, k)
      ensures FirstMatch(students, npm) == Some(k)
    {
      FirstMatchAt(students, npm, k);
    }
  }

  class RFIDServer {
    var students: seq<Student>
    var logs: seq<ServerLog>
    /** The lines appended to today's attendance_<date>.log. */
    var daily: seq<string>

    /** Every student on the roster has clean fields and an npm. */
    ghost predicate Valid()
      reads this
    {
      forall i :: 0 <= i < |students| ==> Kept(students[i])
    }

    /** The constructor loads the roster; `roster` is the lines of
        iambouttogram.json, or `None` when it cannot be opened. */
    constructor (roster: Option<seq<string>>)
      ensures Valid()
      ensures students == if roster.Some? then Run(RosterState([], Blank, false), roster.value).students else []
      ensures logs == [] && daily == []
    {
      students := [];
      logs := [];
      daily := [];
      new;
      LoadDatabase(roster);
    }

    /** `loadDatabase`: the students of the file go after those already
        loaded; a file that does not open changes nothing. */
    method LoadDatabase(roster: Option<seq<string>>)
      requires Valid()
      modifies this`students
      ensures Valid()
      ensures roster.None? ==> students == old(students)
      ensures roster.Some? ==> students == Run(RosterState(old(students), Blank, false), roster.value).students
    {
      if roster.None? {
        return;
      }
      var loaded := ReadRoster(students, roster.value);
      RunAppendsKept(RosterState(students, Blank, false), roster.value);
      assert forall i :: 0 <= i < |students| ==> loaded[i] == loaded[..|students|][i];
      students := loaded;
    }

    /** `saveDailyLog`: the newest log as one CSV line, when there is a
        log and the file opens. */
    method SaveDailyLog(canOpen: bool)
      modifies this`daily
      ensures daily == if canOpen && logs != [] then old(daily) + [CsvLine(logs[|logs| - 1])] else old(daily)
    {
      if canOpen {
        if logs != [] {
          daily := daily + [CsvLine(logs[|logs| - 1])];
        }
      }
    }

    /** `addLog`: exactly one log with the looked-up name, then the daily
        line for it. */
    method AddLog(npm: string, action: string, now: string, canOpen: bool)
      modifies this`logs, this`daily
      ensures logs == old(logs) + [ServerLog(npm, NameFor(students, npm), now, action)]
      ensures daily == if canOpen then old(daily) + [CsvLine(logs[|logs| - 1])] else old(daily)
    {
      var name := UNKNOWN;
      var found := LookupStudent(students, npm);
      if found.Some? {
        name := students[found.value].name;
      }
      logs := logs + [ServerLog(npm, name, now, action)];
      SaveDailyLog(canOpen);
    }

    /** `exportToJSON`: the document, or nothing when the file does not
        open. */
    method ExportToJSON(canOpen: bool) returns (written: Option<string>)
      ensures written == if canOpen then Some(ExportText(logs)) else None
    {
      if !canOpen {
        return None;
      }
      var doc := WriteExport(logs);
      written := Some(doc);
    }

    /** One received buffer of `handleClient`: read as a C string, a
        `SCAN:` request is logged and answered, anything else is
        ignored. */
    method HandleMessage(received: seq<CChar>, now: string, canOpen: bool) returns (reply: Option<string>)
      requires 0 < |received| <= 1023
      modifies this`logs, this`daily
      ensures ScanNpm(CStr(received)).None? ==>
        reply == None && logs == old(logs) && daily == old(daily)
      ensures ScanNpm(CStr(received)).Some? ==>
        var npm := ScanNpm(CStr(received)).value;
        && reply == Some(ReplyFor(students, npm))
        && logs == old(logs) + [ServerLog(npm, NameFor(students, npm), now, "SCAN")]
        && daily == if canOpen then old(daily) + [CsvLine(logs[|logs| - 1])] else old(daily)
    {
      var message := CStr(received);
      if !(|message| >= 5 && message[..5] == "SCAN:") {
        return None;
      }
      var npm := message[5..];
      AddLog(npm, "SCAN", now, canOpen);
      var response := "OK";
      var found := LookupStudent(students, npm);
      if found.Some? {
        var student := students[found.value];
        response := FoundReply(student.name, student.program);
      }
      reply := Some(response);
    }
  }

  /** Every log the server writes for a roster student, or for an
      unknown npm, names someone the CSV line can carry: the name is
      comma-free. */
  lemma NameForClean(students: seq<Student>, npm: string)
    requires forall i :: 0 <= i < |students| ==> Kept(students[i])
    ensures ',' !in NameFor(students, npm)
  {
  }
}
