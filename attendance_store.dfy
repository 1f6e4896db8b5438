/** The in-memory log store `AttendanceSystem` of attendance_system.cpp
    and its older inline copy in iambouttogram.cpp: a vector of scan
    records mirrored, record by record, into attendance.dat. */
module AttendanceStore {
  import opened Wrappers
  import opened CStrings
  import opened Decimal
  import opened AttendanceCommon
  import opened BinaryLog
  import opened JsonText

  /** `strcmp(entry.studentID, query.c_str()) == 0` */
  predicate Matches(e: LogEntry, query: seq<CChar>)
  {
    IdOf(e) == CStr(query)
  }

  /** The entries of `logs` whose ID equals `query`, in log order. */
  function Search(logs: seq<LogEntry>, query: seq<CChar>): (r: seq<LogEntry>)
    ensures |r| <= |logs|
    ensures forall e :: e in r <==> e in logs && Matches(e, query)
  {
    if logs == [] then []
    else (if Matches(logs[0], query) then [logs[0]] else []) + Search(logs[1..], query)
  }

  /** The search distributes over concatenation: it keeps log order. */
  lemma {:induction false} SearchConcat(a: seq<LogEntry>, b: seq<LogEntry>, query: seq<CChar>)
    ensures Search(a + b, query) == Search(a, query) + Search(b, query)
  {
    if a != [] {
      assert (a + b)[1..] == a[1..] + b;
      SearchConcat(a[1..], b, query);
    } else {
      assert a + b == b;
    }
  }

  /** A query whose C string is 20 bytes or longer matches no stored
      entry, since every stored ID ends within its 20-byte field. */
  lemma {:induction false} SearchLongQuery(logs: seq<LogEntry>, query: seq<CChar>)
    requires forall i :: 0 <= i < |logs| ==> Terminated(logs[i].studentID)
    requires Strlen(query) >= STUDENT_ID_MAX_LEN
    ensures Search(logs, query) == []
  {
    if logs != [] {
      TerminatedIffShort(logs[0].studentID);
      assert !Matches(logs[0], query);
      SearchLongQuery(logs[1..], query);
    }
  }

  /** The read loop of `loadLogsFromBinary`: whole records one after
      another until a short read, each kept or dropped by the rule. */
  method ReadRecords(rule: ReloadRule, bytes: seq<CChar>) returns (loaded: seq<LogEntry>)
    ensures loaded == Reload(rule, bytes)
  {
    loaded := [];
    var pos := 0;
    while pos + RECORD_SIZE <= |bytes|
      invariant 0 <= pos <= |bytes| && pos % RECORD_SIZE == 0
      invariant loaded == Reload(rule, bytes[..pos])
      decreases |bytes| - pos
    {
      var record := bytes[pos..pos + RECORD_SIZE];
      var kept := ReloadRecord(rule, DecodeRecord(record));
      ghost var before := loaded;
      if kept.Some? {
        loaded := loaded + [kept.value];
      }
      assert loaded == before + Kept(rule, record) by {
        if kept.Some? {
          assert Kept(rule, record) == [kept.value];
        } else {
          assert Kept(rule, record) == [];
        }
      }
      ReadStep(rule, bytes, pos, before, loaded);
      pos := pos + RECORD_SIZE;
    }
    ReloadPrefixEnd(rule, bytes, pos);
  }

  /** One more whole record read extends the prefix reload by what that
      record keeps, and the next read starts at a record boundary. */
  lemma ReadStep(rule: ReloadRule, bytes: seq<CChar>, pos: nat, before: seq<LogEntry>, after: seq<LogEntry>)
    requires pos % RECORD_SIZE == 0 && pos + RECORD_SIZE <= |bytes|
    requires before == Reload(rule, bytes[..pos])
    requires after == before + Kept(rule, bytes[pos..pos + RECORD_SIZE])
    ensures after == Reload(rule, bytes[..pos + RECORD_SIZE])
    ensures (pos + RECORD_SIZE) % RECORD_SIZE == 0
  {
    ReloadPrefixStep(rule, bytes, pos);
    NextRecordBoundary(pos);
  }

  lemma NextRecordBoundary(pos: nat)
    requires pos % RECORD_SIZE == 0
    ensures (pos + RECORD_SIZE) % RECORD_SIZE == 0
  {
  }

  /** One more whole record read extends the prefix reload by what that
      record keeps. */
  lemma ReloadPrefixStep(rule: ReloadRule, bytes: seq<CChar>, pos: nat)
    requires pos % RECORD_SIZE == 0 && pos + RECORD_SIZE <= |bytes|
    ensures Reload(rule, bytes[..pos + RECORD_SIZE]) ==
      Reload(rule, bytes[..pos]) + Kept(rule, bytes[pos..pos + RECORD_SIZE])
  {
    assert bytes[..pos + RECORD_SIZE] == bytes[..pos] + bytes[pos..pos + RECORD_SIZE];
    ReloadAppend(rule, bytes[..pos], bytes[pos..pos + RECORD_SIZE]);
  }

  /** Once fewer than a record's bytes remain, the prefix reload is the
      reload of the whole file. */
  lemma ReloadPrefixEnd(rule: ReloadRule, bytes: seq<CChar>, pos: nat)
    requires pos % RECORD_SIZE == 0 && pos <= |bytes| < pos + RECORD_SIZE
    ensures Reload(rule, bytes[..pos]) == Reload(rule, bytes)
  {
    assert bytes == bytes[..pos] + bytes[pos..];
    ReloadIgnoresPartialTail(rule, bytes[..pos], bytes[pos..]);
  }

  /** The entries `recordScan` makes for a run of scans. */
  function ScanEntries(ids: seq<seq<CChar>>, tss: seq<Int64>): (r: seq<LogEntry>)
    requires |ids| == |tss|
    ensures |r| == |ids|
    ensures forall i :: 0 <= i < |ids| ==> r[i] == MakeEntry(ids[i], tss[i])
  {
    seq(|ids|, i requires 0 <= i < |ids| => MakeEntry(ids[i], tss[i]))
  }

  /** Round trip: scans recorded into an empty file with non-empty,
      NUL-free IDs shorter than 20 bytes reload, under either rule, as the
      same IDs and timestamps in the same order. */
  lemma RecordedScansRoundTrip(rule: ReloadRule, ids: seq<seq<CChar>>, tss: seq<Int64>, paddings: seq<Padding>)
    requires |ids| == |tss| == |paddings|
    requires forall i :: 0 <= i < |ids| ==> 0 < |ids[i]| < STUDENT_ID_MAX_LEN && NUL !in ids[i]
    ensures var logs := Reload(rule, EncodeLog(ScanEntries(ids, tss), paddings));
      && |logs| == |ids|
      && forall i :: 0 <= i < |ids| ==> IdOf(logs[i]) == ids[i] && logs[i].timestamp == tss[i]
  {
    var entries := ScanEntries(ids, tss);
    forall i | 0 <= i < |ids|
      ensures WellFormed(entries[i]) && entries[i].studentID[0] != NUL
      ensures IdOf(entries[i]) == ids[i]
    {
      StrlenOfNulFree(ids[i]);
      MakeEntryPreservesShortId(ids[i], tss[i]);
    }
    ReloadEncodeLog(rule, entries, paddings);
    NonEmptyAll(entries);
  }

  /** Non-decreasing by timestamp. */
  predicate SortedByTime(s: seq<LogEntry>)
  {
    forall k, l :: 0 <= k < l < |s| ==> s[k].timestamp <= s[l].timestamp
  }

  method Swap(a: array<LogEntry>, i: nat, j: nat)
    requires i < a.Length && j < a.Length
    modifies a
    ensures a[..] == old(a[..])[i := old(a[j])][j := old(a[i])]
    ensures multiset(a[..]) == old(multiset(a[..]))
  {
    a[i], a[j] := a[j], a[i];
  }

  /** `std::sort` by timestamp: the result is ordered and a permutation;
      the order of equal timestamps is left open, as `std::sort` is not
      stable. */
  method SortByTime(a: array<LogEntry>)
    modifies a
    ensures SortedByTime(a[..])
    ensures multiset(a[..]) == old(multiset(a[..]))
  {
    var i := 0;
    while i < a.Length
      invariant 0 <= i <= a.Length
      invariant SortedByTime(a[..i])
      invariant multiset(a[..]) == old(multiset(a[..]))
    {
      InsertAt(a, i);
      i := i + 1;
    }
    assert a[..a.Length] == a[..];
  }

  /** One insertion step: element `i` moves left past every later
      timestamp, leaving the first `i + 1` elements ordered. */
  method InsertAt(a: array<LogEntry>, i: nat)
    requires i < a.Length && SortedByTime(a[..i])
    modifies a
    ensures SortedByTime(a[..i + 1])
    ensures multiset(a[..]) == old(multiset(a[..]))
  {
    var j := i;
    while j > 0 && a[j - 1].timestamp > a[j].timestamp
      invariant 0 <= j <= i
      invariant forall k, l :: 0 <= k < l <= i && k != j && l != j ==> a[k].timestamp <= a[l].timestamp
      invariant forall l :: j < l <= i ==> a[j].timestamp <= a[l].timestamp
      invariant multiset(a[..]) == old(multiset(a[..]))
    {
      Swap(a, j - 1, j);
      j := j - 1;
    }
  }

  /** The text block `exportLogsToJSON` writes for one entry, without the
      separator that follows it. The ID goes in unescaped. */
  function EntryBlock(e: LogEntry): string
  {
    "  {\n" +
    "    \"studentID\": \"" + IdOf(e) + "\",\n" +
    "    \"timestamp\": " + IntToDecimal(e.timestamp) + "\n" +
    "  }"
  }

  function Blocks(logs: seq<LogEntry>): (r: seq<string>)
    ensures |r| == |logs|
  {
    if logs == [] then [] else [EntryBlock(logs[0])] + Blocks(logs[1..])
  }

  lemma {:induction false} BlocksAt(logs: seq<LogEntry>, i: nat)
    requires i < |logs|
    ensures Blocks(logs)[i] == EntryBlock(logs[i])
  {
    if i > 0 {
      BlocksAt(logs[1..], i - 1);
    }
  }

  lemma {:induction false} BlocksSnoc(logs: seq<LogEntry>, e: LogEntry)
    ensures Blocks(logs + [e]) == Blocks(logs) + [EntryBlock(e)]
  {
    if logs == [] {
      assert logs + [e] == [e];
    } else {
      assert (logs + [e])[1..] == logs[1..] + [e];
      BlocksSnoc(logs[1..], e);
    }
  }

  /** The document: `[`, the entry blocks in log order separated by
      `,` and a line break, a line break after the last block, `]`. */
  function ExportJson(logs: seq<LogEntry>): string
  {
    Document(Blocks(logs))
  }

  /** The document of a single entry: its block alone, no comma. */
  lemma ExportJsonSingle(e: LogEntry)
    ensures ExportJson([e]) == "[\n" + EntryBlock(e) + "\n" + "]\n"
  {
    BlocksAt([e], 0);
  }

  /** Appending an entry puts a comma after the block that used to be
      last and adds the new block, with no comma, at the end. */
  lemma ExportJsonSnoc(logs: seq<LogEntry>, e: LogEntry)
    requires logs != []
    ensures ExportJson(logs + [e]) ==
      "[\n" + (Join(Blocks(logs), ",\n") + ",\n" + EntryBlock(e)) + "\n" + "]\n"
  {
    BlocksSnoc(logs, e);
    JoinSnoc(Blocks(logs), EntryBlock(e), ",\n");
  }

  /** The write loop of `exportLogsToJSON`: a block per entry, a comma
      after every block but the last, a line break after each. */
  method WriteJson(logs: seq<LogEntry>) returns (doc: string)
    ensures doc == ExportJson(logs)
  {
    var n := |logs|;
    ghost var parts := Blocks(logs);
    doc := "[\n";
    var i := 0;
    while i < n
      invariant 0 <= i <= n
      invariant doc == "[\n" + Written(parts, i)
    {
      BlocksAt(logs, i);
      var block := EntryBlock(logs[i]);
      WrittenStep(parts, i, block);
      doc := doc + block;
      if i < n - 1 {
        doc := doc + ",";
      }
      doc := doc + "\n";
      i := i + 1;
    }
    doc := doc + "]\n";
    DocumentWritten(parts);
  }

  class AttendanceSystem {
    /** Which copy's reload validation this store uses. */
    const rule: ReloadRule
    var logs: seq<LogEntry>
    /** attendance.dat */
    var disk: Disk

    /** Every entry in memory has a terminator inside its ID field. */
    ghost predicate Valid()
      reads this
    {
      forall i :: 0 <= i < |logs| ==> Terminated(logs[i].studentID)
    }

    /** The constructor reloads from the file. */
    constructor (rule: ReloadRule, disk: Disk)
      ensures Valid()
      ensures this.rule == rule && this.disk == disk
      ensures logs == if disk.Present? then Reload(rule, disk.bytes) else []
    {
      this.rule := rule;
      this.disk := disk;
      logs := [];
      new;
      LoadLogsFromBinary();
    }

    /** `appendLogToBinary`: one record at the end of the file, unless the
        file cannot be opened. */
    method AppendLogToBinary(entry: LogEntry, padding: Padding, canOpen: bool)
      modifies this`disk
      ensures disk == if canOpen then AppendRecord(old(disk), EncodeRecord(entry, padding)) else old(disk)
    {
      if !canOpen {
        return;
      }
      disk := AppendRecord(disk, EncodeRecord(entry, padding));
    }

    /** `recordScan`: an ID of 20 bytes or more is refused; otherwise the
        entry goes to memory, then to the file. A failed open loses only
        the file write. */
    method RecordScan(id: seq<CChar>, ts: Int64, padding: Padding, canOpen: bool)
      requires Valid()
      modifies this`logs, this`disk
      ensures Valid()
      ensures |id| >= STUDENT_ID_MAX_LEN ==> logs == old(logs) && disk == old(disk)
      ensures |id| < STUDENT_ID_MAX_LEN ==>
        && logs == old(logs) + [MakeEntry(id, ts)]
        && disk == if canOpen then AppendRecord(old(disk), EncodeRecord(MakeEntry(id, ts), padding)) else old(disk)
    {
      if |id| >= STUDENT_ID_MAX_LEN {
        return;
      }
      var newEntry := MakeEntry(id, ts);
      logs := logs + [newEntry];
      AppendLogToBinary(newEntry, padding, canOpen);
    }

    /** `loadLogsFromBinary`: a missing file leaves `logs` alone; otherwise
        `logs` is rebuilt from the whole records of the file. */
    method LoadLogsFromBinary()
      requires Valid()
      modifies this`logs
      ensures Valid()
      ensures disk.Missing? ==> logs == old(logs)
      ensures disk.Present? ==> logs == Reload(rule, disk.bytes)
    {
      if disk.Missing? {
        return;
      }
      logs := ReadRecords(rule, disk.bytes);
    }

    /** `searchLogsByID` */
    method SearchLogsByID(query: seq<CChar>) returns (results: seq<LogEntry>)
      ensures results == Search(logs, query)
    {
      results := [];
      var i := 0;
      while i < |logs|
        invariant 0 <= i <= |logs|
        invariant results == Search(logs[..i], query)
      {
        var entry := logs[i];
        assert logs[..i + 1] == logs[..i] + [entry];
        SearchConcat(logs[..i], [entry], query);
        assert Search([entry], query) == if Matches(entry, query) then [entry] else [];
        if Matches(entry, query) {
          results := results + [entry];
        }
        i := i + 1;
      }
      assert logs[..i] == logs;
    }

    /** `sortLogsByTime` */
    method SortLogsByTime()
      requires Valid()
      modifies this`logs
      ensures Valid()
      ensures SortedByTime(logs)
      ensures multiset(logs) == multiset(old(logs))
    {
      var snapshot := logs;
      var a := new LogEntry[|snapshot|](i requires 0 <= i < |snapshot| => snapshot[i]);
      assert a[..] == snapshot;
      SortByTime(a);
      logs := a[..];
      forall i | 0 <= i < |logs|
        ensures Terminated(logs[i].studentID)
      {
        assert logs[i] in multiset(snapshot);
      }
    }

    /** `exportLogsToJSON`: the text written to the export file, or
        nothing when the file cannot be opened. */
    method ExportLogsToJSON(canOpen: bool) returns (written: Option<string>)
      ensures written == if canOpen then Some(ExportJson(logs)) else None
    {
      if !canOpen {
        return None;
      }
      var doc := WriteJson(logs);
      written := Some(doc);
    }
  }
}
