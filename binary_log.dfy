/** The binary log file attendance.dat: a run of fixed-size records, each
    the raw bytes of one `LogEntry` as `outFile.write(&entry,
    sizeof(LogEntry))` puts it on disk, and the reload rules of the two
    copies of `loadLogsFromBinary`. */
module BinaryLog {
  import opened CStrings
  import opened Wrappers
  import opened AttendanceCommon

  /** Layout of `sizeof(LogEntry)` on the usual ABIs: the ID field, the
      alignment padding in front of the 8-byte `long long`, the timestamp. */
  const ID_BYTES: nat := STUDENT_ID_MAX_LEN
  const PADDING_BYTES: nat := 4
  const TIMESTAMP_BYTES: nat := 8
  const TIMESTAMP_OFFSET: nat := ID_BYTES + PADDING_BYTES
  const RECORD_SIZE: nat := TIMESTAMP_OFFSET + TIMESTAMP_BYTES

  const TWO_63: nat := 0x8000_0000_0000_0000
  const TWO_64: nat := 0x1_0000_0000_0000_0000

  /** The padding bytes are never initialised by the program, so their
      content is left open: every encoding takes them as an argument. */
  type Padding = s: seq<CChar> | |s| == PADDING_BYTES witness Nuls(PADDING_BYTES)

  function Pow256(k: nat): (p: nat)
    ensures p > 0
  {
    if k == 0 then 1 else 256 * Pow256(k - 1)
  }

  lemma Pow256Eight()
    ensures Pow256(TIMESTAMP_BYTES) == TWO_64
  {
    assert Pow256(2) == 0x1_0000;
    assert Pow256(4) == 0x1_0000_0000 by {
      assert Pow256(3) == 0x100_0000;
    }
    assert Pow256(6) == 0x1_0000_0000_0000 by {
      assert Pow256(5) == 0x100_0000_0000;
    }
    assert Pow256(7) == 0x100_0000_0000_0000;
  }

  function ByteOf(v: nat): (c: CChar)
    requires v < 256
    ensures c as int == v
  {
    v as char
  }

  /** `u` as `k` bytes, least significant first. */
  function LittleEndian(u: nat, k: nat): (r: seq<CChar>)
    ensures |r| == k
  {
    if k == 0 then [] else [ByteOf(u % 256)] + LittleEndian(u / 256, k - 1)
  }

  function FromLittleEndian(bs: seq<CChar>): (u: nat)
    ensures u < Pow256(|bs|)
  {
    if bs == [] then 0
    else
      var rest := FromLittleEndian(bs[1..]);
      assert bs[0] as int + 256 * rest <= 255 + 256 * (Pow256(|bs| - 1) - 1);
      bs[0] as int + 256 * rest
  }

  lemma {:induction false} LittleEndianRoundTrip(u: nat, k: nat)
    requires u < Pow256(k)
    ensures FromLittleEndian(LittleEndian(u, k)) == u
  {
    if k > 0 {
      var bs := LittleEndian(u, k);
      assert u / 256 < Pow256(k - 1);
      LittleEndianRoundTrip(u / 256, k - 1);
      assert bs[1..] == LittleEndian(u / 256, k - 1);
    }
  }

  /** The 8 bytes of a `long long` in two's complement, little-endian. */
  function EncodeTimestamp(t: Int64): (r: seq<CChar>)
    ensures |r| == TIMESTAMP_BYTES
  {
    Pow256Eight();
    LittleEndian(if t < 0 then t + TWO_64 else t, TIMESTAMP_BYTES)
  }

  function DecodeTimestamp(bs: seq<CChar>): Int64
    requires |bs| == TIMESTAMP_BYTES
  {
    Pow256Eight();
    var u := FromLittleEndian(bs);
    if u >= TWO_63 then u - TWO_64 else u
  }

  lemma TimestampRoundTrip(t: Int64)
    ensures DecodeTimestamp(EncodeTimestamp(t)) == t
  {
    Pow256Eight();
    LittleEndianRoundTrip(if t < 0 then t + TWO_64 else t, TIMESTAMP_BYTES);
  }

  /** The bytes `outFile.write` puts on disk for one entry. */
  function EncodeRecord(e: LogEntry, padding: Padding): (r: seq<CChar>)
    ensures |r| == RECORD_SIZE
    ensures r[..ID_BYTES] == e.studentID
    ensures r[ID_BYTES..TIMESTAMP_OFFSET] == padding
  {
    e.studentID + padding + EncodeTimestamp(e.timestamp)
  }

  /** The entry `inFile.read` fills from one whole record. */
  function DecodeRecord(r: seq<CChar>): LogEntry
    requires |r| == RECORD_SIZE
  {
    LogEntry(r[..ID_BYTES], DecodeTimestamp(r[TIMESTAMP_OFFSET..]))
  }

  lemma RecordRoundTrip(e: LogEntry, padding: Padding)
    ensures DecodeRecord(EncodeRecord(e, padding)) == e
  {
    var r := EncodeRecord(e, padding);
    assert r[TIMESTAMP_OFFSET..] == EncodeTimestamp(e.timestamp);
    TimestampRoundTrip(e.timestamp);
  }

  /** The padding never reaches the decoded entry. */
  lemma PaddingIgnored(e: LogEntry, p: Padding, q: Padding)
    ensures DecodeRecord(EncodeRecord(e, p)) == DecodeRecord(EncodeRecord(e, q))
  {
    RecordRoundTrip(e, p);
    RecordRoundTrip(e, q);
  }

  /** The state of attendance.dat. */
  datatype Disk = Missing | Present(bytes: seq<CChar>)

  /** The bytes of the file; a missing file reads as none. */
  function BytesOf(d: Disk): seq<CChar>
  {
    if d.Present? then d.bytes else []
  }

  /** Opening in append mode creates a missing file; the record goes at
      the end. */
  function AppendRecord(d: Disk, record: seq<CChar>): (d': Disk)
    ensures d'.Present? && d'.bytes == BytesOf(d) + record
  {
    match d
    case Missing => Present(record)
    case Present(b) => Present(b + record)
  }

  /** The validation `loadLogsFromBinary` applies to a record, in its two
      versions. */
  datatype ReloadRule =
    | ForceTerminator   // attendance_system.cpp: byte 19 set to NUL, then strlen > 0
    | RequireTerminator // iambouttogram.cpp: kept as read when 0 < strlen < 20

  /** What one whole record read from the file contributes to `logs`. */
  function ReloadRecord(rule: ReloadRule, raw: LogEntry): (r: Option<LogEntry>)
    ensures r.Some? <==> raw.studentID[0] != NUL && (rule.RequireTerminator? ==> Terminated(raw.studentID))
    ensures r.Some? ==> r.value.timestamp == raw.timestamp && Terminated(r.value.studentID)
    ensures r.Some? && rule.ForceTerminator? ==>
      r.value.studentID == raw.studentID[STUDENT_ID_MAX_LEN - 1 := NUL]
    ensures r.Some? && rule.RequireTerminator? ==> r.value == raw
  {
    match rule
    case ForceTerminator =>
      var fixed := raw.(studentID := raw.studentID[STUDENT_ID_MAX_LEN - 1 := NUL]);
      assert fixed.studentID[STUDENT_ID_MAX_LEN - 1] == NUL;
      if Strlen(fixed.studentID) > 0 then Some(fixed) else None
    case RequireTerminator =>
      TerminatedIffShort(raw.studentID);
      if 0 < Strlen(raw.studentID) < STUDENT_ID_MAX_LEN then Some(raw) else None
  }

  /** The entries one whole record contributes to a reload. */
  function Kept(rule: ReloadRule, record: seq<CChar>): (r: seq<LogEntry>)
    requires |record| == RECORD_SIZE
    ensures |r| <= 1
  {
    match ReloadRecord(rule, DecodeRecord(record))
    case Some(e) => [e]
    case None => []
  }

  /** `logs` after a reload of a file holding `bytes`: whole records in
      file order, each kept or dropped by the rule; a trailing partial
      record ends the read. */
  function Reload(rule: ReloadRule, bytes: seq<CChar>): (logs: seq<LogEntry>)
    ensures forall i :: 0 <= i < |logs| ==> Terminated(logs[i].studentID) && logs[i].studentID[0] != NUL
    decreases |bytes|
  {
    if |bytes| < RECORD_SIZE then []
    else
      Kept(rule, bytes[..RECORD_SIZE]) + Reload(rule, bytes[RECORD_SIZE..])
  }

  /** A well-formed entry, as the `(id, ts)` constructor makes them. */
  predicate WellFormed(e: LogEntry)
  {
    e.studentID[STUDENT_ID_MAX_LEN - 1] == NUL
  }

  /** Both rules keep a well-formed record exactly when its ID is
      non-empty, and keep it unchanged. */
  lemma ReloadWellFormed(rule: ReloadRule, e: LogEntry)
    requires WellFormed(e)
    ensures ReloadRecord(rule, e) == if e.studentID[0] != NUL then Some(e) else None
  {
    assert e.studentID[STUDENT_ID_MAX_LEN - 1 := NUL] == e.studentID;
  }

  /** The rules differ on a full 20-byte ID with no terminator: the first
      copy truncates it to 19 bytes and keeps it, the second drops it. */
  lemma RulesDifferOnUnterminated(raw: LogEntry)
    requires !Terminated(raw.studentID)
    ensures ReloadRecord(RequireTerminator, raw) == None
    ensures ReloadRecord(ForceTerminator, raw).Some?
    ensures IdOf(ReloadRecord(ForceTerminator, raw).value) == raw.studentID[..MAX_ID_CHARS]
  {
    var f := raw.studentID[STUDENT_ID_MAX_LEN - 1 := NUL];
    StrlenUnique(f, MAX_ID_CHARS);
    assert f[..MAX_ID_CHARS] == raw.studentID[..MAX_ID_CHARS];
  }

  /** Anything the second rule keeps, the first keeps with the same C
      string and timestamp. */
  lemma RequireImpliesForce(raw: LogEntry)
    requires ReloadRecord(RequireTerminator, raw).Some?
    ensures ReloadRecord(ForceTerminator, raw).Some?
    ensures IdOf(ReloadRecord(ForceTerminator, raw).value) == IdOf(raw)
  {
    var n := Strlen(raw.studentID);
    TerminatedIffShort(raw.studentID);
    var f := raw.studentID[STUDENT_ID_MAX_LEN - 1 := NUL];
    StrlenUnique(f, n);
    assert f[..n] == raw.studentID[..n];
  }

  /** The file image of a sequence of entries written one by one. */
  function EncodeLog(entries: seq<LogEntry>, paddings: seq<Padding>): (bytes: seq<CChar>)
    requires |paddings| == |entries|
    ensures |bytes| == RECORD_SIZE * |entries|
  {
    if entries == [] then []
    else EncodeRecord(entries[0], paddings[0]) + EncodeLog(entries[1..], paddings[1..])
  }

  /** The entries with a non-empty ID, in order. */
  function NonEmpty(entries: seq<LogEntry>): (r: seq<LogEntry>)
    ensures |r| <= |entries|
  {
    if entries == [] then []
    else (if entries[0].studentID[0] != NUL then [entries[0]] else []) + NonEmpty(entries[1..])
  }

  /** Entries that all have a non-empty ID are all kept. */
  lemma {:induction false} NonEmptyAll(entries: seq<LogEntry>)
    requires forall i :: 0 <= i < |entries| ==> entries[i].studentID[0] != NUL
    ensures NonEmpty(entries) == entries
  {
    if entries != [] {
      NonEmptyAll(entries[1..]);
    }
  }

  /** Round trip: writing well-formed entries and reloading gives back,
      in order, exactly those with a non-empty ID, under either rule. */
  lemma {:induction false} ReloadEncodeLog(rule: ReloadRule, entries: seq<LogEntry>, paddings: seq<Padding>)
    requires |paddings| == |entries|
    requires forall i :: 0 <= i < |entries| ==> WellFormed(entries[i])
    ensures Reload(rule, EncodeLog(entries, paddings)) == NonEmpty(entries)
  {
    if entries != [] {
      var bytes := EncodeLog(entries, paddings);
      var head := EncodeRecord(entries[0], paddings[0]);
      assert bytes[..RECORD_SIZE] == head;
      assert bytes[RECORD_SIZE..] == EncodeLog(entries[1..], paddings[1..]);
      RecordRoundTrip(entries[0], paddings[0]);
      ReloadWellFormed(rule, entries[0]);
      ReloadEncodeLog(rule, entries[1..], paddings[1..]);
    }
  }

  /** A trailing partial record (a write cut short) is ignored. */
  lemma {:induction false} ReloadIgnoresPartialTail(rule: ReloadRule, bytes: seq<CChar>, tail: seq<CChar>)
    requires |bytes| % RECORD_SIZE == 0
    requires |tail| < RECORD_SIZE
    ensures Reload(rule, bytes + tail) == Reload(rule, bytes)
    decreases |bytes|
  {
    if |bytes| == 0 {
      assert bytes + tail == tail;
    } else {
      var all := bytes + tail;
      assert all[..RECORD_SIZE] == bytes[..RECORD_SIZE];
      assert all[RECORD_SIZE..] == bytes[RECORD_SIZE..] + tail;
      ReloadIgnoresPartialTail(rule, bytes[RECORD_SIZE..], tail);
    }
  }

  /** Reloading a file that grew by one record extends `logs` by at most
      that record. */
  lemma {:induction false} ReloadAppend(rule: ReloadRule, bytes: seq<CChar>, record: seq<CChar>)
    requires |bytes| % RECORD_SIZE == 0
    requires |record| == RECORD_SIZE
    ensures Reload(rule, bytes + record) == Reload(rule, bytes) + Kept(rule, record)
    decreases |bytes|
  {
    var all := bytes + record;
    if |bytes| == 0 {
      assert all == record;
      assert all[..RECORD_SIZE] == record && all[RECORD_SIZE..] == [];
      assert Reload(rule, all) == Kept(rule, record) + Reload(rule, []);
    } else {
      assert all[..RECORD_SIZE] == bytes[..RECORD_SIZE];
      assert all[RECORD_SIZE..] == bytes[RECORD_SIZE..] + record;
      ReloadAppend(rule, bytes[RECORD_SIZE..], record);
      var k := Kept(rule, bytes[..RECORD_SIZE]);
      calc {
        Reload(rule, all);
        k + Reload(rule, bytes[RECORD_SIZE..] + record);
        k + (Reload(rule, bytes[RECORD_SIZE..]) + Kept(rule, record));
        (k + Reload(rule, bytes[RECORD_SIZE..])) + Kept(rule, record);
      }
    }
  }
}
