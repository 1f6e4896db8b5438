/** The fixed-width scan record shared by the attendance programs
    (`LogEntry` in attendance_common.h, repeated in iambouttogram.cpp). */
module AttendanceCommon {
  import opened CStrings

  /** Size of the ID field, terminator included. */
  const STUDENT_ID_MAX_LEN: nat := 20

  /** Longest ID the field can hold in front of its terminator. */
  const MAX_ID_CHARS: nat := STUDENT_ID_MAX_LEN - 1

  const INT64_MIN: int := -0x8000_0000_0000_0000
  const INT64_MAX: int := 0x7fff_ffff_ffff_ffff

  /** `long long` */
  type Int64 = x: int | INT64_MIN <= x <= INT64_MAX

  /** `char studentID[STUDENT_ID_MAX_LEN]` */
  type IdField = s: seq<CChar> | |s| == STUDENT_ID_MAX_LEN witness Nuls(STUDENT_ID_MAX_LEN)

  datatype LogEntry = LogEntry(studentID: IdField, timestamp: Int64)

  /** The ID a record stands for: its field read as a C string. */
  function IdOf(e: LogEntry): (id: seq<char>)
    ensures |id| <= STUDENT_ID_MAX_LEN
    ensures NUL !in id
  {
    CStr(e.studentID)
  }

  /** `LogEntry()`: only byte 0 of the ID field is written; bytes 1..19
      keep whatever the storage held before (`prior`). */
  function DefaultEntry(prior: IdField): (e: LogEntry)
    ensures e.timestamp == 0
    ensures IdOf(e) == []
    ensures e.studentID[0] == NUL
    ensures e.studentID[1..] == prior[1..]
  {
    LogEntry([NUL] + prior[1..], 0)
  }

  /** `LogEntry(id, ts)`: `strncpy` of at most 19 bytes, then byte 19 is
      set to NUL. */
  function MakeEntry(id: seq<CChar>, ts: Int64): (e: LogEntry)
    ensures e.timestamp == ts
    ensures e.studentID[STUDENT_ID_MAX_LEN - 1] == NUL
    ensures forall i :: 0 <= i < Min(Strlen(id), MAX_ID_CHARS) ==> e.studentID[i] == id[i]
    ensures forall i :: Min(Strlen(id), MAX_ID_CHARS) <= i < STUDENT_ID_MAX_LEN ==> e.studentID[i] == NUL
  {
    LogEntry(Strncpy(id, MAX_ID_CHARS) + [NUL], ts)
  }

  /** The C string read back from a constructed entry is the first
      min(strlen(id), 19) bytes of the ID. */
  lemma MakeEntryReadBack(id: seq<CChar>, ts: Int64)
    ensures IdOf(MakeEntry(id, ts)) == CStr(id)[..Min(Strlen(id), MAX_ID_CHARS)]
    ensures |IdOf(MakeEntry(id, ts))| == Min(Strlen(id), MAX_ID_CHARS)
  {
    var f := MakeEntry(id, ts).studentID;
    var k := Min(Strlen(id), MAX_ID_CHARS);
    StrlenUnique(f, k);
    assert CStr(f) == f[..k];
    assert f[..k] == id[..k];
    assert CStr(id)[..k] == id[..k];
  }

  /** An ID of up to 19 bytes without an embedded NUL reads back unchanged;
      a longer one reads back as its 19-byte prefix. */
  lemma MakeEntryPreservesShortId(id: seq<CChar>, ts: Int64)
    requires NUL !in id
    ensures |id| <= MAX_ID_CHARS ==> IdOf(MakeEntry(id, ts)) == id
    ensures |id| > MAX_ID_CHARS ==> IdOf(MakeEntry(id, ts)) == id[..MAX_ID_CHARS]
  {
    StrlenOfNulFree(id);
    MakeEntryReadBack(id, ts);
  }

  /** Two IDs that are both accepted and NUL-free make equal fields only
      when they are equal. */
  lemma MakeEntryInjective(a: seq<CChar>, b: seq<CChar>, ts: Int64)
    requires NUL !in a && NUL !in b
    requires |a| <= MAX_ID_CHARS && |b| <= MAX_ID_CHARS
    requires MakeEntry(a, ts) == MakeEntry(b, ts)
    ensures a == b
  {
    MakeEntryPreservesShortId(a, ts);
    MakeEntryPreservesShortId(b, ts);
  }
}
