/** The lab entry/exit sequencer of project/src/AttendanceSystem.cpp: a
    scan at a reader toggles the user between inside and outside, moves
    the lab's occupancy and queues a log, and the logger drains the queue
    into the processed logs. The logger thread's drain is an explicit
    call here, the clock a parameter. */
module LabAttendance {
  import opened Wrappers
  import opened Decimal

  /** A `system_clock::time_point`: only compared and stored, so the
      model keeps it as a plain integer. */
  type Time = int

  datatype User = User(id: string, name: string, role: string, rfidId: string)

  datatype Lab = Lab(id: string, name: string, location: string, capacity: int, currentOccupancy: int)

  /** The reader's last ping is left out with `updateStatus`. */
  datatype RFIDReader = RFIDReader(id: string, labId: string, online: bool)

  datatype ScanLog = ScanLog(
    id: string, userId: string, userName: string, userRole: string,
    rfidId: string, readerId: string, labId: string, labName: string,
    timestamp: Time, isEntry: bool)

  /** `Lab(id, name, location, capacity)`: nobody inside yet. */
  function NewLab(id: string, name: string, location: string, capacity: int): (l: Lab)
    ensures l.currentOccupancy == 0
  {
    Lab(id, name, location, capacity, 0)
  }

  /** `RFIDReader(id, labId)`: online from the start. */
  function NewReader(id: string, labId: string): (r: RFIDReader)
    ensures r.online
  {
    RFIDReader(id, labId, true)
  }

  /** Everything the sequencer keeps. */
  datatype LabState = LabState(
    users: seq<User>, labs: seq<Lab>, readers: seq<RFIDReader>,
    logs: seq<ScanLog>, queue: seq<ScanLog>)

  /** `find_if` over the users by RFID tag. */
  function UserByRfid(users: seq<User>, rfid: string): (r: Option<nat>)
    ensures r.Some? ==> r.value < |users| && users[r.value].rfidId == rfid
    ensures r.Some? ==> forall j :: 0 <= j < r.value ==> users[j].rfidId != rfid
    ensures r.None? <==> forall i :: 0 <= i < |users| ==> users[i].rfidId != rfid
  {
    if users == [] then None
    else if users[0].rfidId == rfid then Some(0)
    else match UserByRfid(users[1..], rfid)
      case None => None
      case Some(k) => Some(k + 1)
  }

  /** `find_if` over the readers by ID. */
  function ReaderById(readers: seq<RFIDReader>, id: string): (r: Option<nat>)
    ensures r.Some? ==> r.value < |readers| && readers[r.value].id == id
    ensures r.Some? ==> forall j :: 0 <= j < r.value ==> readers[j].id != id
    ensures r.None? <==> forall i :: 0 <= i < |readers| ==> readers[i].id != id
  {
    if readers == [] then None
    else if readers[0].id == id then Some(0)
    else match ReaderById(readers[1..], id)
      case None => None
      case Some(k) => Some(k + 1)
  }

  /** `find_if` over the labs by ID. */
  function LabById(labs: seq<Lab>, id: string): (r: Option<nat>)
    ensures r.Some? ==> r.value < |labs| && labs[r.value].id == id
    ensures r.Some? ==> forall j :: 0 <= j < r.value ==> labs[j].id != id
    ensures r.None? <==> forall i :: 0 <= i < |labs| ==> labs[i].id != id
  {
    if labs == [] then None
    else if labs[0].id == id then Some(0)
    else match LabById(labs[1..], id)
      case None => None
      case Some(k) => Some(k + 1)
  }

  /** Log `i` is the user's most recent one. */
  predicate IsLastOf(logs: seq<ScanLog>, userId: string, i: int)
  {
    0 <= i < |logs| && logs[i].userId == userId && forall j :: i < j < |logs| ==> logs[j].userId != userId
  }

  /** `find_if` from the back of the processed logs: the index of the
      user's most recent log. */
  function LastIndex(logs: seq<ScanLog>, userId: string): (r: Option<nat>)
    ensures r.Some? ==> IsLastOf(logs, userId, r.value)
    ensures r.None? <==> forall i :: 0 <= i < |logs| ==> logs[i].userId != userId
  {
    if logs == [] then None
    else if logs[|logs| - 1].userId == userId then Some(|logs| - 1)
    else LastIndex(logs[..|logs| - 1], userId)
  }

  /** The entry flag of the user's most recent processed log. */
  function LastFlag(logs: seq<ScanLog>, userId: string): Option<bool>
  {
    match LastIndex(logs, userId)
    case None => None
    case Some(i) => Some(logs[i].isEntry)
  }

  /** A user with no processed log enters; otherwise the last movement is
      reversed. */
  function NextIsEntry(logs: seq<ScanLog>, userId: string): (r: bool)
    ensures (forall i :: 0 <= i < |logs| ==> logs[i].userId != userId) ==> r
    ensures forall i :: IsLastOf(logs, userId, i) ==> r == !logs[i].isEntry
  {
    match LastFlag(logs, userId)
    case None => true
    case Some(b) => !b
  }

  /** `"log-" + std::to_string(logs.size() + 1)` */
  function LogId(processed: nat): (r: string)
    ensures |r| > 4 && r[..4] == "log-" && r[4] != '0'
    ensures forall i :: 4 <= i < |r| ==> IsDigit(r[i])
    ensures DecimalValue(r[4..]) == processed + 1
  {
    var digits := NatToDecimal(processed + 1);
    DecimalRoundTrip(processed + 1);
    assert ("log-" + digits)[4..] == digits;
    "log-" + digits
  }

  /** `+1` on entry, `-1` on exit. */
  function Delta(isEntry: bool): (d: int)
    ensures d == 1 || d == -1
    ensures d > 0 <==> isEntry
  {
    if isEntry then 1 else -1
  }

  /** A scan is accepted when the tag and the reader are known, the
      reader is online and its lab exists. */
  predicate Accepted(st: LabState, rfid: string, readerId: string)
  {
    var u := UserByRfid(st.users, rfid);
    var r := ReaderById(st.readers, readerId);
    u.Some? && r.Some? && st.readers[r.value].online && LabById(st.labs, st.readers[r.value].labId).Some?
  }

  /** `simulateRFIDScan` */
  function Scan(st: LabState, rfid: string, readerId: string, now: Time): (r: LabState)
    ensures !Accepted(st, rfid, readerId) ==> r == st
    ensures Accepted(st, rfid, readerId) ==>
      && r.users == st.users && r.readers == st.readers && r.logs == st.logs
      && |r.labs| == |st.labs| && |r.queue| == |st.queue| + 1
  {
    if !Accepted(st, rfid, readerId) then st
    else
      var user := st.users[UserByRfid(st.users, rfid).value];
      var reader := st.readers[ReaderById(st.readers, readerId).value];
      var li := LabById(st.labs, reader.labId).value;
      var lab := st.labs[li];
      var isEntry := NextIsEntry(st.logs, user.id);
      var log := ScanLog(LogId(|st.logs|), user.id, user.name, user.role, user.rfidId,
                         reader.id, lab.id, lab.name, now, isEntry);
      st.(labs := st.labs[li := lab.(currentOccupancy := lab.currentOccupancy + Delta(isEntry))],
          queue := st.queue + [log])
  }

  /** The inner loop of `processLogQueue`: the queue, front first, onto
      the end of the processed logs. */
  function Drain(st: LabState): (r: LabState)
    ensures r.queue == [] && |r.logs| == |st.logs| + |st.queue|
    ensures r.logs[..|st.logs|] == st.logs && r.logs[|st.logs|..] == st.queue
    ensures r.users == st.users && r.labs == st.labs && r.readers == st.readers
  {
    st.(logs := st.logs + st.queue, queue := [])
  }

  /** A refused scan changes nothing: unknown tag, unknown reader,
      offline reader or missing lab. */
  lemma ScanRefused(st: LabState, rfid: string, readerId: string, now: Time)
    requires
      || (forall i :: 0 <= i < |st.users| ==> st.users[i].rfidId != rfid)
      || (forall i :: 0 <= i < |st.readers| ==> st.readers[i].id != readerId)
      || (forall i :: 0 <= i < |st.readers| && st.readers[i].id == readerId ==> !st.readers[i].online)
      || (forall i, j :: 0 <= i < |st.readers| && st.readers[i].id == readerId && 0 <= j < |st.labs| ==>
            st.labs[j].id != st.readers[i].labId)
    ensures Scan(st, rfid, readerId, now) == st
  {
  }

  /** What acceptance means: a user holds the tag and an online reader
      with the ID sits in an existing lab; conversely, a known tag and a
      known reader ID are accepted when every reader with that ID is
      online and in an existing lab. */
  lemma AcceptedMeans(st: LabState, rfid: string, readerId: string)
    ensures Accepted(st, rfid, readerId) ==>
      && (exists i :: 0 <= i < |st.users| && st.users[i].rfidId == rfid)
      && (exists j :: 0 <= j < |st.readers| && st.readers[j].id == readerId && st.readers[j].online &&
            exists k :: 0 <= k < |st.labs| && st.labs[k].id == st.readers[j].labId)
    ensures
      && (exists i :: 0 <= i < |st.users| && st.users[i].rfidId == rfid)
      && (exists j :: 0 <= j < |st.readers| && st.readers[j].id == readerId)
      && (forall j :: 0 <= j < |st.readers| && st.readers[j].id == readerId ==>
            st.readers[j].online && exists k :: 0 <= k < |st.labs| && st.labs[k].id == st.readers[j].labId)
      ==> Accepted(st, rfid, readerId)
  {
  }

  /** An accepted scan queues exactly one log, for the scanning user at
      the reader's lab, leaves the processed logs, users and readers
      alone, and changes the occupancy of that lab only, by one. */
  lemma ScanQueuesOne(st: LabState, rfid: string, readerId: string, now: Time)
    requires Accepted(st, rfid, readerId)
    ensures var st' := Scan(st, rfid, readerId, now);
      var user := st.users[UserByRfid(st.users, rfid).value];
      var reader := st.readers[ReaderById(st.readers, readerId).value];
      var log := st'.queue[|st'.queue| - 1];
      var li := LabById(st.labs, log.labId).value;
      && |st'.queue| == |st.queue| + 1 && st'.queue[..|st.queue|] == st.queue
      && st'.logs == st.logs && st'.users == st.users && st'.readers == st.readers
      && log.userId == user.id && log.userName == user.name && log.userRole == user.role
      && log.rfidId == rfid && log.readerId == readerId && log.timestamp == now
      && log.labId == reader.labId && LabById(st.labs, log.labId).Some?
      && log.labName == st.labs[li].name
      && log.isEntry == NextIsEntry(st.logs, user.id)
      && log.id == LogId(|st.logs|)
      && |st'.labs| == |st.labs|
      && st'.labs[li] == st.labs[li].(currentOccupancy := st.labs[li].currentOccupancy + Delta(log.isEntry))
      && (forall j :: 0 <= j < |st.labs| && j != li ==> st'.labs[j] == st.labs[j])
  {
    var st' := Scan(st, rfid, readerId, now);
    assert st'.queue[..|st.queue|] == st.queue;
  }

  /** The state an accepted scan leaves, given the three lookups, the
      lab with its occupancy moved and the log queued. */
  lemma ScanWhenAccepted(st: LabState, rfid: string, readerId: string, now: Time,
                         ui: nat, ri: nat, li: nat, moved: Lab, log: ScanLog)
    requires UserByRfid(st.users, rfid) == Some(ui) && ReaderById(st.readers, readerId) == Some(ri)
    requires st.readers[ri].online && LabById(st.labs, st.readers[ri].labId) == Some(li)
    requires var isEntry := NextIsEntry(st.logs, st.users[ui].id);
      && moved == st.labs[li].(currentOccupancy := st.labs[li].currentOccupancy + Delta(isEntry))
      && log == ScanLog(LogId(|st.logs|), st.users[ui].id, st.users[ui].name, st.users[ui].role,
                        st.users[ui].rfidId, st.readers[ri].id, st.labs[li].id, st.labs[li].name, now, isEntry)
    ensures Scan(st, rfid, readerId, now) == st.(labs := st.labs[li := moved], queue := st.queue + [log])
  {
  }

  /** Total occupancy over the labs. */
  function Occupancy(labs: seq<Lab>): int
  {
    if labs == [] then 0 else Occupancy(labs[..|labs| - 1]) + labs[|labs| - 1].currentOccupancy
  }

  /** Entries minus exits. */
  function NetEntries(logs: seq<ScanLog>): int
  {
    if logs == [] then 0 else NetEntries(logs[..|logs| - 1]) + Delta(logs[|logs| - 1].isEntry)
  }

  lemma {:induction false} OccupancyUpdate(labs: seq<Lab>, i: nat, l: Lab)
    requires i < |labs|
    ensures Occupancy(labs[i := l]) == Occupancy(labs) - labs[i].currentOccupancy + l.currentOccupancy
    decreases |labs|
  {
    var n := |labs| - 1;
    if i < n {
      assert labs[i := l][..n] == labs[..n][i := l];
      OccupancyUpdate(labs[..n], i, l);
    } else {
      assert labs[i := l][..n] == labs[..n];
    }
  }

  lemma {:induction false} NetEntriesConcat(a: seq<ScanLog>, b: seq<ScanLog>)
    ensures NetEntries(a + b) == NetEntries(a) + NetEntries(b)
    decreases |b|
  {
    if b == [] {
      assert a + b == a;
    } else {
      var n := |b| - 1;
      assert (a + b)[..|a + b| - 1] == a + b[..n];
      NetEntriesConcat(a, b[..n]);
    }
  }

  /** The sum of the labs' occupancies is the number of entries minus the
      number of exits over the processed and the queued logs. */
  predicate Balanced(st: LabState)
  {
    Occupancy(st.labs) == NetEntries(st.logs + st.queue)
  }

  /** A scan keeps the books balanced. */
  lemma ScanBalanced(st: LabState, rfid: string, readerId: string, now: Time)
    requires Balanced(st)
    ensures Balanced(Scan(st, rfid, readerId, now))
  {
    if Accepted(st, rfid, readerId) {
      var st' := Scan(st, rfid, readerId, now);
      ScanQueuesOne(st, rfid, readerId, now);
      var log := st'.queue[|st'.queue| - 1];
      var li := LabById(st.labs, log.labId).value;
      assert st'.labs == st.labs[li := st'.labs[li]];
      OccupancyUpdate(st.labs, li, st'.labs[li]);
      assert st'.queue == st.queue + [log];
      assert st'.logs + st'.queue == (st.logs + st.queue) + [log];
      NetEntriesConcat(st.logs + st.queue, [log]);
    }
  }

  /** Draining moves logs without changing the books. */
  lemma DrainBalanced(st: LabState)
    requires Balanced(st)
    ensures Balanced(Drain(st))
  {
    assert Drain(st).logs + Drain(st).queue == st.logs + st.queue;
  }

  /** The entry flags of one user's logs, in log order. */
  function UserFlags(logs: seq<ScanLog>, userId: string): seq<bool>
  {
    if logs == [] then []
    else
      var last := logs[|logs| - 1];
      UserFlags(logs[..|logs| - 1], userId) + (if last.userId == userId then [last.isEntry] else [])
  }

  /** Entry, exit, entry, ... */
  predicate Alternating(flags: seq<bool>)
  {
    forall i :: 0 <= i < |flags| ==> flags[i] == (i % 2 == 0)
  }

  /** Every user's logs alternate, starting with an entry. */
  ghost predicate WellAlternating(logs: seq<ScanLog>)
  {
    forall userId :: Alternating(UserFlags(logs, userId))
  }

  /** The most recent flag of a user is the last of their flags. */
  lemma {:induction false} LastFlagIsLast(logs: seq<ScanLog>, userId: string)
    ensures LastFlag(logs, userId).None? <==> UserFlags(logs, userId) == []
    ensures LastFlag(logs, userId).Some? ==>
      LastFlag(logs, userId).value == UserFlags(logs, userId)[|UserFlags(logs, userId)| - 1]
    decreases |logs|
  {
    if logs != [] && logs[|logs| - 1].userId != userId {
      LastFlagIsLast(logs[..|logs| - 1], userId);
    }
  }

  /** On alternating flags the toggle gives the next flag in the
      pattern: an entry after an even number of moves. */
  lemma NextIsEntryAlternates(logs: seq<ScanLog>, userId: string)
    requires Alternating(UserFlags(logs, userId))
    ensures NextIsEntry(logs, userId) == (|UserFlags(logs, userId)| % 2 == 0)
  {
    LastFlagIsLast(logs, userId);
  }

  /** Toggling: after a log, the user's next move is the opposite one. */
  lemma NextIsEntryAfter(logs: seq<ScanLog>, log: ScanLog)
    ensures NextIsEntry(logs + [log], log.userId) == !log.isEntry
    ensures forall userId :: userId != log.userId ==> NextIsEntry(logs + [log], userId) == NextIsEntry(logs, userId)
  {
    assert (logs + [log])[..|logs|] == logs;
  }

  /** When the queue is drained before every scan, scanning and then
      draining keeps every user's logs alternating from an entry. */
  lemma ScanThenDrainAlternates(st: LabState, rfid: string, readerId: string, now: Time)
    requires st.queue == [] && WellAlternating(st.logs)
    ensures WellAlternating(Drain(Scan(st, rfid, readerId, now)).logs)
  {
    if Accepted(st, rfid, readerId) {
      var st' := Scan(st, rfid, readerId, now);
      ScanQueuesOne(st, rfid, readerId, now);
      var log := st'.queue[0];
      assert st'.queue == [log];
      var logs' := st.logs + [log];
      assert Drain(st').logs == logs';
      forall userId
        ensures Alternating(UserFlags(logs', userId))
      {
        assert logs'[..|logs'| - 1] == st.logs;
        if userId == log.userId {
          NextIsEntryAlternates(st.logs, userId);
        }
      }
    } else {
      assert st.logs + [] == st.logs;
    }
  }

  /** The first log of every user is an entry once logs alternate. */
  lemma FirstMoveIsEntry(logs: seq<ScanLog>, userId: string)
    requires WellAlternating(logs) && UserFlags(logs, userId) != []
    ensures UserFlags(logs, userId)[0]
  {
    assert Alternating(UserFlags(logs, userId));
  }

  /** The toggle reads the processed logs only: two accepted scans of
      the same tag with no drain between them queue two logs with the same
      ID and the same direction. */
  lemma ScanTwiceWithoutDrain(st: LabState, rfid: string, readerId: string, t1: Time, t2: Time)
    requires Accepted(st, rfid, readerId)
    ensures var s1 := Scan(st, rfid, readerId, t1);
      var s2 := Scan(s1, rfid, readerId, t2);
      && |s2.queue| == |st.queue| + 2
      && s2.queue[|st.queue|].id == s2.queue[|st.queue| + 1].id == LogId(|st.logs|)
      && s2.queue[|st.queue|].isEntry == s2.queue[|st.queue| + 1].isEntry
  {
    var s1 := Scan(st, rfid, readerId, t1);
    ScanQueuesOne(st, rfid, readerId, t1);
    var r := ReaderById(st.readers, readerId).value;
    var li := LabById(st.labs, st.readers[r].labId).value;
    assert s1.readers == st.readers && s1.users == st.users;
    LabByIdSameIds(st.labs, s1.labs, st.readers[r].labId);
    assert Accepted(s1, rfid, readerId);
    ScanQueuesOne(s1, rfid, readerId, t2);
  }

  /** The lab lookup sees only the IDs. */
  lemma {:induction false} LabByIdSameIds(labs: seq<Lab>, labs': seq<Lab>, id: string)
    requires |labs| == |labs'|
    requires forall j :: 0 <= j < |labs| ==> labs[j].id == labs'[j].id
    ensures LabById(labs, id) == LabById(labs', id)
    decreases |labs|
  {
    if labs != [] {
      LabByIdSameIds(labs[1..], labs'[1..], id);
    }
  }

  /** Processed logs numbered `log-1`, `log-2`, ... in order. */
  predicate Numbered(logs: seq<ScanLog>)
  {
    forall i :: 0 <= i < |logs| ==> logs[i].id == LogId(i)
  }

  /** With the queue drained before each scan, log IDs stay consecutive,
      so no two processed logs share an ID. */
  lemma ScanThenDrainNumbered(st: LabState, rfid: string, readerId: string, now: Time)
    requires st.queue == [] && Numbered(st.logs)
    ensures Numbered(Drain(Scan(st, rfid, readerId, now)).logs)
  {
    if Accepted(st, rfid, readerId) {
      ScanQueuesOne(st, rfid, readerId, now);
    } else {
      assert Drain(Scan(st, rfid, readerId, now)).logs == st.logs + [];
    }
  }

  lemma NumberedDistinct(logs: seq<ScanLog>, i: nat, j: nat)
    requires Numbered(logs) && i < j < |logs|
    ensures logs[i].id != logs[j].id
  {
  }

  class LabSystem {
    var users: seq<User>
    var labs: seq<Lab>
    var readers: seq<RFIDReader>
    var logs: seq<ScanLog>
    /** `logQueue` */
    var queue: seq<ScanLog>

    function State(): LabState
      reads this
    {
      LabState(users, labs, readers, logs, queue)
    }

    /** The constructor's `initializeMockData`: four users, two labs,
        three readers, nothing logged. */
    constructor ()
      ensures Balanced(State()) && WellAlternating(logs) && Numbered(logs)
      ensures logs == [] && queue == []
      ensures users == [
        User("1", "John Doe", "student", "RF001"),
        User("2", "Jane Smith", "student", "RF002"),
        User("3", "Dr. Robert Brown", "staff", "RF003"),
        User("4", "Admin User", "admin", "RF004")]
      ensures labs == [
        Lab("1", "Computer Science Lab", "Building A, Floor 2", 30, 0),
        Lab("2", "Biomedical Lab", "Building B, Floor 1", 25, 0)]
      ensures readers == [RFIDReader("1", "1", true), RFIDReader("2", "1", true), RFIDReader("3", "2", true)]
      ensures forall i :: 0 <= i < |labs| ==> labs[i].currentOccupancy == 0
      ensures forall i :: 0 <= i < |readers| ==> readers[i].online
    {
      users := [
        User("1", "John Doe", "student", "RF001"),
        User("2", "Jane Smith", "student", "RF002"),
        User("3", "Dr. Robert Brown", "staff", "RF003"),
        User("4", "Admin User", "admin", "RF004")];
      labs := [
        NewLab("1", "Computer Science Lab", "Building A, Floor 2", 30),
        NewLab("2", "Biomedical Lab", "Building B, Floor 1", 25)];
      readers := [NewReader("1", "1"), NewReader("2", "1"), NewReader("3", "2")];
      logs := [];
      queue := [];
      new;
      assert Occupancy(labs) == Occupancy(labs[..1]) + 0;
      forall userId
        ensures Alternating(UserFlags(logs, userId))
      {
      }
    }

    /** `simulateRFIDScan` */
    method SimulateRFIDScan(rfid: string, readerId: string, now: Time)
      modifies this
      ensures State() == Scan(old(State()), rfid, readerId, now)
    {
      ghost var before := State();
      var u := UserByRfid(users, rfid);
      var r := ReaderById(readers, readerId);
      if u.None? || r.None? || !readers[r.value].online {
        assert !Accepted(before, rfid, readerId);
        assert State() == Scan(before, rfid, readerId, now);
        return;
      }
      var reader := readers[r.value];
      var l := LabById(labs, reader.labId);
      if l.None? {
        assert !Accepted(before, rfid, readerId);
        assert State() == Scan(before, rfid, readerId, now);
        return;
      }
      assert Accepted(before, rfid, readerId);
      var user := users[u.value];
      var isEntry := true;
      var last := LastFlag(logs, user.id);
      if last.Some? {
        isEntry := !last.value;
      }
      assert isEntry == NextIsEntry(logs, user.id);
      var lab := labs[l.value];
      var newLog := ScanLog(LogId(|logs|), user.id, user.name, user.role, user.rfidId,
                            reader.id, lab.id, lab.name, now, isEntry);
      var moved := if isEntry then lab.(currentOccupancy := lab.currentOccupancy + 1)
                   else lab.(currentOccupancy := lab.currentOccupancy - 1);
      ScanWhenAccepted(before, rfid, readerId, now, u.value, r.value, l.value, moved, newLog);
      labs := labs[l.value := moved];
      queue := queue + [newLog];
    }

    /** The inner loop of `processLogQueue`: pop the front, push it onto
        the processed logs, until the queue is empty. */
    method ProcessLogQueue()
      modifies this`logs, this`queue
      ensures State() == Drain(old(State()))
    {
      while queue != []
        invariant logs + queue == old(logs) + old(queue)
        invariant |logs| >= |old(logs)|
        decreases |queue|
      {
        var log := queue[0];
        queue := queue[1..];
        logs := logs + [log];
      }
      assert logs == logs + queue;
    }
  }
}
