/** `RFIDClient` in client.cpp: the request it sends for a scan and how it
    reads the server's reply, with `std::string`'s index arithmetic in
    `size_t` written out. The socket is outside: whether the connection
    succeeds and the bytes `recv` delivers are inputs. */
module Client {
  import opened Wrappers
  import opened CStrings
  import opened Text
  import opened Roster
  import opened Server

  /** `std::string::npos`, and the modulus of `size_t` arithmetic. */
  const SIZE_MOD: nat := 0x1_0000_0000_0000_0000
  const NPOS: nat := SIZE_MOD - 1

  /** The size of the receive buffer, less the byte kept for the
      terminator. */
  const RECV_MAX: nat := 1023

  /** What a scan shows. `OutOfRange` is the `std::out_of_range` that
      `substr` throws, which nothing catches. */
  datatype ScanOutcome =
    | NotConnected
    | NoReply
    | NotFound
    | Found(name: string, program: string)
    | OutOfRange

  /** `"SCAN:" + npm` */
  function Request(npm: string): (r: string)
    ensures |r| == 5 + |npm| && r[..5] == "SCAN:" && r[5..] == npm
  {
    "SCAN:" + npm
  }

  /** `s.find(c, from)`: the first occurrence at or after `from`, with
      `npos` for "not found" (no `std::string` reaches `npos` in length). */
  function FindPos(s: string, c: char, from: nat): (pos: nat)
    ensures pos == NPOS || (from <= pos < |s| && s[pos] == c)
    ensures pos != NPOS ==> forall j :: from <= j < pos ==> s[j] != c
    ensures |s| <= NPOS ==> (pos == NPOS <==> forall j :: from <= j < |s| ==> s[j] != c)
  {
    match FindFrom(s, c, from)
    case None => NPOS
    case Some(k) => k
  }

  /** `s.substr(pos, count)`: throws when `pos > |s|`, otherwise at most
      `count` characters from `pos`. */
  function Substr(s: string, pos: nat, count: nat): (r: Option<string>)
    ensures r.None? <==> pos > |s|
    ensures r.Some? ==> |r.value| == Min(count, |s| - pos) && r.value <= s[pos..]
  {
    if pos > |s| then None
    else if count < |s| - pos then Some(s[pos..pos + count])
    else Some(s[pos..])
  }

  /** The `FOUND` branch of `simulateRFIDScan` as written: the first
      colon is searched for from index 5, the name is
      `substr(6, pos1 - 6)` and the program `substr(pos1 + 1)`, with the
      subtraction and the addition wrapping modulo `SIZE_MOD`. */
  function DecodeReply(response: string): (r: ScanOutcome)
    ensures r.NotFound? <==> !(|response| >= 5 && response[..5] == "FOUND")
    ensures r.NotFound? || r.Found? || r.OutOfRange?
  {
    if !(|response| >= 5 && response[..5] == "FOUND") then NotFound
    else
      var pos1 := FindPos(response, ':', 5);
      var name := Substr(response, 6, (pos1 - 6) % SIZE_MOD);
      var program := Substr(response, (pos1 + 1) % SIZE_MOD, NPOS);
      if name.None? || program.None? then OutOfRange
      else Found(name.value, program.value)
  }

  /** The remaining `FOUND` shape, as written: when the first colon from
      index 5 on is at `p > 5`, the name is the text from index 6 up to it
      and the program the text after it. */
  lemma DecodeReplyLaterColon(response: string, p: nat)
    requires 5 < p < |response| < NPOS && response[p] == ':'
    requires response[..5] == "FOUND"
    requires forall j :: 5 <= j < p ==> response[j] != ':'
    ensures DecodeReply(response) == Found(response[6..p], response[p + 1..])
  {
    FindFromAt(response, ':', 5, p);
    assert (p - 6) % SIZE_MOD == p - 6;
    assert (p + 1) % SIZE_MOD == p + 1;
    assert Substr(response, 6, p - 6) == Some(response[6..p]);
    assert Substr(response, p + 1, NPOS) == Some(response[p + 1..]);
  }

  /** What the decoder as written makes of each reply (any `std::string`
      is shorter than `npos`): a reply that does not start with `FOUND`
      is "not found"; `FOUND` alone throws; a colon right after `FOUND`
      makes both fields the whole tail; no colon at all makes the program
      the entire reply. */
  lemma DecodeReplyCases(response: string)
    requires |response| < NPOS
    ensures !(|response| >= 5 && response[..5] == "FOUND") ==> DecodeReply(response) == NotFound
    ensures response == "FOUND" ==> DecodeReply(response) == OutOfRange
    ensures |response| >= 6 && response[..5] == "FOUND" && response[5] == ':' ==>
      DecodeReply(response) == Found(response[6..], response[6..])
    ensures |response| >= 6 && response[..5] == "FOUND" && ':' !in response[5..] ==>
      DecodeReply(response) == Found(response[6..], response)
  {
    if |response| >= 6 && response[..5] == "FOUND" {
      if response[5] == ':' {
        FindFromAt(response, ':', 5, 5);
        assert (5 - 6) % SIZE_MOD == NPOS;
        assert Substr(response, 6, NPOS) == Some(response[6..]);
      } else if ':' !in response[5..] {
        assert forall j :: 5 <= j < |response| ==> response[j] == response[5..][j - 5];
        assert FindPos(response, ':', 5) == NPOS;
        assert (NPOS - 6) % SIZE_MOD == NPOS - 6;
        assert (NPOS + 1) % SIZE_MOD == 0;
        assert Substr(response, 6, NPOS - 6) == Some(response[6..]);
        assert Substr(response, 0, NPOS) == Some(response[0..]);
        assert response[0..] == response;
      }
    }
  }

  /** The reply the server builds for a student decodes, as written, with
      name and program both equal to `name:program`. */
  lemma DecodeFoundReplyAsWritten(name: string, program: string)
    requires |FoundReply(name, program)| < NPOS
    ensures DecodeReply(FoundReply(name, program)) == Found(name + ":" + program, name + ":" + program)
  {
    var r := FoundReply(name, program);
    assert r[..5] == "FOUND" && r[5] == ':';
    assert r[6..] == name + ":" + program;
    DecodeReplyCases(r);
  }

  /** Hence a found student's name and program are never shown as the
      two fields the server sent. */
  lemma FoundFieldsNeverSeparate(name: string, program: string)
    requires |FoundReply(name, program)| < NPOS
    ensures DecodeReply(FoundReply(name, program)) != Found(name, program)
  {
    DecodeFoundReplyAsWritten(name, program);
  }

  /** The decoder as intended: the first colon after `FOUND:` separates
      name from program; a reply that is not `FOUND:` followed by the
      fields is "not found" rather than an exception. */
  function DecodeReplyFixed(response: string): (r: ScanOutcome)
    ensures r.NotFound? || r.Found?
  {
    if !(|response| >= 6 && response[..6] == "FOUND:") then NotFound
    else match FindFrom(response, ':', 6)
      case None => Found(response[6..], "")
      case Some(pos1) => Found(response[6..pos1], response[pos1 + 1..])
  }

  /** The fixed decoder gives back the fields of the server's reply, so
      long as the name holds no colon; `OK` is "not found". */
  lemma DecodeReplyFixedRoundTrip(name: string, program: string)
    requires ':' !in name
    ensures DecodeReplyFixed(FoundReply(name, program)) == Found(name, program)
    ensures DecodeReplyFixed("OK") == NotFound
  {
    var r := FoundReply(name, program);
    assert r == "FOUND:" + name + [':'] + program;
    FindFromAt(r, ':', 6, 6 + |name|);
    assert r[6..6 + |name|] == name;
    assert r[6 + |name| + 1..] == program;
  }

  /** The two decoders agree on every reply that is not a `FOUND` one. */
  lemma DecodersAgreeOnNotFound(response: string)
    requires !(|response| >= 5 && response[..5] == "FOUND")
    ensures DecodeReply(response) == DecodeReplyFixed(response) == NotFound
  {
  }

  /** What the client as written shows for the bytes `recv` delivered:
      nothing for an empty read, otherwise the C string in the buffer,
      decoded by the as-written decoder. */
  function ReadReply(received: seq<CChar>): (r: ScanOutcome)
    requires |received| <= RECV_MAX
    ensures r.NoReply? <==> received == []
    ensures !r.NotConnected?
    ensures received != [] && CStr(received) == "FOUND" ==> r.OutOfRange?
  {
    if received == [] then NoReply else DecodeReply(CStr(received))
  }

  /** The same read with the corrected decoder: never an exception. */
  function ReadReplyFixed(received: seq<CChar>): (r: ScanOutcome)
    requires |received| <= RECV_MAX
    ensures r.NoReply? <==> received == []
    ensures r.NoReply? || r.NotFound? || r.Found?
  {
    if received == [] then NoReply else DecodeReplyFixed(CStr(received))
  }

  class RFIDClient {
    var connected: bool
    /** The requests put on the socket so far. */
    var sent: seq<string>

    constructor ()
      ensures !connected && sent == []
    {
      connected := false;
      sent := [];
    }

    /** `connectToServer`: only a successful connection sets the flag; a
        failure leaves it as it was. */
    method ConnectToServer(succeeds: bool) returns (ok: bool)
      modifies this`connected
      ensures ok == succeeds
      ensures connected == (old(connected) || succeeds)
    {
      if !succeeds {
        return false;
      }
      connected := true;
      ok := true;
    }

    /** `simulateRFIDScan`: without a connection nothing is sent;
        otherwise the request goes out and the reply is read. */
    method SimulateRFIDScan(npm: string, received: seq<CChar>) returns (outcome: ScanOutcome)
      requires |received| <= RECV_MAX
      modifies this`sent
      ensures !connected ==> outcome == NotConnected && sent == old(sent)
      ensures connected ==> sent == old(sent) + [Request(npm)] && outcome == ReadReplyFixed(received)
    {
      if !connected {
        return NotConnected;
      }
      var message := Request(npm);
      sent := sent + [message];
      if received == [] {
        return NoReply;
      }
      var response := CStr(received);
      outcome := DecodeReplyFixed(response);
    }
  }

  /** The server reads the client's request back as the npm up to its
      first NUL: an npm without one arrives whole. */
  lemma RequestParsedByServer(npm: string)
    ensures ScanNpm(CStr(Request(npm))) == Some(CStr(npm))
  {
    var m := Request(npm);
    var k := Strlen(npm);
    StrlenUnique(m, 5 + k);
    assert CStr(m) == "SCAN:" + CStr(npm);
  }

  /** Over a connection, a scan of an npm without NUL gets the server's
      verdict: the roster student's name and program when the npm is on
      the roster (and the name holds no colon), "not found" otherwise. */
  lemma ScanRoundTrip(students: seq<Student>, npm: string)
    requires NUL !in npm
    requires forall i :: 0 <= i < |students| ==> NUL !in students[i].name && NUL !in students[i].program
    requires forall i :: 0 <= i < |students| ==> ':' !in students[i].name
    ensures ScanNpm(CStr(Request(npm))) == Some(npm)
    ensures FirstMatch(students, npm).None? ==> DecodeReplyFixed(CStr(ReplyFor(students, npm))) == NotFound
    ensures FirstMatch(students, npm).Some? ==>
      var s := students[FirstMatch(students, npm).value];
      DecodeReplyFixed(CStr(ReplyFor(students, npm))) == Found(s.name, s.program)
  {
    RequestParsedByServer(npm);
    StrlenOfNulFree(npm);
    var reply := ReplyFor(students, npm);
    match FirstMatch(students, npm)
    case None =>
      assert reply == "OK";
      StrlenOfNulFree(reply);
      DecodeReplyFixedRoundTrip("", "");
    case Some(k) =>
      var s := students[k];
      assert reply == FoundReply(s.name, s.program);
      assert NUL !in reply;
      StrlenOfNulFree(reply);
      DecodeReplyFixedRoundTrip(s.name, s.program);
  }

  /** The same scan with the client as written: a student on the roster
      is shown with `name:program` as both name and program; an npm not on
      the roster is "not found". */
  lemma ScanAsWritten(students: seq<Student>, npm: string)
    requires forall i :: 0 <= i < |students| ==> NUL !in students[i].name && NUL !in students[i].program
    requires |ReplyFor(students, npm)| < NPOS
    ensures FirstMatch(students, npm).None? ==> DecodeReply(CStr(ReplyFor(students, npm))) == NotFound
    ensures FirstMatch(students, npm).Some? ==>
      var s := students[FirstMatch(students, npm).value];
      DecodeReply(CStr(ReplyFor(students, npm))) == Found(s.name + ":" + s.program, s.name + ":" + s.program)
  {
    var reply := ReplyFor(students, npm);
    match FirstMatch(students, npm)
    case None =>
      assert reply == "OK";
      StrlenOfNulFree(reply);
    case Some(k) =>
      var s := students[k];
      assert reply == FoundReply(s.name, s.program);
      assert NUL !in reply;
      StrlenOfNulFree(reply);
      DecodeFoundReplyAsWritten(s.name, s.program);
  }
}
