/** The student roster as `RFIDServer::loadDatabase` reads it from
    iambouttogram.json: no JSON parser, but a scan of the file line by line
    that knows one field per line and one object per student. */
module Roster {
  import opened Wrappers
  import opened Text

  datatype Student = Student(npm: string, name: string, program: string)

  /** `Student()`: all three fields empty. */
  const Blank := Student("", "", "")

  /** The reader's state between two lines: the students so far, the
      record being filled in and whether a `{` has opened it. */
  datatype RosterState = RosterState(students: seq<Student>, current: Student, inObject: bool)

  /** A field line cut at its first `:`, with every `"` taken out of the
      key and every `"` and `,` taken out of the value. */
  function SplitField(line: string): (r: Option<(string, string)>)
    ensures r.None? <==> ':' !in line
    ensures r.Some? ==> '"' !in r.value.0 && '"' !in r.value.1 && ',' !in r.value.1
  {
    match Find(line, ':')
    case None => None
    case Some(k) => Some((RemoveChar(line[..k], '"'), RemoveChar(RemoveChar(line[k + 1..], '"'), ',')))
  }

  /** A key and its value: `npm`, `name` and `program` are set, a
      repeated key overwrites, any other key changes nothing. */
  function SetField(st: Student, key: string, value: string): Student
  {
    if key == "npm" then st.(npm := value)
    else if key == "name" then st.(name := value)
    else if key == "program" then st.(program := value)
    else st
  }

  /** A field line inside an object; a line without a colon changes
      nothing. */
  function AssignField(st: Student, line: string): Student
  {
    match SplitField(line)
    case None => st
    case Some((key, value)) => SetField(st, key, value)
  }

  /** One turn of the read loop: whitespace out, then `{` opens a fresh
      record, `}` or `},` closes it (keeping it only when its npm is
      set), and any other line inside an object is a field. */
  function Step(st: RosterState, raw: string): (r: RosterState)
    ensures st.students <= r.students && |r.students| <= |st.students| + 1
    ensures |r.students| > |st.students| ==> r.students[|st.students|] == st.current && st.current.npm != ""
  {
    var line := StripSpace(raw);
    if line == "{" then st.(current := Blank, inObject := true)
    else if line == "}," || line == "}" then
      RosterState(if st.inObject && st.current.npm != "" then st.students + [st.current] else st.students,
                  st.current, false)
    else if st.inObject then st.(current := AssignField(st.current, line))
    else st
  }

  /** The reader after all of `lines`. */
  function Run(st: RosterState, lines: seq<string>): RosterState
    decreases |lines|
  {
    if lines == [] then st else Run(Step(st, lines[0]), lines[1..])
  }

  lemma {:induction false} RunSnoc(st: RosterState, lines: seq<string>, line: string)
    ensures Run(st, lines + [line]) == Step(Run(st, lines), line)
    decreases |lines|
  {
    if lines == [] {
      assert lines + [line] == [line];
    } else {
      assert (lines + [line])[1..] == lines[1..] + [line];
      RunSnoc(Step(st, lines[0]), lines[1..], line);
    }
  }

  lemma {:induction false} RunConcat(st: RosterState, a: seq<string>, b: seq<string>)
    ensures Run(st, a + b) == Run(Run(st, a), b)
    decreases |a|
  {
    if a == [] {
      assert a + b == b;
    } else {
      assert (a + b)[1..] == a[1..] + b;
      RunConcat(Step(st, a[0]), a[1..], b);
    }
  }

  /** A field value as the reader leaves it: no whitespace, no `"`, no `,`. */
  predicate Clean(s: string)
  {
    NoSpace(s) && '"' !in s && ',' !in s
  }

  predicate CleanStudent(s: Student)
  {
    Clean(s.npm) && Clean(s.name) && Clean(s.program)
  }

  /** What the reader keeps: clean fields and a non-empty npm. */
  predicate Kept(s: Student)
  {
    CleanStudent(s) && s.npm != ""
  }

  lemma StepKeepsClean(st: RosterState, raw: string)
    requires CleanStudent(st.current)
    ensures CleanStudent(Step(st, raw).current)
    ensures Step(st, raw).students == st.students ||
      (Step(st, raw).students == st.students + [st.current] && Kept(st.current))
  {
    var line := StripSpace(raw);
    if line != "{" && line != "}," && line != "}" && st.inObject {
      match SplitField(line)
      case None =>
      case Some((key, value)) =>
        var k := Find(line, ':').value;
        assert NoSpace(line[k + 1..]);
        assert value == RemoveChar(RemoveChar(line[k + 1..], '"'), ',');
        assert Clean(value);
    }
  }

  /** Reading appends to the students it started with, and every student
      it appends has clean fields and a non-empty npm. */
  lemma {:induction false} RunAppendsKept(st: RosterState, lines: seq<string>)
    requires CleanStudent(st.current)
    ensures |Run(st, lines).students| >= |st.students|
    ensures Run(st, lines).students[..|st.students|] == st.students
    ensures forall i :: |st.students| <= i < |Run(st, lines).students| ==> Kept(Run(st, lines).students[i])
    ensures CleanStudent(Run(st, lines).current)
    decreases |lines|
  {
    if lines != [] {
      var next := Step(st, lines[0]);
      StepKeepsClean(st, lines[0]);
      RunAppendsKept(next, lines[1..]);
      var r := Run(next, lines[1..]).students;
      assert r[..|next.students|] == next.students;
      assert r[..|st.students|] == next.students[..|st.students|];
    }
  }

  /** `"s"` */
  function Quoted(s: string): string
  {
    "\"" + s + "\""
  }

  /** One field line of iambouttogram.json as it is laid out: indented,
      the key and the value quoted, a space after the colon, then the
      trailer (a comma, or nothing after the last field). */
  function FieldLine(key: string, value: string, trailer: string): string
  {
    "    " + (Quoted(key) + ":") + " " + (Quoted(value) + trailer)
  }

  /** The lines of one student object; every object but the last is
      followed by a comma. */
  function ObjectLines(s: Student, last: bool): seq<string>
  {
    ["  {",
     FieldLine("npm", s.npm, ","),
     FieldLine("name", s.name, ","),
     FieldLine("program", s.program, ""),
     "  " + (if last then "}" else "},")]
  }

  function ObjectsLines(ss: seq<Student>): seq<string>
  {
    if ss == [] then [] else ObjectLines(ss[0], |ss| == 1) + ObjectsLines(ss[1..])
  }

  /** A roster file: the objects inside `[` and `]`. */
  function RosterLines(ss: seq<Student>): seq<string>
  {
    ["["] + ObjectsLines(ss) + ["]"]
  }

  /** A field line with its whitespace gone. */
  function Stripped(key: string, value: string, trailer: string): string
  {
    (Quoted(key) + ":") + (Quoted(value) + trailer)
  }

  lemma StripFieldLine(key: string, value: string, trailer: string)
    requires NoSpace(key) && NoSpace(value) && NoSpace(trailer)
    ensures StripSpace(FieldLine(key, value, trailer)) == Stripped(key, value, trailer)
  {
    var head := Quoted(key) + ":";
    var tail := Quoted(value) + trailer;
    StripSpaceConcat("    " + head + " ", tail);
    StripSpaceConcat("    " + head, " ");
    StripSpaceConcat("    ", head);
    StripSpaceAllSpace("    ");
    StripSpaceAllSpace(" ");
    NoSpaceConcat(Quoted(key), ":");
    NoSpaceConcat(Quoted(value), trailer);
    StripSpaceNoSpace(head);
    StripSpaceNoSpace(tail);
  }

  lemma Unquote(key: string)
    requires '"' !in key
    ensures RemoveChar(Quoted(key), '"') == key
  {
    RemoveCharConcat("\"" + key, "\"", '"');
    RemoveCharConcat("\"", key, '"');
    RemoveCharAbsent(key, '"');
  }

  lemma UnquoteValue(value: string, trailer: string)
    requires '"' !in value && ',' !in value
    requires trailer == "," || trailer == ""
    ensures RemoveChar(RemoveChar(Quoted(value) + trailer, '"'), ',') == value
  {
    RemoveCharConcat(Quoted(value), trailer, '"');
    Unquote(value);
    RemoveCharAbsent(trailer, '"');
    RemoveCharConcat(value, trailer, ',');
    RemoveCharAbsent(value, ',');
  }

  /** A stripped field line splits back into its key and its value,
      provided the key holds no colon or quote and the value nothing the
      reader deletes. */
  lemma SplitStripped(key: string, value: string, trailer: string)
    requires '"' !in key && ':' !in key && '"' !in value && ',' !in value
    requires trailer == "," || trailer == ""
    ensures SplitField(Stripped(key, value, trailer)) == Some((key, value))
  {
    var line := Stripped(key, value, trailer);
    var k := |Quoted(key)|;
    FindFromAt(line, ':', 0, k);
    assert line[..k] == Quoted(key);
    assert line[k + 1..] == Quoted(value) + trailer;
    Unquote(key);
    UnquoteValue(value, trailer);
  }

  /** Inside an object, a field line of the file's layout sets its key. */
  lemma FieldStep(st: RosterState, key: string, value: string, trailer: string)
    requires st.inObject
    requires Clean(key) && ':' !in key && Clean(value)
    requires trailer == "," || trailer == ""
    ensures Step(st, FieldLine(key, value, trailer)) == st.(current := SetField(st.current, key, value))
  {
    StripFieldLine(key, value, trailer);
    SplitStripped(key, value, trailer);
    var line := Stripped(key, value, trailer);
    assert line[0] == '"';
    assert line != "{" && line != "}" && line != "},";
    assert StripSpace(FieldLine(key, value, trailer)) == line;
    assert AssignField(st.current, line) == SetField(st.current, key, value);
  }

  /** A brace line with its indentation removed. */
  lemma BraceLine(indent: string, brace: string)
    requires AllSpace(indent) && NoSpace(brace)
    ensures StripSpace(indent + brace) == brace
  {
    StripSpaceConcat(indent, brace);
    StripSpaceAllSpace(indent);
    StripSpaceNoSpace(brace);
  }

  /** Outside an object, one student's lines add exactly that student. */
  lemma ObjectRoundTrip(st: RosterState, s: Student, last: bool)
    requires !st.inObject && Kept(s)
    ensures Run(st, ObjectLines(s, last)) == RosterState(st.students + [s], s, false)
  {
    var lines := ObjectLines(s, last);
    RunFive(st, lines);
    OpenLine(st);
    FieldsLines(st.(current := Blank, inObject := true), s);
    CloseLine(RosterState(st.students, s, true), if last then "}" else "},");
  }

  /** The three keys of the file hold nothing the reader deletes and no
      colon. */
  lemma KeysClean()
    ensures Clean("npm") && ':' !in "npm"
    ensures Clean("name") && ':' !in "name"
    ensures Clean("program") && ':' !in "program"
  {
    assert "npm" == ['n', 'p', 'm'];
    assert "name" == ['n', 'a', 'm', 'e'];
    assert "program" == ['p', 'r', 'o', 'g', 'r', 'a', 'm'];
  }

  /** The three field lines of an object fill in a fresh record. */
  lemma FieldsLines(st: RosterState, s: Student)
    requires st.inObject && st.current == Blank && Kept(s)
    ensures Step(Step(Step(st, FieldLine("npm", s.npm, ",")), FieldLine("name", s.name, ",")), FieldLine("program", s.program, ""))
      == RosterState(st.students, s, true)
  {
    var s2 := st.(current := Blank.(npm := s.npm));
    var s3 := st.(current := Blank.(npm := s.npm, name := s.name));
    var s4 := RosterState(st.students, s, true);
    KeysClean();
    assert Step(st, FieldLine("npm", s.npm, ",")) == s2 by {
      FieldStep(st, "npm", s.npm, ",");
    }
    assert Step(s2, FieldLine("name", s.name, ",")) == s3 by {
      FieldStep(s2, "name", s.name, ",");
    }
    assert Step(s3, FieldLine("program", s.program, "")) == s4 by {
      FieldStep(s3, "program", s.program, "");
    }
  }

  lemma RunFive(st: RosterState, lines: seq<string>)
    requires |lines| == 5
    ensures Run(st, lines) == Step(Step(Step(Step(Step(st, lines[0]), lines[1]), lines[2]), lines[3]), lines[4])
  {
    var s1 := Step(st, lines[0]);
    var s2 := Step(s1, lines[1]);
    var s3 := Step(s2, lines[2]);
    var s4 := Step(s3, lines[3]);
    var s5 := Step(s4, lines[4]);
    assert Run(s5, lines[5..]) == s5;
    assert Run(s4, lines[4..]) == s5;
    assert Run(s3, lines[3..]) == s5;
    assert Run(s2, lines[2..]) == s5;
    assert Run(s1, lines[1..]) == s5;
  }

  lemma OpenLine(st: RosterState)
    ensures Step(st, "  {") == st.(current := Blank, inObject := true)
  {
    BraceLine("  ", "{");
    assert "  {" == "  " + "{";
  }

  lemma CloseLine(st: RosterState, close: string)
    requires st.inObject && st.current.npm != ""
    requires close == "}" || close == "},"
    ensures Step(st, "  " + close) == RosterState(st.students + [st.current], st.current, false)
  {
    BraceLine("  ", close);
  }

  lemma {:induction false} ObjectsRoundTrip(st: RosterState, ss: seq<Student>)
    requires !st.inObject
    requires forall i :: 0 <= i < |ss| ==> Kept(ss[i])
    ensures Run(st, ObjectsLines(ss)).students == st.students + ss
    ensures !Run(st, ObjectsLines(ss)).inObject
    decreases |ss|
  {
    if ss != [] {
      RunConcat(st, ObjectLines(ss[0], |ss| == 1), ObjectsLines(ss[1..]));
      ObjectRoundTrip(st, ss[0], |ss| == 1);
      var next := RosterState(st.students + [ss[0]], ss[0], false);
      ObjectsRoundTrip(next, ss[1..]);
      assert st.students + [ss[0]] + ss[1..] == st.students + ss;
    }
  }

  /** Reading a roster written in the file's layout gives back its
      students, in order, after the ones already loaded, as long as every
      field is clean and every npm set. */
  lemma RosterRoundTrip(prior: seq<Student>, ss: seq<Student>)
    requires forall i :: 0 <= i < |ss| ==> Kept(ss[i])
    ensures Run(RosterState(prior, Blank, false), RosterLines(ss)).students == prior + ss
  {
    var st := RosterState(prior, Blank, false);
    assert StripSpace("[") == "[";
    assert Step(st, "[") == st;
    RunConcat(st, ["["] + ObjectsLines(ss), ["]"]);
    RunConcat(st, ["["], ObjectsLines(ss));
    ObjectsRoundTrip(st, ss);
    var end := Run(st, ObjectsLines(ss));
    assert StripSpace("]") == "]";
    assert Step(end, "]") == end;
  }
}
