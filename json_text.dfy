/** The layout both JSON exporters share: an array of pre-rendered
    blocks, `[` and a line break, the blocks separated by `,` and a line
    break, a line break after the last block, `]` and a line break. */
module JsonText {

  /** `parts` with `sep` between neighbours. */
  function Join(parts: seq<string>, sep: string): string
  {
    if parts == [] then ""
    else if |parts| == 1 then parts[0]
    else parts[0] + sep + Join(parts[1..], sep)
  }

  lemma {:induction false} JoinSnoc(parts: seq<string>, x: string, sep: string)
    requires parts != []
    ensures Join(parts + [x], sep) == Join(parts, sep) + sep + x
  {
    if |parts| == 1 {
      assert parts + [x] == [parts[0], x];
    } else {
      assert (parts + [x])[1..] == parts[1..] + [x];
      JoinSnoc(parts[1..], x, sep);
    }
  }

  /** The document around `parts`. */
  function Document(parts: seq<string>): string
  {
    "[\n" + Join(parts, ",\n") + (if parts == [] then "" else "\n") + "]\n"
  }

  /** An empty array. */
  lemma DocumentEmpty()
    ensures Document([]) == "[\n]\n"
  {
  }

  /** One more block puts a comma after the previously last block and
      goes at the end without one. */
  lemma DocumentSnoc(parts: seq<string>, x: string)
    requires parts != []
    ensures Document(parts + [x]) == "[\n" + (Join(parts, ",\n") + ",\n" + x) + "\n" + "]\n"
  {
    JoinSnoc(parts, x, ",\n");
  }

  /** What one turn of the export loop writes for block `i` of `n`. */
  function Piece(parts: seq<string>, i: nat): string
    requires i < |parts|
  {
    parts[i] + (if i < |parts| - 1 then ",\n" else "\n")
  }

  /** What the export loop has written for the first `i` blocks. */
  function Written(parts: seq<string>, i: nat): string
    requires i <= |parts|
  {
    if i == 0 then "" else Written(parts, i - 1) + Piece(parts, i - 1)
  }

  /** The loop's output agrees with the separator-joined blocks. */
  lemma {:induction false} WrittenIsJoin(parts: seq<string>, i: nat)
    requires i <= |parts|
    ensures Written(parts, i) ==
      Join(parts[..i], ",\n") + (if i == 0 then "" else if i < |parts| then ",\n" else "\n")
  {
    if i > 0 {
      WrittenIsJoin(parts, i - 1);
      assert parts[..i] == parts[..i - 1] + [parts[i - 1]];
      if i == 1 {
        assert parts[..i] == [parts[0]];
      } else {
        JoinSnoc(parts[..i - 1], parts[i - 1], ",\n");
      }
    }
  }

  lemma DocumentWritten(parts: seq<string>)
    ensures Document(parts) == "[\n" + Written(parts, |parts|) + "]\n"
  {
    WrittenIsJoin(parts, |parts|);
    assert parts[..|parts|] == parts;
  }

  /** Writing block `i`, a comma unless it is the last, and a line
      break extends the text written so far to the first `i + 1` blocks. */
  lemma WrittenStep(parts: seq<string>, i: nat, block: string)
    requires i < |parts| && parts[i] == block
    ensures i < |parts| - 1 ==> "[\n" + Written(parts, i) + block + "," + "\n" == "[\n" + Written(parts, i + 1)
    ensures i == |parts| - 1 ==> "[\n" + Written(parts, i) + block + "\n" == "[\n" + Written(parts, i + 1)
  {
    var w := Written(parts, i);
    if i < |parts| - 1 {
      assert Written(parts, i + 1) == w + (block + ",\n");
      assert "[\n" + w + block + "," + "\n" == "[\n" + (w + (block + ",\n"));
    } else {
      assert Written(parts, i + 1) == w + (block + "\n");
      assert "[\n" + w + block + "\n" == "[\n" + (w + (block + "\n"));
    }
  }
}
