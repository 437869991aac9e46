/**
 * `parseCSV` of `src/utils/csvUtils.ts`: the first `\n`-separated line gives
 * the headers, every later line that is not blank gives a row; both are split
 * on `,` and every piece is trimmed. No quoting, no escaping.
 */
module CsvParse {
  import opened Results
  import opened JsString

  type Row = seq<string>

  /** A parsed table. Nothing forces a row to have as many cells as there
      are headers, nor the headers to be distinct. */
  datatype TableData = TableData(headers: seq<string>, rows: seq<Row>)

  /** Lines are handed to the row parser in chunks of this many. */
  const ChunkSize: nat := 100

  /** `line.trim()` is falsy. */
  predicate IsBlank(line: string) {
    Trim(line) == ""
  }

  /** `line.split(',').map(cell => cell.trim())`. */
  function Cells(line: string): (cells: Row)
    ensures |cells| == |Split(line, ',')| >= 1
    ensures forall k :: 0 <= k < |cells| ==> cells[k] == Trim(Split(line, ',')[k])
  {
    var pieces := Split(line, ',');
    seq(|pieces|, k requires 0 <= k < |pieces| => Trim(pieces[k]))
  }

  /** What the pre-allocated `rows` array holds for a line once its chunk has
      been processed: a hole for a blank line, its cells otherwise. */
  function Slot(line: string): Option<Row> {
    if IsBlank(line) then None else Some(Cells(line))
  }

  /** The rows that the lines give, in order: a blank line gives none, any
      other line gives its cells. */
  function RowsOf(lines: seq<string>): seq<Row> {
    if lines == [] then []
    else
      var last := lines[|lines| - 1];
      RowsOf(lines[..|lines| - 1]) + (if IsBlank(last) then [] else [Cells(last)])
  }

  /** The table `parseCSV(csvText)` returns. */
  function Parse(csvText: string): TableData {
    var lines := Split(csvText, '\n');
    TableData(Cells(lines[0]), RowsOf(lines[1..]))
  }

  /** The sparse `rows` array once the first `n` lines after the header line
      have been processed: a slot per line, nothing yet beyond `n`. */
  ghost predicate FilledUpTo(slots: seq<Option<Row>>, body: seq<string>, n: int) {
    && |slots| == |body|
    && forall k :: 0 <= k < |slots| ==> slots[k] == if k < n then Slot(body[k]) else None
  }

  lemma FilledStart(slots: seq<Option<Row>>, body: seq<string>)
    requires |slots| == |body| && forall k :: 0 <= k < |slots| ==> slots[k] == None
    ensures FilledUpTo(slots, body, 0)
  {
  }

  /** Past the last line, how far the fill has got no longer matters. */
  lemma FilledPastEnd(slots: seq<Option<Row>>, body: seq<string>, n: nat, m: nat)
    requires FilledUpTo(slots, body, n) && |body| <= n && |body| <= m
    ensures FilledUpTo(slots, body, m)
  {
  }

  lemma FillStep(slots: seq<Option<Row>>, body: seq<string>, n: nat)
    requires FilledUpTo(slots, body, n) && n < |body|
    ensures FilledUpTo(slots[n := Slot(body[n])], body, n + 1)
    ensures IsBlank(body[n]) ==> FilledUpTo(slots, body, n + 1)
  {
    if IsBlank(body[n]) {
      assert slots[n := Slot(body[n])] == slots;
    }
  }

  /** Dropping the holes of the slots of `body[..n]` leaves the rows of those lines. */
  lemma CompactStep(slots: seq<Option<Row>>, body: seq<string>, n: nat, kept: seq<Row>)
    requires FilledUpTo(slots, body, |body|) && n < |body|
    requires kept == RowsOf(body[..n])
    ensures slots[n].Some? && |slots[n].value| > 0 ==> kept + [slots[n].value] == RowsOf(body[..n + 1])
    ensures !(slots[n].Some? && |slots[n].value| > 0) ==> kept == RowsOf(body[..n + 1])
  {
    assert body[..n + 1][..n] == body[..n];
  }

  /** `parseCSV`: rows are written into a pre-allocated sparse array, one
      chunk of lines at a time; the holes left by blank lines are then
      filtered out. */
  method ParseCSV(csvText: string) returns (t: TableData)
    ensures t == Parse(csvText)
  {
    var lines := Split(csvText, '\n');
    var headers := Cells(lines[0]);
    var rows := FillRows(lines);
    var validRows := DropHoles(rows, lines[1..]);
    t := TableData(headers, validRows);
  }

  /** The chunked loop of `parseCSV`: a sparse array with one slot per line
      after the header line, filled one chunk of `ChunkSize` lines at a time. */
  method FillRows(lines: seq<string>) returns (rows: array<Option<Row>>)
    requires |lines| >= 1
    ensures FilledUpTo(rows[..], lines[1..], |lines| - 1)
  {
    ghost var body := lines[1..];
    rows := new Option<Row>[|lines| - 1](_ => None);
    FilledStart(rows[..], body);
    var i := 1;
    while i < |lines|
      invariant 1 <= i
      invariant FilledUpTo(rows[..], body, i - 1)
    {
      var end := if i + ChunkSize < |lines| then i + ChunkSize else |lines|;
      var chunk := lines[i..end];
      ChunkOfBody(lines, i, end);
      FillChunk(rows, chunk, body, i - 1);
      if end == |lines| {
        FilledPastEnd(rows[..], body, |body|, i - 1 + ChunkSize);
      }
      i := i + ChunkSize;
    }
    FilledPastEnd(rows[..], body, i - 1, |body|);
  }

  /** A chunk of lines is the matching slice of the lines after the header line. */
  lemma ChunkOfBody(lines: seq<string>, i: nat, end: nat)
    requires 1 <= i <= end <= |lines|
    ensures lines[i..end] == lines[1..][i - 1..end - 1]
  {
    forall j | 0 <= j < end - i
      ensures lines[i..end][j] == lines[1..][i - 1..end - 1][j]
    {
      assert lines[1..][i - 1 + j] == lines[i + j];
    }
  }

  /** One chunk of the outer loop of `parseCSV`: each line of the chunk that
      is not blank has its cells written into its slot of the sparse array. */
  method FillChunk(rows: array<Option<Row>>, chunk: seq<string>, ghost body: seq<string>, start: nat)
    requires start + |chunk| <= |body| && chunk == body[start..start + |chunk|]
    requires FilledUpTo(rows[..], body, start)
    modifies rows
    ensures FilledUpTo(rows[..], body, start + |chunk|)
  {
    var index := 0;
    while index < |chunk|
      invariant 0 <= index <= |chunk|
      invariant FilledUpTo(rows[..], body, start + index)
    {
      var line := chunk[index];
      assert line == body[start + index];
      ghost var before := rows[..];
      FillStep(before, body, start + index);
      if Trim(line) != "" {
        rows[start + index] := Some(Cells(line));
        assert rows[..] == before[start + index := Slot(body[start + index])];
      }
      index := index + 1;
    }
  }

  /** `rows.filter(row => row && row.length > 0)` over the filled sparse
      array: the holes go, the rows stay in order. */
  method DropHoles(rows: array<Option<Row>>, ghost body: seq<string>) returns (validRows: seq<Row>)
    requires FilledUpTo(rows[..], body, |body|)
    ensures validRows == RowsOf(body)
  {
    validRows := [];
    var k := 0;
    assert body[..0] == [];
    while k < rows.Length
      invariant 0 <= k <= rows.Length
      invariant validRows == RowsOf(body[..k])
    {
      CompactStep(rows[..], body, k, validRows);
      var row := rows[k];
      assert row == rows[..][k];
      if row.Some? && |row.value| > 0 {
        validRows := validRows + [row.value];
      }
      k := k + 1;
    }
    assert body[..rows.Length] == body;
  }

  // -----------------------------------------------------------------------
  // Properties
  // -----------------------------------------------------------------------

  /** The headers are the pieces of the first line between commas, trimmed:
      one more header than the first line has commas, even on empty input. */
  lemma ParseHeaders(csvText: string)
    ensures var first := Split(csvText, '\n')[0];
            && |Parse(csvText).headers| == Count(first, ',') + 1
            && forall k :: 0 <= k < |Parse(csvText).headers| ==>
                 Parse(csvText).headers[k] == Trim(Split(first, ',')[k])
  {
    SplitLength(Split(csvText, '\n')[0], ',');
  }

  /** The empty text parses to one empty header and no rows. */
  lemma ParseEmpty()
    ensures Parse("") == TableData([""], [])
  {
    assert Split("", '\n') == [""];
    assert Split("", ',') == [""];
    assert Trim("") == "";
  }

  /** Rows of consecutive groups of lines are the concatenation of the groups'
      rows: how the lines are cut into chunks does not change the result. */
  lemma {:induction false} RowsOfAppend(a: seq<string>, b: seq<string>)
    ensures RowsOf(a + b) == RowsOf(a) + RowsOf(b)
  {
    if b == [] {
      assert a + b == a;
    } else {
      var b' := b[..|b| - 1];
      assert (a + b)[..|a + b| - 1] == a + b';
      RowsOfAppend(a, b');
    }
  }

  /** Every row comes from a non-blank line of the input. */
  lemma {:induction false} RowsComeFromLines(lines: seq<string>, r: Row)
    requires r in RowsOf(lines)
    ensures exists j :: 0 <= j < |lines| && !IsBlank(lines[j]) && r == Cells(lines[j])
  {
    var n := |lines| - 1;
    var init := lines[..n];
    assert RowsOf(lines) == RowsOf(init) + (if IsBlank(lines[n]) then [] else [Cells(lines[n])]);
    if r in RowsOf(init) {
      RowsComeFromLines(init, r);
      var j :| 0 <= j < |init| && !IsBlank(init[j]) && r == Cells(init[j]);
      assert lines[j] == init[j];
    } else {
      assert !IsBlank(lines[n]) && r == Cells(lines[n]);
    }
  }

  /** A row has one more cell than its line has commas, whatever the number
      of headers. */
  lemma RowLength(line: string)
    ensures |Cells(line)| == Count(line, ',') + 1
  {
    SplitLength(line, ',');
  }

  /** Every non-blank line gives a row: blank lines are the only ones dropped. */
  lemma {:induction false} NonBlankLinesGiveRows(lines: seq<string>, j: nat)
    requires j < |lines| && !IsBlank(lines[j])
    ensures Cells(lines[j]) in RowsOf(lines)
  {
    if j < |lines| - 1 {
      var init := lines[..|lines| - 1];
      NonBlankLinesGiveRows(init, j);
    }
  }
}
