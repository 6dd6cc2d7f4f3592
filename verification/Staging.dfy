/**
 Staging a bulk file: the row loop that reads pipe-separated lines and writes the file the
 database copies from.
 */
module Staging {
  import opened Wrappers
  import opened Text
  import opened Cycles
  import opened BulkDates
  import Csv

  /** What a bulk table expects of its file; `dates` are the columns that get a date twin. */
  datatype Source = Source(columns: seq<string>, dates: seq<string>, allowExtra: bool)

  /** How one line's bytes become text. */
  type Decoder = Bytes -> string

  datatype Line = BlankLine | BadLine(found: nat) | DataLine(fields: seq<string>)

  datatype MalformedRow = MalformedRow(lineNo: nat, expected: nat, found: nat)

  datatype Staged = Staged(text: string, datesNulled: nat)

  // ----- Lines -----

  /** Where the line starting at `from` ends: after its newline, or at the end of the data. */
  function LineEnd(data: Bytes, from: nat): (end: nat)
    requires from <= |data|
    ensures from <= end <= |data| && (from < |data| ==> from < end)
    decreases |data| - from
  {
    if from == |data| then from
    else if data[from] == LF then from + 1
    else LineEnd(data, from + 1)
  }

  function LinesFrom(data: Bytes, from: nat): seq<Bytes>
    requires from <= |data|
    decreases |data| - from
  {
    if from == |data| then [] else [data[from..LineEnd(data, from)]] + LinesFrom(data, LineEnd(data, from))
  }

  predicate IsLineBreak(c: char) {
    c == '\r' || c == '\n'
  }

  function Classify(source: Source, decode: Decoder, line: Bytes): Line {
    var text := TrimEnd(decode(line), IsLineBreak);
    if Trim(text) == "" then BlankLine
    else
      var fields := Split(text, '|');
      if |fields| < |source.columns| || (|fields| > |source.columns| && !source.allowExtra) then BadLine(|fields|)
      else DataLine(fields[..|source.columns|])
  }

  function ClassifyAll(source: Source, decode: Decoder, lines: seq<Bytes>): (r: seq<Line>)
    ensures |r| == |lines|
  {
    seq(|lines|, i requires 0 <= i < |lines| => Classify(source, decode, lines[i]))
  }

  // ----- Rows -----

  function Position(columns: seq<string>, column: string): (r: Option<nat>)
    ensures r.Some? ==> r.value < |columns| && columns[r.value] == column
    ensures r.None? <==> column !in columns
  {
    if columns == [] then None
    else if columns[0] == column then Some(0)
    else
      match Position(columns[1..], column)
      case None => None
      case Some(i) => Some(i + 1)
  }

  /** Every position is below the width. */
  predicate InRange(positions: seq<nat>, width: nat) {
    forall i | 0 <= i < |positions| :: positions[i] < width
  }

  function DatePositions(columns: seq<string>, dates: seq<string>): (r: seq<nat>)
    ensures InRange(r, |columns|)
  {
    if dates == [] then []
    else
      var rest := DatePositions(columns, dates[1..]);
      var p := Position(columns, dates[0]);
      if p.Some? then [p.value] + rest else rest
  }

  /** A blank field is stored as NULL. */
  function Nullable(field: string): Csv.Cell {
    if field == "" then None else Some(field)
  }

  function FieldCells(fields: seq<string>): (r: seq<Csv.Cell>)
    ensures |r| == |fields|
  {
    seq(|fields|, i requires 0 <= i < |fields| => Nullable(fields[i]))
  }

  function Twins(fields: seq<string>, positions: seq<nat>): (r: seq<Csv.Cell>)
    requires InRange(positions, |fields|)
    ensures |r| == |positions|
  {
    seq(|positions|, i requires 0 <= i < |positions| =>
      NormalizeBulkDate(fields[positions[i]]))
  }

  /** The stored row: the fields, their date twins, the cycle. */
  function Row(fields: seq<string>, positions: seq<nat>, cycle: Cycle): Csv.Record
    requires InRange(positions, |fields|)
  {
    FieldCells(fields) + Twins(fields, positions) + [Some(CycleText(cycle))]
  }

  /** A cell that says something, none of it a date. */
  predicate IsNulled(raw: string) {
    Trim(raw) != "" && NormalizeBulkDate(raw).None?
  }

  function CountNulled(fields: seq<string>, positions: seq<nat>): nat
    requires InRange(positions, |fields|)
  {
    if positions == [] then 0
    else
      var n := |positions| - 1;
      CountNulled(fields, positions[..n]) + (if IsNulled(fields[positions[n]]) then 1 else 0)
  }

  /** Field lists of a source all have its width. */
  predicate WidthIs(source: Source, rows: seq<seq<string>>) {
    forall i | 0 <= i < |rows| :: |rows[i]| == |source.columns|
  }

  function Rows(source: Source, cycle: Cycle, rows: seq<seq<string>>): (r: seq<Csv.Record>)
    requires WidthIs(source, rows)
    ensures |r| == |rows|
  {
    seq(|rows|, i requires 0 <= i < |rows| =>
      Row(rows[i], DatePositions(source.columns, source.dates), cycle))
  }

  function NulledIn(source: Source, rows: seq<seq<string>>): nat
    requires WidthIs(source, rows)
  {
    if rows == [] then 0
    else
      NulledIn(source, rows[..|rows| - 1])
      + CountNulled(rows[|rows| - 1], DatePositions(source.columns, source.dates))
  }

  /** What one row of a source's width adds to the file and to the count. */
  type RowWriter = seq<string> -> (string, nat)

  function RowWriterOf(source: Source, cycle: Cycle): RowWriter {
    fields =>
      if |fields| != |source.columns| then ("", 0)
      else
        var positions := DatePositions(source.columns, source.dates);
        (Csv.RecordText(Row(fields, positions, cycle)), CountNulled(fields, positions))
  }

  function WrittenBy(w: RowWriter, rows: seq<seq<string>>): Staged {
    if rows == [] then Staged("", 0)
    else
      var before, last := WrittenBy(w, rows[..|rows| - 1]), w(rows[|rows| - 1]);
      Staged(before.text + last.0, before.datesNulled + last.1)
  }

  /** The malformed row, or the file and its count of nulled dates. */
  function FileOf(w: RowWriter, staged: Result<seq<seq<string>>, MalformedRow>): Result<Staged, MalformedRow> {
    match staged
    case Ok(rows) => Ok(WrittenBy(w, rows))
    case Err(e) => Err(e)
  }

  lemma FileIs(w: RowWriter, staged: Result<seq<seq<string>>, MalformedRow>, rows: seq<seq<string>>, file: Staged)
    requires staged == Ok(rows) && WrittenBy(w, rows) == file
    ensures FileOf(w, staged) == Ok(file)
  {
  }

  lemma FileFails(w: RowWriter, staged: Result<seq<seq<string>>, MalformedRow>, error: MalformedRow)
    requires staged == Err(error)
    ensures FileOf(w, staged) == Err(error)
  {
  }

  lemma AnotherRow(w: RowWriter, rows: seq<seq<string>>, fields: seq<string>, text: string, nulled: nat)
    requires w(fields) == (text, nulled)
    ensures var before := WrittenBy(w, rows);
            WrittenBy(w, rows + [fields]) == Staged(before.text + text, before.datesNulled + nulled)
  {
    assert (rows + [fields])[..|rows|] == rows;
  }

  // ----- Which lines become rows -----

  /** Reading stops at the first malformed line, or after the limit's last row, or at the end. */
  function Stage(lines: seq<Line>, lineNo: nat, expected: nat, limit: Option<nat>): Result<seq<seq<string>>, MalformedRow>
    decreases lines
  {
    if lines == [] then Ok([])
    else
      match lines[0]
      case BlankLine => Stage(lines[1..], lineNo + 1, expected, limit)
      case BadLine(found) => Err(MalformedRow(lineNo, expected, found))
      case DataLine(fields) =>
        if limit.Some? && limit.value <= 1 then Ok([fields])
        else
          var left := if limit.Some? then Some(limit.value - 1) else None;
          Before([fields], Stage(lines[1..], lineNo + 1, expected, left))
  }

  function Before(rows: seq<seq<string>>, r: Result<seq<seq<string>>, MalformedRow>): Result<seq<seq<string>>, MalformedRow> {
    if r.Ok? then Ok(rows + r.value) else r
  }

  /** What the limit allows after `written` rows. */
  function Left(limit: Option<nat>, written: nat): Option<nat>
    requires limit.Some? ==> written <= limit.value
  {
    if limit.Some? then Some(limit.value - written) else None
  }

  /** What comes of it when `rows` were written and `lines` are left. */
  function StagedAfter(rows: seq<seq<string>>, lines: seq<Line>, lineNo: nat, expected: nat, limit: Option<nat>)
    : Result<seq<seq<string>>, MalformedRow>
    requires limit.Some? ==> |rows| <= limit.value
  {
    Before(rows, Stage(lines, lineNo, expected, Left(limit, |rows|)))
  }

  // ----- The loop -----

  method ReadUntilNewline(data: Bytes, from: nat) returns (end: nat)
    requires from <= |data|
    ensures end == LineEnd(data, from)
  {
    end := from;
    while end < |data|
      invariant from <= end <= |data| && LineEnd(data, end) == LineEnd(data, from)
    {
      end := end + 1;
      if data[end - 1] == LF { return; }
    }
  }

  method WriteFields(fields: seq<string>) returns (text: string)
    ensures text == Csv.Terminated(FieldCells(fields))
  {
    text := "";
    ghost var cells := FieldCells(fields);
    for i := 0 to |fields|
      invariant text == Csv.Terminated(cells[..i])
    {
      Csv.TerminatedGrows(cells, i);
      text := text + (Csv.Field(fields[i]) + "|");
    }
    assert cells[..|fields|] == cells;
  }

  method WriteTwin(raw: string) returns (text: string, nulled: nat)
    ensures text == Csv.CellText(NormalizeBulkDate(raw))
    ensures nulled == if IsNulled(raw) then 1 else 0
  {
    var iso := NormalizeBulkDate(raw);
    text, nulled := "", 0;
    if iso.Some? {
      IsoIsBare(raw);
      text := iso.value;
    } else if Trim(raw) != "" {
      nulled := 1;
    }
  }

  method WriteTwins(fields: seq<string>, positions: seq<nat>) returns (text: string, nulled: nat)
    requires InRange(positions, |fields|)
    ensures text == Csv.Terminated(Twins(fields, positions))
    ensures nulled == CountNulled(fields, positions)
  {
    text, nulled := "", 0;
    ghost var twins := Twins(fields, positions);
    for i := 0 to |positions|
      invariant text == Csv.Terminated(twins[..i])
      invariant nulled == CountNulled(fields, positions[..i])
    {
      CountGrows(fields, positions, i);
      Csv.TerminatedGrows(twins, i);
      var twin, one := WriteTwin(fields[positions[i]]);
      text, nulled := text + (twin + "|"), nulled + one;
    }
    assert twins[..|positions|] == twins && positions[..|positions|] == positions;
  }

  lemma CountGrows(fields: seq<string>, positions: seq<nat>, i: nat)
    requires InRange(positions, |fields|) && i < |positions|
    ensures CountNulled(fields, positions[..i + 1])
            == CountNulled(fields, positions[..i]) + if IsNulled(fields[positions[i]]) then 1 else 0
  {
    assert positions[..i + 1][..i] == positions[..i];
  }

  /** The text of one row, and how many of its dates were nulled. */
  method WriteRow(source: Source, fields: seq<string>, positions: seq<nat>, cycle: Cycle) returns (text: string, nulled: nat)
    requires positions == DatePositions(source.columns, source.dates) && |fields| == |source.columns|
    ensures (text, nulled) == RowWriterOf(source, cycle)(fields)
  {
    var written := WriteFields(fields);
    var twins;
    twins, nulled := WriteTwins(fields, positions);
    text := written + twins + CycleText(cycle) + "\n";
    CycleIsBare(cycle);
    Csv.TerminatedAppends(FieldCells(fields), Twins(fields, positions));
    ghost var row := Row(fields, positions, cycle);
    assert row[..|row| - 1] == FieldCells(fields) + Twins(fields, positions);
  }

  lemma IsoIsBare(raw: string)
    requires NormalizeBulkDate(raw).Some?
    ensures !Csv.NeedsQuotes(NormalizeBulkDate(raw).value) && NormalizeBulkDate(raw).value != ""
  {
    var d := ReadBulkDate(raw).value;
    DigitsAreDigits(if d.year < 0 then -d.year else d.year, 4);
    DigitsAreDigits(d.month, 2);
    DigitsAreDigits(d.day, 2);
  }

  lemma CycleIsBare(cycle: Cycle)
    ensures !Csv.NeedsQuotes(CycleText(cycle))
  {
    DigitsAreDigits(cycle, 4);
  }

  /** What the lines from `from` on turn out to be. */
  function Upcoming(source: Source, decode: Decoder, data: Bytes, from: nat): seq<Line>
    requires from <= |data|
  {
    ClassifyAll(source, decode, LinesFrom(data, from))
  }

  lemma NextLine(source: Source, decode: Decoder, data: Bytes, from: nat)
    requires from < |data|
    ensures var end := LineEnd(data, from);
            Upcoming(source, decode, data, from)
            == [Classify(source, decode, data[from..end])] + Upcoming(source, decode, data, end)
  {
  }

  lemma NoLineLeft(source: Source, decode: Decoder, data: Bytes, rows: seq<seq<string>>, lineNo: nat, expected: nat,
                   limit: Option<nat>)
    requires limit.Some? ==> |rows| <= limit.value
    ensures StagedAfter(rows, Upcoming(source, decode, data, |data|), lineNo, expected, limit) == Ok(rows)
  {
    assert rows + [] == rows;
  }

  /** How each kind of line moves the loop on, after `rows` were written. */
  lemma StageStep(rows: seq<seq<string>>, line: Line, later: seq<Line>, lineNo: nat, expected: nat, limit: Option<nat>)
    requires limit.Some? ==> |rows| == 0 || |rows| < limit.value
    ensures var now := StagedAfter(rows, [line] + later, lineNo, expected, limit);
            if line.BlankLine? then now == StagedAfter(rows, later, lineNo + 1, expected, limit)
            else if line.BadLine? then now == Err(MalformedRow(lineNo, expected, line.found))
            else if limit.Some? && |rows| + 1 >= limit.value then now == Ok(rows + [line.fields])
            else now == StagedAfter(rows + [line.fields], later, lineNo + 1, expected, limit)
  {
    assert ([line] + later)[1..] == later;
    if line.DataLine? && !(limit.Some? && |rows| + 1 >= limit.value) {
      var r := Stage(later, lineNo + 1, expected, Left(limit, |rows| + 1));
      if r.Ok? {
        assert rows + ([line.fields] + r.value) == (rows + [line.fields]) + r.value;
      }
    }
  }

  lemma NothingStaged(lines: seq<Line>, expected: nat, limit: Option<nat>)
    ensures StagedAfter([], lines, 1, expected, limit) == Stage(lines, 1, expected, limit)
  {
    var r := Stage(lines, 1, expected, limit);
    assert Left(limit, 0) == limit;
    assert r.Ok? ==> [] + r.value == r.value;
  }

  method ReadLine(source: Source, decode: Decoder, data: Bytes, at: nat) returns (line: Line, end: nat)
    requires at < |data|
    ensures at < end <= |data| && Upcoming(source, decode, data, at) == [line] + Upcoming(source, decode, data, end)
    ensures line.DataLine? ==> |line.fields| == |source.columns|
  {
    end := ReadUntilNewline(data, at);
    line := Classify(source, decode, data[at..end]);
    NextLine(source, decode, data, at);
  }

  method StageToTempCsv(source: Source, data: Bytes, decode: Decoder, cycle: Cycle, limit: Option<nat>)
    returns (r: Result<Staged, MalformedRow>)
    ensures r == FileOf(RowWriterOf(source, cycle), Stage(Upcoming(source, decode, data, 0), 1, |source.columns|, limit))
  {
    var expected := |source.columns|;
    ghost var w := RowWriterOf(source, cycle);
    ghost var all := Upcoming(source, decode, data, 0);
    ghost var staged := Stage(all, 1, expected, limit);
    var positions := DatePositions(source.columns, source.dates);
    var out, datesNulled, lineNo, at, written := "", 0, 0, 0, 0;
    ghost var rows: seq<seq<string>> := [];
    ghost var lines := all;
    NothingStaged(lines, expected, limit);
    while at < |data|
      invariant at <= |data| && lines == Upcoming(source, decode, data, at)
      invariant written == |rows| && (limit.Some? ==> written == 0 || written < limit.value)
      invariant WrittenBy(w, rows) == Staged(out, datesNulled)
      invariant staged == StagedAfter(rows, lines, lineNo + 1, expected, limit)
      decreases |data| - at
    {
      var line;
      line, at := ReadLine(source, decode, data, at);
      lineNo := lineNo + 1;
      lines := Upcoming(source, decode, data, at);
      StageStep(rows, line, lines, lineNo, expected, limit);
      if line.BadLine? {
        FileFails(w, staged, MalformedRow(lineNo, expected, line.found));
        return Err(MalformedRow(lineNo, expected, line.found));
      }
      if line.DataLine? {
        var text, nulled := WriteRow(source, line.fields, positions, cycle);
        AnotherRow(w, rows, line.fields, text, nulled);
        out, datesNulled, written := out + text, datesNulled + nulled, written + 1;
        rows := rows + [line.fields];
        if limit.Some? && written >= limit.value {
          FileIs(w, staged, rows, Staged(out, datesNulled));
          return Ok(Staged(out, datesNulled));
        }
      }
    }
    NoLineLeft(source, decode, data, rows, lineNo + 1, expected, limit);
    FileIs(w, staged, rows, Staged(out, datesNulled));
    return Ok(Staged(out, datesNulled));
  }

  lemma {:induction false} TextAppends(a: seq<Csv.Record>, b: Csv.Record)
    ensures Csv.Text(a + [b]) == Csv.Text(a) + Csv.RecordText(b)
  {
    if a == [] {
      assert Csv.Text([b]) == Csv.RecordText(b) + Csv.Text([]);
    } else {
      assert (a + [b])[1..] == a[1..] + [b];
      TextAppends(a[1..], b);
    }
  }

  lemma RowsGrow(source: Source, cycle: Cycle, rows: seq<seq<string>>, fields: seq<string>)
    requires WidthIs(source, rows) && |fields| == |source.columns|
    ensures WidthIs(source, rows + [fields])
    ensures Rows(source, cycle, rows + [fields])
            == Rows(source, cycle, rows) + [Row(fields, DatePositions(source.columns, source.dates), cycle)]
    ensures NulledIn(source, rows + [fields])
            == NulledIn(source, rows) + CountNulled(fields, DatePositions(source.columns, source.dates))
  {
    var more := rows + [fields];
    assert more[..|rows|] == rows;
    assert WidthIs(source, more);
  }

  lemma WriterAt(source: Source, cycle: Cycle, fields: seq<string>)
    requires |fields| == |source.columns|
    ensures var positions := DatePositions(source.columns, source.dates);
            RowWriterOf(source, cycle)(fields)
            == (Csv.RecordText(Row(fields, positions, cycle)), CountNulled(fields, positions))
  {
  }

  lemma TextGrows(records: seq<Csv.Record>, text: string, record: Csv.Record, more: seq<Csv.Record>)
    requires text == Csv.Text(records) && more == records + [record]
    ensures Csv.Text(more) == text + Csv.RecordText(record)
  {
    TextAppends(records, record);
  }

  predicate IsWritten(source: Source, cycle: Cycle, w: RowWriter, rows: seq<seq<string>>) {
    && WidthIs(source, rows)
    && WrittenBy(w, rows) == Staged(Csv.Text(Rows(source, cycle, rows)), NulledIn(source, rows))
  }

  lemma WrittenGrows(source: Source, cycle: Cycle, w: RowWriter, rows: seq<seq<string>>, last: seq<string>,
                     more: seq<seq<string>>)
    requires w == RowWriterOf(source, cycle) && |last| == |source.columns| && more == rows + [last]
    requires IsWritten(source, cycle, w, rows)
    ensures IsWritten(source, cycle, w, more)
  {
    AnotherRow(w, rows, last, w(last).0, w(last).1);
    RowsGrow(source, cycle, rows, last);
    WriterAt(source, cycle, last);
    TextGrows(Rows(source, cycle, rows), WrittenBy(w, rows).text,
              Row(last, DatePositions(source.columns, source.dates), cycle), Rows(source, cycle, more));
  }

  lemma NothingWritten(source: Source, cycle: Cycle, w: RowWriter)
    ensures IsWritten(source, cycle, w, [])
  {
    assert Rows(source, cycle, []) == [];
  }

  lemma {:induction false} PrefixInduction(holds: seq<seq<string>> -> bool, width: nat, rows: seq<seq<string>>)
    requires holds([]) && forall i | 0 <= i < |rows| :: |rows[i]| == width
    requires forall before, last | holds(before) && |last| == width :: holds(before + [last])
    ensures holds(rows)
    decreases |rows|
  {
    if rows != [] {
      var n := |rows| - 1;
      PrefixInduction(holds, width, rows[..n]);
      assert holds(rows[..n] + [rows[n]]);
      assert rows == rows[..n] + [rows[n]];
    }
  }

  /** The file holds the rows' records, and the count is theirs. */
  lemma WrittenRows(source: Source, cycle: Cycle, w: RowWriter, rows: seq<seq<string>>)
    requires WidthIs(source, rows) && w == RowWriterOf(source, cycle)
    ensures IsWritten(source, cycle, w, rows)
  {
    NothingWritten(source, cycle, w);
    forall before, last | IsWritten(source, cycle, w, before) && |last| == |source.columns|
      ensures IsWritten(source, cycle, w, before + [last])
    {
      WrittenGrows(source, cycle, w, before, last, before + [last]);
    }
    PrefixInduction(r => IsWritten(source, cycle, w, r), |source.columns|, rows);
  }
}
