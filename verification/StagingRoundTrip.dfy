/**
 What staging promises: the staged file read as the database reads it gives the input's rows, in
 order; a limit keeps the first of them; the count of nulled dates is exact.
 */
module StagingRoundTrip {
  import opened Wrappers
  import opened Text
  import opened Cycles
  import opened BulkDates
  import opened Staging
  import opened Limits
  import Csv

  // ----- The input is its lines -----

  function Concat(lines: seq<Bytes>): Bytes {
    if lines == [] then [] else lines[0] + Concat(lines[1..])
  }

  lemma {:induction false} LineEndIsNewline(data: Bytes, from: nat)
    requires from < |data|
    ensures var end := LineEnd(data, from);
            && LF !in data[from..end - 1]
            && (end == |data| || data[end - 1] == LF)
    decreases |data| - from
  {
    if data[from] != LF && from + 1 < |data| {
      LineEndIsNewline(data, from + 1);
      var end := LineEnd(data, from);
      assert data[from..end - 1] == [data[from]] + data[from + 1..end - 1];
    }
  }

  /** No byte is lost or read twice. */
  lemma {:induction false} LinesAreTheData(data: Bytes, from: nat)
    requires from <= |data|
    ensures Concat(LinesFrom(data, from)) == data[from..]
    decreases |data| - from
  {
    if from < |data| {
      var end := LineEnd(data, from);
      LinesAreTheData(data, end);
      assert LinesFrom(data, from)[1..] == LinesFrom(data, end);
      assert data[from..] == data[from..end] + data[end..];
    }
  }

  predicate IsLine(line: Bytes, last: bool) {
    line != [] && LF !in line[..|line| - 1] && (!last ==> line[|line| - 1] == LF)
  }

  /** Every line ends at its first newline, or with the data. */
  lemma {:induction false} LinesEndAtNewlines(data: Bytes, from: nat)
    requires from <= |data|
    ensures forall i | 0 <= i < |LinesFrom(data, from)| ::
              IsLine(LinesFrom(data, from)[i], i == |LinesFrom(data, from)| - 1)
    decreases |data| - from
  {
    if from < |data| {
      var end := LineEnd(data, from);
      LineEndIsNewline(data, from);
      LinesEndAtNewlines(data, end);
      var first, rest := data[from..end], LinesFrom(data, end);
      assert first[..|first| - 1] == data[from..end - 1];
      assert rest == [] ==> end == |data|;
      assert IsLine(first, rest == []);
      assert LinesFrom(data, from) == [first] + rest;
    }
  }

  // ----- Which lines become rows, said at once -----

  /** The index of the first malformed line, or the number of lines. */
  function FirstBad(lines: seq<Line>): (k: nat)
    ensures k <= |lines| && (k < |lines| ==> lines[k].BadLine?)
  {
    if lines == [] || lines[0].BadLine? then 0 else 1 + FirstBad(lines[1..])
  }

  function DataFields(lines: seq<Line>): seq<seq<string>> {
    if lines == [] then []
    else (if lines[0].DataLine? then [lines[0].fields] else []) + DataFields(lines[1..])
  }

  predicate ReachesLimit(rows: nat, limit: Option<nat>) {
    limit.Some? && rows > 0 && rows >= limit.value
  }

  /** Staging fails exactly when a malformed line comes before the limit's last row, and names the
      first such line; otherwise it keeps the limit's first rows of the lines before. */
  lemma {:induction false} StageExactly(lines: seq<Line>, lineNo: nat, expected: nat, limit: Option<nat>)
    ensures var bad := FirstBad(lines);
            var rows := DataFields(lines[..bad]);
            Stage(lines, lineNo, expected, limit)
            == if bad < |lines| && !ReachesLimit(|rows|, limit)
               then Err(MalformedRow(lineNo + bad, expected, lines[bad].found))
               else Ok(Capped(rows, limit))
    decreases |lines|
  {
    var bad := FirstBad(lines);
    if bad > 0 {
      assert lines[..bad][1..] == lines[1..][..bad - 1];
      var rows := DataFields(lines[..bad]);
      var later := DataFields(lines[1..][..bad - 1]);
      if lines[0].BlankLine? {
        assert rows == later;
        StageExactly(lines[1..], lineNo + 1, expected, limit);
      } else {
        assert rows == [lines[0].fields] + later;
        CappedGrows(lines[0].fields, later, limit);
        if !(limit.Some? && limit.value <= 1) {
          StageExactly(lines[1..], lineNo + 1, expected, if limit.Some? then Some(limit.value - 1) else None);
        }
      }
    }
  }

  /** A limit on rows of which the first is kept. */
  lemma CappedGrows(first: seq<string>, later: seq<seq<string>>, limit: Option<nat>)
    ensures Capped([first] + later, limit)
            == if limit.Some? && limit.value <= 1 then [first]
               else [first] + Capped(later, if limit.Some? then Some(limit.value - 1) else None)
  {
    var rows := [first] + later;
    assert rows[..1] == [first];
    assert later == [] ==> rows == [first];
    if limit.Some? && 1 < limit.value < |rows| {
      assert rows[..limit.value] == [first] + later[..limit.value - 1];
    }
  }

  /** The rows of a limited staging are the first rows of an unlimited one that succeeds. */
  lemma LimitKeepsFirst(lines: seq<Line>, expected: nat, limit: nat)
    requires limit >= 1 && Stage(lines, 1, expected, None).Ok?
    ensures var all := Stage(lines, 1, expected, None).value;
            Stage(lines, 1, expected, Some(limit)) == Ok(if |all| <= limit then all else all[..limit])
  {
    StageExactly(lines, 1, expected, None);
    StageExactly(lines, 1, expected, Some(limit));
  }

  // ----- The nulled dates -----

  /** The cells, by row and date column, that say something and are not a date. */
  ghost function NulledCells(source: Source, rows: seq<seq<string>>): set<(int, int)>
    requires WidthIs(source, rows)
  {
    var positions := DatePositions(source.columns, source.dates);
    set i, j | 0 <= i < |rows| && 0 <= j < |positions| && IsNulledAt(rows[i], positions, j) :: (i, j)
  }

  predicate IsNulledAt(fields: seq<string>, positions: seq<nat>, j: nat)
    requires j < |positions|
  {
    positions[j] < |fields| && IsNulled(fields[positions[j]])
  }

  ghost function NulledInRow(fields: seq<string>, positions: seq<nat>, row: int): set<(int, int)> {
    set j | 0 <= j < |positions| && IsNulledAt(fields, positions, j) :: (row, j)
  }

  lemma NulledInRowGrows(fields: seq<string>, positions: seq<nat>, row: int)
    requires positions != []
    ensures var n := |positions| - 1;
            && (row, n) !in NulledInRow(fields, positions[..n], row)
            && NulledInRow(fields, positions, row)
               == NulledInRow(fields, positions[..n], row) + if IsNulledAt(fields, positions, n) then {(row, n)} else {}
  {
    var n := |positions| - 1;
    assert forall j | 0 <= j < n :: IsNulledAt(fields, positions[..n], j) == IsNulledAt(fields, positions, j);
  }

  lemma {:induction false} CountIsCells(fields: seq<string>, positions: seq<nat>, row: int)
    requires InRange(positions, |fields|)
    ensures CountNulled(fields, positions) == |NulledInRow(fields, positions, row)|
    decreases |positions|
  {
    if positions != [] {
      var n := |positions| - 1;
      CountIsCells(fields, positions[..n], row);
      NulledInRowGrows(fields, positions, row);
    }
  }

  lemma NulledCellsGrow(source: Source, rows: seq<seq<string>>)
    requires WidthIs(source, rows) && rows != []
    ensures var n := |rows| - 1;
            var last := NulledInRow(rows[n], DatePositions(source.columns, source.dates), n);
            && NulledCells(source, rows[..n]) !! last
            && NulledCells(source, rows) == NulledCells(source, rows[..n]) + last
  {
    var n := |rows| - 1;
    assert forall i | 0 <= i < n :: rows[..n][i] == rows[i];
  }

  /** `dates_nulled` is the number of those cells. */
  lemma {:induction false} NulledIsExact(source: Source, rows: seq<seq<string>>)
    requires WidthIs(source, rows)
    ensures NulledIn(source, rows) == |NulledCells(source, rows)|
    decreases |rows|
  {
    if rows == [] {
      assert NulledCells(source, rows) == {};
    } else {
      var n := |rows| - 1;
      NulledIsExact(source, rows[..n]);
      CountIsCells(rows[n], DatePositions(source.columns, source.dates), n);
      NulledCellsGrow(source, rows);
    }
  }

  // ----- The round trip -----

  lemma {:induction false} StagedWidth(source: Source, decode: Decoder, lines: seq<Bytes>, lineNo: nat, limit: Option<nat>)
    requires Stage(ClassifyAll(source, decode, lines), lineNo, |source.columns|, limit).Ok?
    ensures WidthIs(source, Stage(ClassifyAll(source, decode, lines), lineNo, |source.columns|, limit).value)
    decreases |lines|
  {
    if lines != [] {
      assert ClassifyAll(source, decode, lines)[1..] == ClassifyAll(source, decode, lines[1..]);
      var line := Classify(source, decode, lines[0]);
      if line.BlankLine? {
        StagedWidth(source, decode, lines[1..], lineNo + 1, limit);
      } else if !(limit.Some? && limit.value <= 1) {
        StagedWidth(source, decode, lines[1..], lineNo + 1, if limit.Some? then Some(limit.value - 1) else None);
      }
    }
  }

  lemma RowHasNoEmptyText(fields: seq<string>, positions: seq<nat>, cycle: Cycle)
    requires InRange(positions, |fields|)
    ensures Csv.HasNoEmptyText(Row(fields, positions, cycle))
  {
    var row := Row(fields, positions, cycle);
    forall i | 0 <= i < |row|
      ensures row[i] != Some("")
    {
      var j := i - |fields|;
      if 0 <= j < |positions| {
        var raw := fields[positions[j]];
        if NormalizeBulkDate(raw).Some? {
          IsoIsBare(raw);
        }
      }
    }
  }

  /** The staged file read as records is the rows of the staged lines, in order, and nothing else. */
  lemma StagedFileReadsBack(source: Source, decode: Decoder, data: Bytes, cycle: Cycle, limit: Option<nat>)
    ensures var staged := Stage(Upcoming(source, decode, data, 0), 1, |source.columns|, limit);
            var file := FileOf(RowWriterOf(source, cycle), staged);
            && file.Ok? == staged.Ok?
            && (staged.Ok? ==>
                  && WidthIs(source, staged.value)
                  && Csv.Read(file.value.text) == Some(Rows(source, cycle, staged.value))
                  && file.value.datesNulled == |NulledCells(source, staged.value)|)
  {
    var staged := Stage(Upcoming(source, decode, data, 0), 1, |source.columns|, limit);
    if staged.Ok? {
      var rows := staged.value;
      StagedWidth(source, decode, LinesFrom(data, 0), 1, limit);
      RowsReadBack(source, cycle, RowWriterOf(source, cycle), rows);
    }
  }

  lemma RowsReadBack(source: Source, cycle: Cycle, w: RowWriter, rows: seq<seq<string>>)
    requires WidthIs(source, rows) && w == RowWriterOf(source, cycle)
    ensures Csv.Read(WrittenBy(w, rows).text) == Some(Rows(source, cycle, rows))
    ensures WrittenBy(w, rows).datesNulled == |NulledCells(source, rows)|
  {
    WrittenRows(source, cycle, w, rows);
    NulledIsExact(source, rows);
    var positions := DatePositions(source.columns, source.dates);
    forall r | r in Rows(source, cycle, rows)
      ensures Csv.HasNoEmptyText(r)
    {
      var i :| 0 <= i < |rows| && Rows(source, cycle, rows)[i] == r;
      RowHasNoEmptyText(rows[i], positions, cycle);
    }
    Csv.TextReadsBack(Rows(source, cycle, rows));
  }

  function TextOf(cell: Csv.Cell): string {
    if cell.None? then "" else cell.value
  }

  /** And a stored row says what its line said: every field, for every date column the date its
      text denotes or nothing, and the cycle. */
  lemma RowSaysItsLine(fields: seq<string>, positions: seq<nat>, cycle: Cycle)
    requires InRange(positions, |fields|)
    ensures var row := Row(fields, positions, cycle);
            && |row| == |fields| + |positions| + 1
            && (forall i | 0 <= i < |fields| :: TextOf(row[i]) == fields[i])
            && (forall j | 0 <= j < |positions| :: TwinDenotes(row[|fields| + j], fields[positions[j]]))
            && var last := row[|row| - 1];
               last.Some? && AllDigits(last.value) && ReadDigits(last.value) == cycle
  {
    CycleTextReadsBack(cycle);
    var row := Row(fields, positions, cycle);
    forall j | 0 <= j < |positions|
      ensures TwinDenotes(row[|fields| + j], fields[positions[j]])
    {
      DateTwinDenotes(fields[positions[j]]);
    }
  }

  predicate TwinDenotes(twin: Csv.Cell, raw: string) {
    && twin.Some? == ReadBulkDate(raw).Some?
    && (twin.Some? ==> ReadIso(twin.value) == ReadBulkDate(raw))
  }

  // ----- The columns copied into -----

  lemma {:induction false} PositionsCount(columns: seq<string>, dates: seq<string>)
    ensures |DatePositions(columns, dates)| <= |dates|
    ensures |DatePositions(columns, dates)| == |dates| <==> forall i | 0 <= i < |dates| :: dates[i] in columns
  {
    if dates != [] {
      PositionsCount(columns, dates[1..]);
      assert forall i | 0 < i < |dates| :: dates[i] == dates[1..][i - 1];
    }
  }

  /** The copy names one column for each cell of a row exactly when every date column is a column
      of the source. */
  lemma RowFitsColumns(source: Source, fields: seq<string>, cycle: Cycle)
    requires |fields| == |source.columns|
    ensures |Row(fields, DatePositions(source.columns, source.dates), cycle)| == |source.columns| + |source.dates| + 1
            <==> forall i | 0 <= i < |source.dates| :: source.dates[i] in source.columns
  {
    PositionsCount(source.columns, source.dates);
  }
}
