/**
 Staging from the input's bytes to the stored rows: what the text of a line has to do with the row
 read back, which lines are passed over, and which stop the load.
 */
module StagedInput {
  import opened Wrappers
  import opened Text
  import opened Cycles
  import opened BulkDates
  import opened Staging
  import opened StagingRoundTrip
  import Csv

  // ----- The fields of a line -----

  predicate IsWhite(text: string) {
    forall i | 0 <= i < |text| :: IsWhiteSpace(text[i])
  }

  predicate IsEnding(ending: string) {
    forall i | 0 <= i < |ending| :: ending[i] == '\r' || ending[i] == '\n'
  }

  /** `text` is these fields with bars between them, and perhaps a line ending. */
  predicate IsTextOf(text: string, fields: seq<string>, ending: string) {
    var joined := Join(fields, '|');
    && fields != [] && text == joined + ending && IsEnding(ending)
    && (forall i | 0 <= i < |fields| :: '|' !in fields[i])
    && (joined != "" ==> joined[|joined| - 1] != '\r' && joined[|joined| - 1] != '\n')
  }

  lemma {:induction false} TrimEndDrops(s: string, ending: string)
    requires IsEnding(ending) && (s != "" ==> s[|s| - 1] != '\r' && s[|s| - 1] != '\n')
    ensures TrimEnd(s + ending, IsLineBreak) == s
    decreases |ending|
  {
    if ending == "" {
      assert s + ending == s;
    } else {
      var n := |ending| - 1;
      assert (s + ending)[..|s + ending| - 1] == s + ending[..n];
      TrimEndDrops(s, ending[..n]);
    }
  }

  lemma {:induction false} TrimEndParts(s: string) returns (ending: string)
    ensures var kept := TrimEnd(s, IsLineBreak);
            && s == kept + ending && IsEnding(ending)
            && (kept != "" ==> kept[|kept| - 1] != '\r' && kept[|kept| - 1] != '\n')
    decreases |s|
  {
    if s != "" && IsLineBreak(s[|s| - 1]) {
      var shorter := s[..|s| - 1];
      var rest := TrimEndParts(shorter);
      ending := rest + [s[|s| - 1]];
      assert s == shorter + [s[|s| - 1]];
    } else {
      ending := "";
      assert s + "" == s;
    }
  }

  /** Every text is some fields with bars between them. */
  lemma EveryTextHasFields(text: string) returns (fields: seq<string>, ending: string)
    ensures IsTextOf(text, fields, ending)
  {
    var kept := TrimEnd(text, IsLineBreak);
    ending := TrimEndParts(text);
    fields := Split(kept, '|');
    SplitJoins(kept, '|');
  }

  /** Fields without bars, carriage returns or newlines, ended in any of the three usual ways. */
  lemma {:induction false} PlainFieldsAreText(fields: seq<string>, ending: string)
    requires fields != [] && (ending == "" || ending == "\n" || ending == "\r\n")
    requires forall i | 0 <= i < |fields| :: '|' !in fields[i] && '\r' !in fields[i] && '\n' !in fields[i]
    ensures IsTextOf(Join(fields, '|') + ending, fields, ending)
  {
    NoBreakInJoined(fields);
    var joined := Join(fields, '|');
    assert joined != "" ==> joined[|joined| - 1] in joined;
  }

  lemma {:induction false} NoBreakInJoined(fields: seq<string>)
    requires forall i | 0 <= i < |fields| :: '\r' !in fields[i] && '\n' !in fields[i]
    ensures '\r' !in Join(fields, '|') && '\n' !in Join(fields, '|')
    decreases |fields|
  {
    if |fields| > 1 {
      NoBreakInJoined(fields[1..]);
    }
  }

  lemma {:induction false} TrimStartIsEmpty(s: string)
    ensures TrimStart(s, IsWhiteSpace) == "" <==> IsWhite(s)
    ensures TrimStart(s, IsWhiteSpace) != "" ==> !IsWhite(TrimStart(s, IsWhiteSpace))
    decreases |s|
  {
    if s != "" && IsWhiteSpace(s[0]) {
      TrimStartIsEmpty(s[1..]);
      assert forall i | 0 < i < |s| :: s[i] == s[1..][i - 1];
      assert IsWhite(s) <==> IsWhite(s[1..]);
    }
  }

  lemma {:induction false} TrimEndIsEmpty(s: string)
    ensures TrimEnd(s, IsWhiteSpace) == "" <==> IsWhite(s)
    decreases |s|
  {
    if s != "" && IsWhiteSpace(s[|s| - 1]) {
      TrimEndIsEmpty(s[..|s| - 1]);
      assert IsWhite(s) <==> IsWhite(s[..|s| - 1]);
    }
  }

  lemma TrimIsEmpty(s: string)
    ensures Trim(s) == "" <==> IsWhite(s)
  {
    TrimStartIsEmpty(s);
    TrimEndIsEmpty(TrimStart(s, IsWhiteSpace));
  }

  lemma WhiteWithoutEnding(kept: string, ending: string)
    requires IsEnding(ending)
    ensures IsWhite(kept + ending) <==> IsWhite(kept)
  {
    assert forall i | 0 <= i < |kept| :: (kept + ending)[i] == kept[i];
  }

  /** A line is blank exactly when its text is white space; otherwise it is data, of its first fields,
      exactly when it has as many as the source has columns, or more where those are allowed. */
  lemma ClassifyExactly(source: Source, decode: Decoder, line: Bytes, fields: seq<string>, ending: string)
    requires IsTextOf(decode(line), fields, ending)
    ensures var width := |source.columns|;
            Classify(source, decode, line)
            == if IsWhite(decode(line)) then BlankLine
               else if |fields| == width || (|fields| > width && source.allowExtra) then DataLine(fields[..width])
               else BadLine(|fields|)
  {
    var joined := Join(fields, '|');
    TrimEndDrops(joined, ending);
    TrimIsEmpty(joined);
    WhiteWithoutEnding(joined, ending);
    JoinSplits(fields, '|');
  }

  // ----- How many fields -----

  function Bars(text: string): nat {
    if text == "" then 0 else Bars(text[1..]) + if text[0] == '|' then 1 else 0
  }

  lemma {:induction false} BarsOfBoth(a: string, b: string)
    ensures Bars(a + b) == Bars(a) + Bars(b)
    decreases |a|
  {
    if a == "" {
      assert a + b == b;
    } else {
      assert (a + b)[1..] == a[1..] + b;
      BarsOfBoth(a[1..], b);
    }
  }

  lemma {:induction false} NoBars(s: string)
    requires '|' !in s
    ensures Bars(s) == 0
    decreases |s|
  {
    if s != "" {
      NoBars(s[1..]);
    }
  }

  lemma {:induction false} BarsOfJoined(fields: seq<string>)
    requires fields != [] && forall i | 0 <= i < |fields| :: '|' !in fields[i]
    ensures Bars(Join(fields, '|')) == |fields| - 1
    decreases |fields|
  {
    NoBars(fields[0]);
    if |fields| > 1 {
      BarsOfJoined(fields[1..]);
      BarsOfBoth(fields[0] + "|", Join(fields[1..], '|'));
      BarsOfBoth(fields[0], "|");
    }
  }

  /** A line has one field more than bars. */
  lemma FieldsAreBars(text: string, fields: seq<string>, ending: string)
    requires IsTextOf(text, fields, ending)
    ensures |fields| == Bars(text) + 1
  {
    BarsOfJoined(fields);
    BarsOfBoth(Join(fields, '|'), ending);
    assert forall i | 0 <= i < |ending| :: ending[i] != '|';
    NoBars(ending);
  }

  /** Whether the row's width is one the source takes. */
  predicate Fits(source: Source, text: string) {
    var found := Bars(text) + 1;
    found == |source.columns| || (found > |source.columns| && source.allowExtra)
  }

  ghost predicate StartsWithFields(source: Source, text: string, first: seq<string>) {
    exists fields, ending :: IsTextOf(text, fields, ending) && |source.columns| <= |fields| && first == fields[..|source.columns|]
  }

  lemma LineIs(source: Source, decode: Decoder, line: Bytes)
    ensures var text := decode(line);
            var r := Classify(source, decode, line);
            && (r.BlankLine? <==> IsWhite(text))
            && (r.DataLine? <==> !IsWhite(text) && Fits(source, text))
            && (r.DataLine? ==> |r.fields| == |source.columns| && StartsWithFields(source, text, r.fields))
            && (r.BadLine? ==> r.found == Bars(text) + 1)
  {
    var fields, ending := EveryTextHasFields(decode(line));
    ClassifyExactly(source, decode, line, fields, ending);
    FieldsAreBars(decode(line), fields, ending);
  }

  // ----- Lines passed over, kept, and stopping the load -----

  function NonBlank(decode: Decoder, lines: seq<Bytes>): seq<string> {
    if lines == [] then []
    else (if IsWhite(decode(lines[0])) then [] else [decode(lines[0])]) + NonBlank(decode, lines[1..])
  }

  /** How many rows are staged of `n`; a limit of 0 takes one. */
  function Wanted(n: nat, limit: Option<nat>): (w: nat)
    ensures w <= n
  {
    if limit.None? then n
    else if limit.value == 0 then (if n == 0 then 0 else 1)
    else if n < limit.value then n else limit.value
  }

  predicate AllFit(source: Source, texts: seq<string>, n: nat)
    requires n <= |texts|
  {
    forall k | 0 <= k < n :: Fits(source, texts[k])
  }

  /** The lines before `k` are blank or fit; line `k` does neither. */
  predicate IsFirstMisfit(source: Source, decode: Decoder, lines: seq<Bytes>, k: nat) {
    && k < |lines| && !IsWhite(decode(lines[k])) && !Fits(source, decode(lines[k]))
    && forall j | 0 <= j < k :: IsWhite(decode(lines[j])) || Fits(source, decode(lines[j]))
  }

  ghost predicate RowsStartLines(source: Source, texts: seq<string>, rows: seq<seq<string>>) {
    |rows| <= |texts| && forall k | 0 <= k < |rows| :: StartsWithFields(source, texts[k], rows[k])
  }


  type Outcome = Result<seq<seq<string>>, MalformedRow>

  /** The rows wanted, exactly when their lines fit; otherwise the first line that does not. */
  ghost predicate IsStagingOf(source: Source, decode: Decoder, lines: seq<Bytes>, lineNo: nat, limit: Option<nat>, r: Outcome) {
    var texts := NonBlank(decode, lines);
    var want := Wanted(|texts|, limit);
    && (r.Ok? <==> AllFit(source, texts, want))
    && (r.Ok? ==> |r.value| == want && RowsStartLines(source, texts, r.value))
    && (r.Err? ==>
          && r.error.lineNo >= lineNo && r.error.expected == |source.columns|
          && IsFirstMisfit(source, decode, lines, r.error.lineNo - lineNo)
          && r.error.found == Bars(decode(lines[r.error.lineNo - lineNo])) + 1)
  }

  lemma MisfitIsLater(source: Source, decode: Decoder, lines: seq<Bytes>, k: nat)
    requires lines != [] && (IsWhite(decode(lines[0])) || Fits(source, decode(lines[0])))
    requires IsFirstMisfit(source, decode, lines[1..], k)
    ensures IsFirstMisfit(source, decode, lines, k + 1)
  {
    assert forall j | 0 < j < k + 1 :: lines[j] == lines[1..][j - 1];
  }

  lemma PassesOver(source: Source, decode: Decoder, lines: seq<Bytes>, lineNo: nat, limit: Option<nat>, r: Outcome)
    requires lines != [] && IsWhite(decode(lines[0])) && IsStagingOf(source, decode, lines[1..], lineNo + 1, limit, r)
    ensures IsStagingOf(source, decode, lines, lineNo, limit, r)
  {
    assert NonBlank(decode, lines) == NonBlank(decode, lines[1..]);
    if r.Err? {
      MisfitIsLater(source, decode, lines, r.error.lineNo - lineNo - 1);
    }
  }

  lemma AllFitOneMore(source: Source, text: string, later: seq<string>, n: nat)
    requires n <= |later|
    ensures AllFit(source, [text] + later, n + 1) <==> Fits(source, text) && AllFit(source, later, n)
  {
    var texts := [text] + later;
    assert forall k | 0 <= k < n :: texts[k + 1] == later[k];
    assert texts[0] == text;
  }

  lemma RowsOneMore(source: Source, text: string, later: seq<string>, first: seq<string>, rows: seq<seq<string>>)
    requires StartsWithFields(source, text, first) && RowsStartLines(source, later, rows)
    ensures RowsStartLines(source, [text] + later, [first] + rows)
  {
  }

  lemma Keeps(source: Source, decode: Decoder, lines: seq<Bytes>, lineNo: nat, limit: Option<nat>,
              fields: seq<string>, later: Option<nat>, r: Outcome)
    requires lines != [] && !IsWhite(decode(lines[0])) && Fits(source, decode(lines[0]))
    requires StartsWithFields(source, decode(lines[0]), fields)
    requires if limit.None? then later.None? else limit.value > 1 && later == Some(limit.value - 1)
    requires IsStagingOf(source, decode, lines[1..], lineNo + 1, later, r)
    ensures IsStagingOf(source, decode, lines, lineNo, limit, Before([fields], r))
  {
    var text, texts := decode(lines[0]), NonBlank(decode, lines[1..]);
    var n := Wanted(|texts|, later);
    assert NonBlank(decode, lines) == [text] + texts;
    assert Wanted(|[text] + texts|, limit) == n + 1;
    AllFitOneMore(source, text, texts, n);
    if r.Ok? {
      RowsOneMore(source, text, texts, fields, r.value);
    } else {
      MisfitIsLater(source, decode, lines, r.error.lineNo - lineNo - 1);
    }
  }

  lemma KeepsLast(source: Source, decode: Decoder, lines: seq<Bytes>, lineNo: nat, limit: nat, fields: seq<string>)
    requires lines != [] && !IsWhite(decode(lines[0])) && Fits(source, decode(lines[0])) && limit <= 1
    requires StartsWithFields(source, decode(lines[0]), fields)
    ensures IsStagingOf(source, decode, lines, lineNo, Some(limit), Ok([fields]))
  {
    assert NonBlank(decode, lines)[0] == decode(lines[0]);
  }

  lemma Stops(source: Source, decode: Decoder, lines: seq<Bytes>, lineNo: nat, limit: Option<nat>)
    requires lines != [] && !IsWhite(decode(lines[0])) && !Fits(source, decode(lines[0]))
    ensures IsStagingOf(source, decode, lines, lineNo, limit,
                        Err(MalformedRow(lineNo, |source.columns|, Bars(decode(lines[0])) + 1)))
  {
    assert NonBlank(decode, lines)[0] == decode(lines[0]);
    assert IsFirstMisfit(source, decode, lines, 0);
  }

  lemma {:induction false} StageOfLines(source: Source, decode: Decoder, lines: seq<Bytes>, lineNo: nat, limit: Option<nat>)
    ensures IsStagingOf(source, decode, lines, lineNo, limit,
                        Stage(ClassifyAll(source, decode, lines), lineNo, |source.columns|, limit))
    decreases |lines|
  {
    if lines != [] {
      var line := Classify(source, decode, lines[0]);
      assert ClassifyAll(source, decode, lines)[1..] == ClassifyAll(source, decode, lines[1..]);
      LineIs(source, decode, lines[0]);
      if line.BlankLine? {
        StageOfLines(source, decode, lines[1..], lineNo + 1, limit);
        var r := Stage(ClassifyAll(source, decode, lines[1..]), lineNo + 1, |source.columns|, limit);
        PassesOver(source, decode, lines, lineNo, limit, r);
      } else if line.BadLine? {
        Stops(source, decode, lines, lineNo, limit);
      } else if limit.Some? && limit.value <= 1 {
        KeepsLast(source, decode, lines, lineNo, limit.value, line.fields);
      } else {
        var later := if limit.Some? then Some(limit.value - 1) else None;
        StageOfLines(source, decode, lines[1..], lineNo + 1, later);
        var r := Stage(ClassifyAll(source, decode, lines[1..]), lineNo + 1, |source.columns|, later);
        Keeps(source, decode, lines, lineNo, limit, line.fields, later, r);
      }
    }
  }

  // ----- From the bytes to the rows read back -----

  /** The date columns the source has, in the order asked for. */
  function KnownDates(source: Source, dates: seq<string>): (known: seq<string>)
    decreases dates
  {
    if dates == [] then []
    else (if dates[0] in source.columns then [dates[0]] else []) + KnownDates(source, dates[1..])
  }

  predicate IsFirstColumn(columns: seq<string>, name: string, i: nat) {
    i < |columns| && columns[i] == name && name !in columns[..i]
  }

  lemma {:induction false} PositionIsFirst(columns: seq<string>, name: string)
    ensures Position(columns, name).Some? ==> IsFirstColumn(columns, name, Position(columns, name).value)
    decreases |columns|
  {
    if columns != [] && columns[0] != name {
      PositionIsFirst(columns[1..], name);
      var p := Position(columns[1..], name);
      if p.Some? {
        assert columns[..p.value + 1] == [columns[0]] + columns[1..][..p.value];
      }
    }
  }

  lemma {:induction false} DatesArePositioned(source: Source, dates: seq<string>)
    ensures var positions, known := DatePositions(source.columns, dates), KnownDates(source, dates);
            |positions| == |known| && forall j | 0 <= j < |known| :: IsFirstColumn(source.columns, known[j], positions[j])
    decreases |dates|
  {
    if dates != [] {
      DatesArePositioned(source, dates[1..]);
      PositionIsFirst(source.columns, dates[0]);
    }
  }

  /** A stored row says these fields: each of them, for each known date column the date the first column
      of that name denotes, and the cycle. */
  predicate RowSays(source: Source, cycle: Cycle, fields: seq<string>, row: Csv.Record)
    requires |fields| == |source.columns|
  {
    var known := KnownDates(source, source.dates);
    && |row| == |fields| + |known| + 1
    && (forall i | 0 <= i < |fields| :: TextOf(row[i]) == fields[i])
    && (forall j | 0 <= j < |known| :: TwinIsOf(source, fields, known[j], row[|fields| + j]))
    && row[|row| - 1].Some? && AllDigits(row[|row| - 1].value) && ReadDigits(row[|row| - 1].value) == cycle
  }

  predicate TwinIsOf(source: Source, fields: seq<string>, name: string, twin: Csv.Cell)
    requires |fields| == |source.columns|
  {
    exists i: nat | i < |source.columns| :: IsFirstColumn(source.columns, name, i) && TwinDenotes(twin, fields[i])
  }

  lemma RowIsSaid(source: Source, cycle: Cycle, fields: seq<string>)
    requires |fields| == |source.columns|
    ensures RowSays(source, cycle, fields, Row(fields, DatePositions(source.columns, source.dates), cycle))
  {
    var positions := DatePositions(source.columns, source.dates);
    DatesArePositioned(source, source.dates);
    RowSaysItsLine(fields, positions, cycle);
  }

  /** A stored row says what a line's text says first. */
  ghost predicate SaysLine(source: Source, cycle: Cycle, text: string, row: Csv.Record) {
    exists fields :: |fields| == |source.columns| && StartsWithFields(source, text, fields) && RowSays(source, cycle, fields, row)
  }

  ghost predicate RowsSayLines(source: Source, cycle: Cycle, texts: seq<string>, rows: seq<Csv.Record>) {
    |rows| <= |texts| && forall k | 0 <= k < |rows| :: SaysLine(source, cycle, texts[k], rows[k])
  }

  lemma RowsAreSaid(source: Source, cycle: Cycle, texts: seq<string>, rows: seq<seq<string>>)
    requires WidthIs(source, rows) && RowsStartLines(source, texts, rows)
    ensures RowsSayLines(source, cycle, texts, Rows(source, cycle, rows))
  {
    forall k | 0 <= k < |rows|
      ensures SaysLine(source, cycle, texts[k], Rows(source, cycle, rows)[k])
    {
      RowIsSaid(source, cycle, rows[k]);
    }
  }

  /** For every input: the file is staged exactly when the lines wanted fit, and then it reads back as
      one row for each of them, in order, that says what the line says; otherwise the error names the
      first line that neither is blank nor fits, and how many fields it has. */
  lemma FileSaysItsInput(source: Source, decode: Decoder, data: Bytes, cycle: Cycle, limit: Option<nat>)
    ensures var file := FileOf(RowWriterOf(source, cycle), Stage(Upcoming(source, decode, data, 0), 1, |source.columns|, limit));
            var lines := LinesFrom(data, 0);
            var texts := NonBlank(decode, lines);
            var want := Wanted(|texts|, limit);
            && (file.Ok? <==> AllFit(source, texts, want))
            && (file.Ok? ==> exists rows ::
                  Csv.Read(file.value.text) == Some(rows) && |rows| == want && RowsSayLines(source, cycle, texts, rows))
            && (file.Err? ==>
                  && file.error.lineNo > 0 && file.error.expected == |source.columns|
                  && IsFirstMisfit(source, decode, lines, file.error.lineNo - 1)
                  && file.error.found == Bars(decode(lines[file.error.lineNo - 1])) + 1)
  {
    var staged := Stage(Upcoming(source, decode, data, 0), 1, |source.columns|, limit);
    StageOfLines(source, decode, LinesFrom(data, 0), 1, limit);
    StagedFileReadsBack(source, decode, data, cycle, limit);
    if staged.Ok? {
      RowsAreSaid(source, cycle, NonBlank(decode, LinesFrom(data, 0)), staged.value);
    }
  }

  /** A date cell counts as nulled exactly when it says something and none of it is a date. */
  lemma NulledIsNoDate(raw: string)
    ensures IsNulled(raw) <==> !IsWhite(raw) && ReadBulkDate(raw).None?
  {
    TrimIsEmpty(raw);
    DateTwinDenotes(raw);
  }

  function Cells(fields: seq<string>): (cells: seq<Csv.Cell>)
    ensures |cells| == |fields|
  {
    seq(|fields|, i requires 0 <= i < |fields| => Some(fields[i]))
  }

  predicate IsPlain(field: string) {
    '|' !in field && '\"' !in field && '\n' !in field && '\r' !in field
  }

  /** Cells that need no quotes are written as they are with bars between them; what needs quotes is a
      bar, a quotation mark or a line break. */
  lemma {:induction false} PlainCellsAreJoined(fields: seq<string>)
    requires fields != [] && forall i | 0 <= i < |fields| :: IsPlain(fields[i])
    ensures var n := |fields| - 1;
            Csv.Terminated(Cells(fields[..n])) + Csv.CellText(Some(fields[n])) == Join(fields, '|')
    decreases |fields|
  {
    var n := |fields| - 1;
    assert Csv.CellText(Some(fields[n])) == fields[n];
    if n == 0 {
      assert Cells(fields[..0]) == [];
    } else {
      PlainCellsAreJoined(fields[1..]);
      FirstCell(fields);
    }
  }

  lemma FirstCell(fields: seq<string>)
    requires |fields| > 1 && IsPlain(fields[0])
    ensures var n := |fields| - 1;
            Csv.Terminated(Cells(fields[..n])) == fields[0] + "|" + Csv.Terminated(Cells(fields[1..][..n - 1]))
  {
    var n := |fields| - 1;
    assert Cells(fields[..n])[1..] == Cells(fields[1..][..n - 1]);
    assert Csv.CellText(Some(fields[0])) == fields[0];
  }

  /** A record ends with a newline after its last cell. */
  lemma RecordEnds(record: Csv.Record, cells: seq<Csv.Cell>, last: Csv.Cell)
    requires record == cells + [last]
    ensures Csv.RecordText(record) == Csv.Terminated(cells) + Csv.CellText(last) + "\n"
  {
    assert record[..|record| - 1] == cells;
  }
}
