/**
 Reading a field table: which column each field has in each version bucket, and which versions
 each bucket gets.
 */
module LayoutTables {
  import opened Wrappers
  import opened Text

  datatype Version = Version(paper: bool, major: nat, minor: nat)

  type CsvRow = seq<string>

  type Pos = n: nat | n >= 1 witness 1

  datatype Position = Absent | At(column: Pos) | Invalid

  /** A bucket: the position it reads from a row, and the versions its pattern matches. */
  datatype Pattern = Pattern(position: CsvRow -> Position, matches: Version -> bool)

  type Columns = map<string, nat>

  datatype Bucket = Bucket(versions: seq<Version>, columns: Columns)

  datatype TableDef = TableDef(fields: seq<string>, buckets: seq<Bucket>)

  datatype LoadError =
    | BadName(name: string)
    | BadPosition(name: string, bucket: nat)
    | Overflow(name: string, bucket: nat)
    | TwoColumns(name: string, bucket: nat)
    | SharedColumn(name: string, other: string, bucket: nat)

  // ----- Cells -----

  /** A column number, 1-based; `7.0` is 7, and blank or 0 is no column. */
  function ParsePosition(text: string): Position {
    var cell := Trim(text);
    if cell == "" then Absent
    else
      var split := SplitOnce(cell, '.');
      if split.Some? && !(split.value.1 != "" && forall c | c in split.value.1 :: c == '0') then Invalid
      else
        var n := ParseUnsigned(if split.Some? then split.value.0 else cell);
        if n.None? || n.value >= 0x1_0000_0000_0000_0000 then Invalid
        else if n.value == 0 then Absent
        else At(n.value)
  }

  /** The field a row is about, if it names one. */
  function NameOf(row: CsvRow): Option<string> {
    if row == [] || Trim(row[0]) == "" then None else Some(Trim(row[0]))
  }

  /** The bucket whose pattern stands in a column of the header row. */
  function PatternAt(headerCol: nat, matches: Version -> bool): Pattern {
    Pattern((row: CsvRow) => if headerCol < |row| then ParsePosition(row[headerCol]) else Absent, matches)
  }

  function PositionIn(row: CsvRow, p: Pattern): Position {
    p.position(row)
  }

  /** How positions are written: a number, perhaps with a fraction of zeros, in any white space. */
  lemma PositionReadsBack(column: Pos, zeros: nat, before: string, after: string)
    requires column < 0x1_0000_0000_0000_0000
    requires forall c | c in before + after :: IsWhiteSpace(c)
    ensures ParsePosition(before + Decimal(column) + after) == At(column)
    ensures zeros > 0 ==> ParsePosition(before + (Decimal(column) + ['.'] + seq(zeros, _ => '0')) + after) == At(column)
  {
    var whole, fraction := Decimal(column), seq(zeros, _ => '0');
    DecimalReadsBack(column);
    assert whole[0] in whole && whole[|whole| - 1] in whole;
    assert !IsDigit('.');
    TrimPadded(before, whole, after);
    NothingToSplit(whole, '.');
    if zeros > 0 {
      var text := whole + ['.'] + fraction;
      assert text[0] == whole[0] && text[|text| - 1] == fraction[zeros - 1];
      TrimPadded(before, text, after);
      SplitOnceAt(whole, '.', fraction);
    }
  }

  const MAX_COLUMN: nat := 0x1_0000

  /** The row gives the field `name` the 0-based column `column` in a bucket. */
  predicate Places(row: CsvRow, p: Pattern, name: string, column: nat) {
    NameOf(row) == Some(name) && PositionIn(row, p) == At(column + 1)
  }

  // ----- What a sound table is -----

  /** A row's name and cells can be read. */
  ghost predicate RowIsReadable(row: CsvRow, patterns: seq<Pattern>) {
    NameOf(row).Some? ==>
      && IsSnakeIdent(NameOf(row).value)
      && forall b | 0 <= b < |patterns| :: CellIsReadable(row, patterns[b])
  }

  predicate CellIsReadable(row: CsvRow, p: Pattern) {
    match PositionIn(row, p)
    case Absent => true
    case At(column) => column <= MAX_COLUMN
    case Invalid => false
  }

  /** Within a bucket a field has one column and a column one field. */
  ghost predicate IsOneToOne(rows: seq<CsvRow>, p: Pattern) {
    forall i, j, n, m, c, d | 0 <= i < |rows| && 0 <= j < |rows| && Places(rows[i], p, n, c) && Places(rows[j], p, m, d) ::
      n == m <==> c == d
  }

  ghost predicate IsSound(rows: seq<CsvRow>, patterns: seq<Pattern>) {
    && (forall i | 0 <= i < |rows| :: RowIsReadable(rows[i], patterns))
    && (forall b | 0 <= b < |patterns| :: IsOneToOne(rows, patterns[b]))
  }

  /** What an error says is so. */
  ghost predicate IsTrue(e: LoadError, rows: seq<CsvRow>, patterns: seq<Pattern>) {
    match e
    case BadName(name) => !IsSnakeIdent(name) && exists i | 0 <= i < |rows| :: NameOf(rows[i]) == Some(name)
    case BadPosition(name, b) =>
      b < |patterns| && exists i | 0 <= i < |rows| :: NameOf(rows[i]) == Some(name) && PositionIn(rows[i], patterns[b]).Invalid?
    case Overflow(name, b) =>
      b < |patterns| && exists i | 0 <= i < |rows| ::
        NameOf(rows[i]) == Some(name) && PositionIn(rows[i], patterns[b]).At? && PositionIn(rows[i], patterns[b]).column > MAX_COLUMN
    case TwoColumns(name, b) =>
      b < |patterns| && exists i, j, c, d | 0 <= i < |rows| && 0 <= j < |rows| ::
        Places(rows[i], patterns[b], name, c) && Places(rows[j], patterns[b], name, d) && c != d
    case SharedColumn(name, other, b) =>
      b < |patterns| && name != other && exists i, j, c | 0 <= i < |rows| && 0 <= j < |rows| ::
        Places(rows[i], patterns[b], name, c) && Places(rows[j], patterns[b], other, c)
  }

  /** A table an error is true of is not sound. */
  lemma ErrorsAreDefects(e: LoadError, rows: seq<CsvRow>, patterns: seq<Pattern>)
    requires IsTrue(e, rows, patterns)
    ensures !IsSound(rows, patterns)
  {
    if e.BadName? {
      var i :| 0 <= i < |rows| && NameOf(rows[i]) == Some(e.name);
      assert !RowIsReadable(rows[i], patterns);
    } else if e.BadPosition? {
      var i :| 0 <= i < |rows| && NameOf(rows[i]) == Some(e.name) && PositionIn(rows[i], patterns[e.bucket]).Invalid?;
      assert !CellIsReadable(rows[i], patterns[e.bucket]) && !RowIsReadable(rows[i], patterns);
    } else if e.Overflow? {
      var i :| 0 <= i < |rows| && NameOf(rows[i]) == Some(e.name) && PositionIn(rows[i], patterns[e.bucket]).At?
               && PositionIn(rows[i], patterns[e.bucket]).column > MAX_COLUMN;
      assert !CellIsReadable(rows[i], patterns[e.bucket]) && !RowIsReadable(rows[i], patterns);
    } else {
      assert !IsOneToOne(rows, patterns[e.bucket]);
    }
  }

  // ----- What the loop builds -----

  /** The fields named, each once, in the order first named. */
  function FieldNames(rows: seq<CsvRow>): seq<string> {
    if rows == [] then []
    else
      var before, name := FieldNames(rows[..|rows| - 1]), NameOf(rows[|rows| - 1]);
      if name.Some? && name.value !in before then before + [name.value] else before
  }

  /** The columns the rows give in one bucket, the first for a field winning. */
  function ColumnsOf(rows: seq<CsvRow>, p: Pattern): Columns {
    if rows == [] then map[]
    else
      PlaceCell(ColumnsOf(rows[..|rows| - 1], p), rows[|rows| - 1], p)
  }

  function PlaceCell(columns: Columns, row: CsvRow, p: Pattern): Columns {
    var name, position := NameOf(row), PositionIn(row, p);
    if name.Some? && position.At? && name.value !in columns then columns[name.value := position.column - 1] else columns
  }

  /** The row does not move a field that has a column. */
  predicate IsCompatible(columns: Columns, row: CsvRow, p: Pattern) {
    var name, position := NameOf(row), PositionIn(row, p);
    name.Some? && position.At? && name.value in columns ==> columns[name.value] == position.column - 1
  }

  function AllColumns(rows: seq<CsvRow>, patterns: seq<Pattern>): (r: seq<Columns>)
    ensures |r| == |patterns|
  {
    seq(|patterns|, b requires 0 <= b < |patterns| => ColumnsOf(rows, patterns[b]))
  }

  /** Columns were given by some row. */
  lemma {:induction false} ColumnsArePlaced(rows: seq<CsvRow>, p: Pattern, name: string)
    requires name in ColumnsOf(rows, p)
    ensures exists i | 0 <= i < |rows| :: Places(rows[i], p, name, ColumnsOf(rows, p)[name])
    decreases |rows|
  {
    var n := |rows| - 1;
    if name in ColumnsOf(rows[..n], p) {
      ColumnsArePlaced(rows[..n], p, name);
      var i :| 0 <= i < n && Places(rows[..n][i], p, name, ColumnsOf(rows[..n], p)[name]);
      assert Places(rows[i], p, name, ColumnsOf(rows, p)[name]);
    } else {
      assert Places(rows[n], p, name, ColumnsOf(rows, p)[name]);
    }
  }

  lemma {:induction false} PlacedAreColumns(rows: seq<CsvRow>, p: Pattern, i: nat, name: string, column: nat)
    requires i < |rows| && Places(rows[i], p, name, column)
    ensures name in ColumnsOf(rows, p)
    decreases |rows|
  {
    var n := |rows| - 1;
    if i < n {
      PlacedAreColumns(rows[..n], p, i, name, column);
    }
  }

  /** In a sound table a bucket's columns are exactly those its rows give. */
  lemma ColumnsAreExact(rows: seq<CsvRow>, p: Pattern, name: string, column: nat)
    requires IsOneToOne(rows, p)
    ensures (name in ColumnsOf(rows, p) && ColumnsOf(rows, p)[name] == column)
            <==> exists i | 0 <= i < |rows| :: Places(rows[i], p, name, column)
  {
    if name in ColumnsOf(rows, p) {
      ColumnsArePlaced(rows, p, name);
    }
    if i :| 0 <= i < |rows| && Places(rows[i], p, name, column) {
      PlacedAreColumns(rows, p, i, name, column);
    }
  }

  /** One field for each column of a bucket. */
  predicate IsInjective(columns: Columns) {
    forall n, m | n in columns && m in columns :: columns[n] == columns[m] ==> n == m
  }

  /** Every row read so far agrees with the columns kept. */
  ghost predicate FirstWins(rows: seq<CsvRow>, p: Pattern) {
    forall i, n, c | 0 <= i < |rows| && Places(rows[i], p, n, c) :: n in ColumnsOf(rows, p) && ColumnsOf(rows, p)[n] == c
  }

  /** Agreeing with the first column, and injective: one to one. */
  lemma OneToOneIs(rows: seq<CsvRow>, p: Pattern)
    ensures IsOneToOne(rows, p) <==> FirstWins(rows, p) && IsInjective(ColumnsOf(rows, p))
  {
    if IsOneToOne(rows, p) {
      forall i, n, c | 0 <= i < |rows| && Places(rows[i], p, n, c)
        ensures n in ColumnsOf(rows, p) && ColumnsOf(rows, p)[n] == c
      {
        ColumnsAreExact(rows, p, n, c);
      }
      forall n, m | n in ColumnsOf(rows, p) && m in ColumnsOf(rows, p)
        ensures ColumnsOf(rows, p)[n] == ColumnsOf(rows, p)[m] ==> n == m
      {
        ColumnsArePlaced(rows, p, n);
        ColumnsArePlaced(rows, p, m);
      }
    }
  }

  /** One more row. */
  lemma FirstWinsGrows(rows: seq<CsvRow>, row: CsvRow, p: Pattern)
    requires FirstWins(rows, p)
    ensures FirstWins(rows + [row], p) <==> IsCompatible(ColumnsOf(rows, p), row, p)
  {
    var more := rows + [row];
    assert more[..|rows|] == rows && more[|rows|] == row;
    assert forall k | 0 <= k < |rows| :: more[k] == rows[k];
    if FirstWins(more, p) {
      var position := PositionIn(row, p);
      if NameOf(row).Some? && position.At? {
        assert Places(more[|rows|], p, NameOf(row).value, position.column - 1);
      }
    } else {
      var i, n, c :| 0 <= i < |more| && Places(more[i], p, n, c) && !(n in ColumnsOf(more, p) && ColumnsOf(more, p)[n] == c);
    }
  }

  // ----- Exactly which cells are column numbers -----

  /** A number, or a number, a point and zeros. */
  predicate IsNumberText(cell: string, whole: string, zeros: string) {
    && '.' !in whole && (forall i | 0 <= i < |zeros| :: zeros[i] == '0')
    && cell == if zeros == "" then whole else whole + ['.'] + zeros
  }

  /** A cell says a column exactly when it is a number so written, not 0, and fits sixty-four bits. */
  lemma PositionExactly(text: string, column: Pos)
    ensures ParsePosition(text) == At(column) <==>
            && column <= 18446744073709551615
            && exists whole, zeros :: IsNumberText(Trim(text), whole, zeros) && ParseUnsigned(whole) == Some(column)
  {
    var cell := Trim(text);
    if ParsePosition(text) == At(column) {
      NumberIsFound(text, column);
    }
    if column <= 18446744073709551615
       && exists whole, zeros :: IsNumberText(cell, whole, zeros) && ParseUnsigned(whole) == Some(column) {
      var whole, zeros :| IsNumberText(cell, whole, zeros) && ParseUnsigned(whole) == Some(column);
      NumberTextParses(text, whole, zeros, column);
    }
  }

  lemma NumberTextParses(text: string, whole: string, zeros: string, n: nat)
    requires IsNumberText(Trim(text), whole, zeros) && ParseUnsigned(whole) == Some(n) && n <= 18446744073709551615
    ensures ParsePosition(text) == if n == 0 then Absent else At(n)
  {
    if zeros == "" {
      NothingToSplit(whole, '.');
    } else {
      SplitOnceAt(whole, '.', zeros);
    }
  }

  lemma NumberIsFound(text: string, column: Pos)
    requires ParsePosition(text) == At(column)
    ensures column <= 18446744073709551615
    ensures exists whole, zeros :: IsNumberText(Trim(text), whole, zeros) && ParseUnsigned(whole) == Some(column)
  {
    var cell := Trim(text);
    var split := SplitOnce(cell, '.');
    var whole, zeros := if split.Some? then split.value.0 else cell, if split.Some? then split.value.1 else "";
    assert forall i | 0 <= i < |zeros| :: zeros[i] in zeros;
    assert IsNumberText(cell, whole, zeros);
  }

  /** A cell says there is no column exactly when it is white space, or a 0 so written. */
  lemma AbsentExactly(text: string)
    ensures ParsePosition(text) == Absent <==>
            Trim(text) == "" || exists whole, zeros :: IsNumberText(Trim(text), whole, zeros) && ParseUnsigned(whole) == Some(0)
  {
    var cell := Trim(text);
    if cell != "" && ParsePosition(text) == Absent {
      var split := SplitOnce(cell, '.');
      var whole, zeros := if split.Some? then split.value.0 else cell, if split.Some? then split.value.1 else "";
      assert forall i | 0 <= i < |zeros| :: zeros[i] in zeros;
      assert IsNumberText(cell, whole, zeros);
    }
    if whole, zeros :| IsNumberText(cell, whole, zeros) && ParseUnsigned(whole) == Some(0) {
      NumberTextParses(text, whole, zeros, 0);
    }
  }

  /** Columns go up to 65536. */
  lemma LargestColumn(row: CsvRow, p: Pattern)
    requires PositionIn(row, p).At?
    ensures CellIsReadable(row, p) <==> PositionIn(row, p).column <= 65536
  {
  }

  // ----- The order of the fields -----

  /** A row names the first field, and no row up to it the second. */
  ghost predicate IsNamedFirst(rows: seq<CsvRow>, first: string, second: string) {
    exists k | 0 <= k < |rows| :: NamesOnly(rows, k, first, second)
  }

  ghost predicate NamesOnly(rows: seq<CsvRow>, k: nat, first: string, second: string)
    requires k < |rows|
  {
    NameOf(rows[k]) == Some(first) && forall j | 0 <= j <= k :: NameOf(rows[j]) != Some(second)
  }

  lemma NamedFirstStill(rows: seq<CsvRow>, first: string, second: string)
    requires rows != [] && IsNamedFirst(rows[..|rows| - 1], first, second)
    ensures IsNamedFirst(rows, first, second)
  {
    var k :| 0 <= k < |rows| - 1 && NamesOnly(rows[..|rows| - 1], k, first, second);
    assert forall j | 0 <= j <= k :: rows[j] == rows[..|rows| - 1][j];
    assert NamesOnly(rows, k, first, second);
  }

  lemma {:induction false} NamedByARow(rows: seq<CsvRow>, name: string)
    ensures name in FieldNames(rows) <==> exists k | 0 <= k < |rows| :: NameOf(rows[k]) == Some(name)
    decreases |rows|
  {
    if rows != [] {
      var n := |rows| - 1;
      NamedByARow(rows[..n], name);
      assert forall k | 0 <= k < n :: rows[..n][k] == rows[k];
      assert NameOf(rows[n]) == Some(name) ==> name in FieldNames(rows);
    }
  }

  /** A table lists its fields in the order their rows first name them. */
  lemma {:induction false} FieldsInOrder(rows: seq<CsvRow>, i: nat, j: nat)
    requires i < j < |FieldNames(rows)|
    ensures IsNamedFirst(rows, FieldNames(rows)[i], FieldNames(rows)[j])
    decreases |rows|
  {
    var n := |rows| - 1;
    var before, names := FieldNames(rows[..n]), FieldNames(rows);
    if j < |before| {
      FieldsInOrder(rows[..n], i, j);
    } else {
      assert before[i] in before;
      NamedByARow(rows[..n], before[i]);
      NamedByARow(rows[..n], names[j]);
      var k :| 0 <= k < n && NameOf(rows[..n][k]) == Some(before[i]);
      assert NamesOnly(rows[..n], k, before[i], names[j]);
    }
    NamedFirstStill(rows, names[i], names[j]);
  }
}
