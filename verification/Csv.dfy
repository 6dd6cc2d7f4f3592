/**
 Records of fields separated by `|`, quoted as RFC 4180 section 2 does, with an unquoted empty
 field standing for NULL.
 */
module Csv {
  import opened Wrappers

  type Cell = Option<string>

  type Record = cells: seq<Cell> | cells != [] witness [None]

  // ----- Writing -----

  predicate NeedsQuotes(field: string) {
    '|' in field || '"' in field || '\n' in field || '\r' in field
  }

  function Doubled(field: string): string {
    if field == "" then ""
    else (if field[0] == '"' then "\"\"" else [field[0]]) + Doubled(field[1..])
  }

  function Field(field: string): string {
    if NeedsQuotes(field) then "\"" + Doubled(field) + "\"" else field
  }

  function CellText(cell: Cell): string {
    if cell.None? then "" else Field(cell.value)
  }

  /** Cells each followed by the delimiter. */
  function Terminated(cells: seq<Cell>): string {
    if cells == [] then "" else CellText(cells[0]) + "|" + Terminated(cells[1..])
  }

  lemma {:induction false} TerminatedGrows(cells: seq<Cell>, i: nat)
    requires i < |cells|
    ensures Terminated(cells[..i + 1]) == Terminated(cells[..i]) + (CellText(cells[i]) + "|")
  {
    TerminatedAppends(cells[..i], [cells[i]]);
    assert cells[..i + 1] == cells[..i] + [cells[i]];
    assert Terminated([cells[i]]) == CellText(cells[i]) + "|" + Terminated([]);
  }

  lemma {:induction false} TerminatedAppends(a: seq<Cell>, b: seq<Cell>)
    ensures Terminated(a + b) == Terminated(a) + Terminated(b)
  {
    if a == [] {
      assert [] + b == b;
    } else {
      assert (a + b)[1..] == a[1..] + b;
      TerminatedAppends(a[1..], b);
    }
  }

  function RecordText(record: Record): string {
    Terminated(record[..|record| - 1]) + CellText(record[|record| - 1]) + "\n"
  }

  function Text(records: seq<Record>): string {
    if records == [] then "" else RecordText(records[0]) + Text(records[1..])
  }

  // ----- Reading -----

  /** What follows an opening quote, up to its closing quote; and the rest. */
  function ReadQuoted(s: string): (r: Option<(string, string)>)
    ensures r.Some? ==> |r.value.1| < |s|
  {
    if s == "" then None
    else if s[0] != '"' then Prepend(s[0], ReadQuoted(s[1..]))
    else if |s| > 1 && s[1] == '"' then Prepend('"', ReadQuoted(s[2..]))
    else Some(("", s[1..]))
  }

  function Prepend(c: char, r: Option<(string, string)>): (p: Option<(string, string)>)
    ensures p.Some? == r.Some? && (p.Some? ==> p.value.1 == r.value.1)
  {
    match r
    case None => None
    case Some((text, rest)) => Some(([c] + text, rest))
  }

  function ReadBare(s: string): (r: Option<(string, string)>)
    ensures r.Some? ==> |r.value.1| <= |s|
  {
    if s == "" || s[0] == '|' || s[0] == '\n' || s[0] == '\r' then Some(("", s))
    else if s[0] == '"' then None
    else Prepend(s[0], ReadBare(s[1..]))
  }

  function ReadCell(s: string): (r: Option<(Cell, string)>)
    ensures r.Some? ==> |r.value.1| <= |s|
  {
    if s != "" && s[0] == '"' then
      match ReadQuoted(s[1..])
      case None => None
      case Some((text, rest)) => Some((Some(text), rest))
    else
      match ReadBare(s)
      case None => None
      case Some((text, rest)) => Some((if text == "" then None else Some(text), rest))
  }

  /** One record, ended by LF, CRLF or the end of the text; and the rest. */
  function ReadRecord(s: string): (r: Option<(Record, string)>)
    ensures r.Some? && s != "" ==> |r.value.1| < |s|
    decreases |s|
  {
    match ReadCell(s)
    case None => None
    case Some((cell, rest)) =>
      if rest == "" then Some(([cell], rest))
      else if rest[0] == '|' then
        match ReadRecord(rest[1..])
        case None => None
        case Some((cells, last)) => Some(([cell] + cells, last))
      else if rest[0] == '\n' then Some(([cell], rest[1..]))
      else if |rest| > 1 && rest[0] == '\r' && rest[1] == '\n' then Some(([cell], rest[2..]))
      else None
  }

  function Read(s: string): Option<seq<Record>>
    decreases |s|
  {
    if s == "" then Some([])
    else
      match ReadRecord(s)
      case None => None
      case Some((record, rest)) =>
        match Read(rest)
        case None => None
        case Some(records) => Some([record] + records)
  }

  // ----- Reading undoes writing -----

  predicate EndsField(rest: string) {
    rest != "" && (rest[0] == '|' || rest[0] == '\n')
  }

  lemma {:induction false} QuotedReadsBack(field: string, rest: string)
    requires EndsField(rest)
    ensures ReadQuoted(Doubled(field) + "\"" + rest) == Some((field, rest))
  {
    var s := Doubled(field) + "\"" + rest;
    if field == "" {
      assert s[1..] == rest;
    } else {
      QuotedReadsBack(field[1..], rest);
      assert [field[0]] + field[1..] == field;
      var later := Doubled(field[1..]) + "\"" + rest;
      if field[0] == '"' {
        assert s == "\"\"" + later;
        assert s[2..] == later;
      } else {
        assert s == [field[0]] + later;
        assert s[1..] == later;
      }
    }
  }

  lemma {:induction false} BareReadsBack(field: string, rest: string)
    requires !NeedsQuotes(field) && EndsField(rest)
    ensures ReadBare(field + rest) == Some((field, rest))
  {
    if field == "" {
      assert field + rest == rest;
    } else {
      assert field[0] in field;
      assert (field + rest)[1..] == field[1..] + rest;
      BareReadsBack(field[1..], rest);
      assert [field[0]] + field[1..] == field;
    }
  }

  lemma CellReadsBack(cell: Cell, rest: string)
    requires cell != Some("") && EndsField(rest)
    ensures ReadCell(CellText(cell) + rest) == Some((cell, rest))
  {
    if cell.None? {
      assert "" + rest == rest;
    } else if NeedsQuotes(cell.value) {
      QuotedCellReadsBack(cell.value, rest);
    } else {
      BareCellReadsBack(cell.value, rest);
    }
  }

  lemma QuotedCellReadsBack(field: string, rest: string)
    requires EndsField(rest)
    ensures ReadCell("\"" + Doubled(field) + "\"" + rest) == Some((Some(field), rest))
  {
    var s := "\"" + Doubled(field) + "\"" + rest;
    QuotedReadsBack(field, rest);
    assert s[0] == '"' && s[1..] == Doubled(field) + "\"" + rest;
  }

  lemma BareCellReadsBack(field: string, rest: string)
    requires field != "" && !NeedsQuotes(field) && EndsField(rest)
    ensures ReadCell(field + rest) == Some((Some(field), rest))
  {
    BareReadsBack(field, rest);
    assert field[0] in field && (field + rest)[0] == field[0];
  }

  /** An empty text cell cannot be told from NULL; every other cell can. */
  predicate HasNoEmptyText(cells: seq<Cell>) {
    forall c | c in cells :: c != Some("")
  }

  lemma RecordTextUnfolds(record: Record)
    ensures |record| == 1 ==> RecordText(record) == CellText(record[0]) + "\n"
    ensures |record| > 1 ==> RecordText(record) == CellText(record[0]) + ("|" + RecordText(record[1..]))
  {
    if |record| > 1 {
      var others: Record := record[1..];
      assert record[..|record| - 1][1..] == others[..|others| - 1];
    }
  }

  lemma {:induction false} RecordReadsBack(record: Record, rest: string)
    requires HasNoEmptyText(record)
    ensures ReadRecord(RecordText(record) + rest) == Some((record, rest))
    decreases |record|
  {
    var cell := record[0];
    assert cell in record;
    RecordTextUnfolds(record);
    if |record| == 1 {
      assert record == [cell];
      CellEndsRecord(cell, rest);
      Regroup(CellText(cell), "\n", "", rest);
    } else {
      var others: Record := record[1..];
      assert forall c | c in others :: c in record;
      RecordReadsBack(others, rest);
      CellContinues(cell, others, RecordText(others) + rest, rest);
      Regroup(CellText(cell), "|", RecordText(others), rest);
      assert [cell] + others == record;
    }
  }

  lemma Regroup(cell: string, sep: string, later: string, rest: string)
    ensures (cell + (sep + later)) + rest == cell + (sep + (later + rest))
    ensures (cell + sep) + rest == cell + (sep + rest)
  {
  }

  lemma CellEndsRecord(cell: Cell, rest: string)
    requires cell != Some("")
    ensures ReadRecord(CellText(cell) + ("\n" + rest)) == Some(([cell], rest))
  {
    CellReadsBack(cell, "\n" + rest);
    assert ("\n" + rest)[1..] == rest;
  }

  lemma CellContinues(cell: Cell, others: Record, later: string, rest: string)
    requires cell != Some("") && ReadRecord(later) == Some((others, rest))
    ensures ReadRecord(CellText(cell) + ("|" + later)) == Some(([cell] + others, rest))
  {
    CellReadsBack(cell, "|" + later);
    assert ("|" + later)[1..] == later;
  }

  lemma {:induction false} TextReadsBack(records: seq<Record>)
    requires forall r | r in records :: HasNoEmptyText(r)
    ensures Read(Text(records)) == Some(records)
  {
    if records != [] {
      assert records[0] in records;
      RecordReadsBack(records[0], Text(records[1..]));
      TextReadsBack(records[1..]);
      assert RecordText(records[0]) != "";
      assert [records[0]] + records[1..] == records;
    }
  }

  /** The one cell that is not recovered: empty text reads back as NULL. */
  lemma EmptyTextReadsAsNull(rest: string)
    requires EndsField(rest)
    ensures ReadCell(CellText(Some("")) + rest) == Some((None, rest))
  {
    assert "" + rest == rest;
  }
}
