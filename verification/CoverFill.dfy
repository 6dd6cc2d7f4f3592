/**
 Filling a cover page until its rules hold: `fill_column` repeats simultaneous passes over the
 rule table, at most thirty-two times; `balance` fills Column A, copies it, fills Column B and
 writes zeros in what is left blank.

 Amounts are whole cents. A formula reads cover lines of its own column; a schedule sum is a
 number the cover does not influence.
 */
module CoverFill {
  import opened Wrappers

  datatype Column = ColumnA | ColumnB

  datatype Relation = Equal | AtLeast

  datatype Term = Term(line: string, negative: bool)

  datatype Source = Schedules(relation: Relation, total: int) | Formula(terms: seq<Term>) | Input

  datatype LineRule = LineRule(line: string, field: string, column: Column, source: Source)

  /** The largest number of cents an amount can be read back as. */
  const MAX_CENTS: int := 0x7fff_ffff_ffff_ffff

  type Cents = c: int | -MAX_CENTS <= c <= MAX_CENTS

  /** A cover field: blank, text that is not an amount, or an amount. */
  datatype Cell = Blank | Garbage | Amount(cents: Cents)

  type Cover = map<string, Cell>

  /** Writing an amount with two decimals and reading it back. */
  function Written(cents: int): Cell {
    if -MAX_CENTS <= cents <= MAX_CENTS then Amount(cents) else Garbage
  }

  function Value(cell: Cell): int {
    if cell.Amount? then cell.cents else 0
  }

  /** The reported value of a field, 0 when blank, unreadable or not in the layout. */
  function ValueOf(cover: Cover, field: string): int {
    if field in cover then Value(cover[field]) else 0
  }

  function FindRule(rules: seq<LineRule>, column: Column, line: string): (r: Option<LineRule>)
    ensures r.Some? ==> r.value in rules && r.value.column == column && r.value.line == line
  {
    if rules == [] then None
    else if rules[0].column == column && rules[0].line == line then Some(rules[0])
    else FindRule(rules[1..], column, line)
  }

  function TermValue(rules: seq<LineRule>, cover: Cover, column: Column, line: string): int {
    match FindRule(rules, column, line)
    case None => 0
    case Some(r) => ValueOf(cover, r.field)
  }

  function Sum(rules: seq<LineRule>, cover: Cover, column: Column, terms: seq<Term>): int {
    if terms == [] then 0
    else
      var init, t := terms[..|terms| - 1], terms[|terms| - 1];
      var value := TermValue(rules, cover, column, t.line);
      Sum(rules, cover, column, init) + (if t.negative then -value else value)
  }

  function Expected(rules: seq<LineRule>, cover: Cover, rule: LineRule): int {
    match rule.source
    case Schedules(_, total) => total
    case Formula(terms) => Sum(rules, cover, rule.column, terms)
    case Input => ValueOf(cover, rule.field)
  }

  function RelationOf(rule: LineRule): Relation {
    if rule.source.Schedules? then rule.source.relation else Equal
  }

  predicate Satisfies(relation: Relation, reported: int, expected: int) {
    match relation
    case Equal => reported == expected
    case AtLeast => reported >= expected
  }

  /** Whether a check of the column exists for the rule. */
  predicate Checked(cover: Cover, column: Column, rule: LineRule) {
    rule.column == column && !rule.source.Input? && rule.field in cover
  }

  /** The check is reported and matches. */
  predicate Holds(rules: seq<LineRule>, cover: Cover, rule: LineRule)
    requires rule.field in cover
  {
    cover[rule.field].Amount? && Satisfies(RelationOf(rule), cover[rule.field].cents, Expected(rules, cover, rule))
  }

  predicate IsPending(rules: seq<LineRule>, cover: Cover, column: Column, rule: LineRule) {
    Checked(cover, column, rule) && !Holds(rules, cover, rule)
  }

  /** The lines of the column still to be set, with their values, for a part of the rule table. */
  function Pending(rules: seq<LineRule>, part: seq<LineRule>, cover: Cover, column: Column): seq<(string, int)> {
    if part == [] then []
    else (if IsPending(rules, cover, column, part[0]) then [(part[0].field, Expected(rules, cover, part[0]))] else [])
         + Pending(rules, part[1..], cover, column)
  }

  function SetAll(cover: Cover, values: seq<(string, int)>): Cover
    decreases values
  {
    if values == [] then cover else SetAll(cover[values[0].0 := Written(values[0].1)], values[1..])
  }

  /** One simultaneous pass. */
  function Pass(rules: seq<LineRule>, cover: Cover, column: Column): Cover {
    SetAll(cover, Pending(rules, rules, cover, column))
  }

  function Passes(rules: seq<LineRule>, cover: Cover, column: Column, n: nat): Cover {
    if n == 0 then cover else Pass(rules, Passes(rules, cover, column, n - 1), column)
  }

  predicate Settled(rules: seq<LineRule>, cover: Cover, column: Column) {
    Pending(rules, rules, cover, column) == []
  }

  predicate SettledAfter(rules: seq<LineRule>, cover: Cover, column: Column, n: nat) {
    Settled(rules, Passes(rules, cover, column, n), column)
  }

  /** The column settles within the thirty-two passes allowed: the last one only checks. */
  ghost predicate Converges(rules: seq<LineRule>, cover: Cover, column: Column) {
    exists n: nat :: n < 32 && SettledAfter(rules, cover, column, n)
  }

  /** `filled` is what the thirty-two passes allowed settle on. */
  ghost predicate FillsTo(rules: seq<LineRule>, cover: Cover, column: Column, filled: Cover) {
    exists n: nat :: n < 32 && SettledAfter(rules, cover, column, n) && filled == Passes(rules, cover, column, n)
  }

  // ----- Copying Column A into Column B -----

  /** Line 6(a) of Column B is Column A's 6(b); every other input has the same line in both. */
  function SourceLine(line: string): string {
    if line == "6(a)" then "6(b)" else line
  }

  function CellOf(cover: Cover, field: string): Cell {
    if field in cover then cover[field] else Blank
  }

  function Copies(rules: seq<LineRule>, part: seq<LineRule>, cover: Cover): seq<(string, Cell)> {
    if part == [] then []
    else
      var rest := Copies(rules, part[1..], cover);
      var a := FindRule(rules, ColumnA, SourceLine(part[0].line));
      if part[0].column == ColumnB && part[0].source.Input? && a.Some?
      then [(part[0].field, CellOf(cover, a.value.field))] + rest
      else rest
  }

  lemma CopiesOf(rules: seq<LineRule>, part: seq<LineRule>, cover: Cover)
    requires part != []
    ensures var a := FindRule(rules, ColumnA, SourceLine(part[0].line));
            Copies(rules, part, cover)
            == (if part[0].column == ColumnB && part[0].source.Input? && a.Some?
                then [(part[0].field, CellOf(cover, a.value.field))] else [])
               + Copies(rules, part[1..], cover)
  {
  }

  function PlaceAll(cover: Cover, values: seq<(string, Cell)>): Cover
    decreases values
  {
    if values == [] then cover else PlaceAll(cover[values[0].0 := values[0].1], values[1..])
  }

  /** Setting a field the layout does not have is an error. */
  predicate AllKnown(cover: Cover, values: seq<(string, Cell)>) {
    forall v | v in values :: v.0 in cover
  }

  // ----- Writing zeros -----

  predicate IsBlankAmount(cover: Cover, field: string) {
    field in cover && cover[field].Blank? && ("col_a_" <= field || "col_b_" <= field)
  }

  function Zeroed(cover: Cover): Cover {
    map field | field in cover :: if IsBlankAmount(cover, field) then Amount(0) else cover[field]
  }

  /** `balanced` is what a successful `balance` leaves. */
  ghost predicate BalancesTo(rules: seq<LineRule>, cover: Cover, a: Cover, b: Cover, balanced: Cover) {
    && FillsTo(rules, cover, ColumnA, a)
    && AllKnown(a, Copies(rules, rules, a))
    && FillsTo(rules, PlaceAll(a, Copies(rules, rules, a)), ColumnB, b)
    && balanced == Zeroed(b)
  }

  // ----- The filing, filled in place -----

  class Filing {
    const rules: seq<LineRule>
    var summary: Cover

    constructor (rules: seq<LineRule>, summary: Cover)
      ensures this.rules == rules && this.summary == summary
    {
      this.rules, this.summary := rules, summary;
    }

    /** Returns whether the column converged within thirty-two passes. */
    method FillColumn(column: Column) returns (ok: bool)
      modifies this
      ensures ok <==> Converges(rules, old(summary), column)
      ensures ok ==> FillsTo(rules, old(summary), column, summary)
    {
      for pass := 0 to 32
        invariant summary == Passes(rules, old(summary), column, pass)
        invariant forall n: nat | n < pass :: !SettledAfter(rules, old(summary), column, n)
      {
        var pending := CollectPending(column);
        if pending == [] {
          assert SettledAfter(rules, old(summary), column, pass);
          return true;
        }
        SetFields(pending);
      }
      return false;
    }

    method CollectPending(column: Column) returns (pending: seq<(string, int)>)
      ensures pending == Pending(rules, rules, summary, column)
    {
      pending := [];
      for i := 0 to |rules|
        invariant pending + Pending(rules, rules[i..], summary, column) == Pending(rules, rules, summary, column)
      {
        assert rules[i..][1..] == rules[i + 1..];
        if IsPending(rules, summary, column, rules[i]) {
          pending := pending + [(rules[i].field, Expected(rules, summary, rules[i]))];
        }
      }
    }

    method SetFields(values: seq<(string, int)>)
      modifies this
      ensures summary == SetAll(old(summary), values)
    {
      for i := 0 to |values|
        invariant SetAll(summary, values[i..]) == SetAll(old(summary), values)
      {
        assert values[i..][1..] == values[i + 1..];
        summary := summary[values[i].0 := Written(values[i].1)];
      }
    }

    method CollectCopies() returns (copies: seq<(string, Cell)>)
      ensures copies == Copies(rules, rules, summary)
    {
      copies := [];
      for i := 0 to |rules|
        invariant copies + Copies(rules, rules[i..], summary) == Copies(rules, rules, summary)
      {
        CopiesOf(rules, rules[i..], summary);
        assert rules[i..][1..] == rules[i + 1..];
        if rules[i].column == ColumnB && rules[i].source.Input? {
          var a := FindRule(rules, ColumnA, SourceLine(rules[i].line));
          if a.Some? {
            copies := copies + [(rules[i].field, CellOf(summary, a.value.field))];
          }
        }
      }
    }

    /** Returns false at the first field that is not in the layout. */
    method PlaceFields(values: seq<(string, Cell)>) returns (ok: bool)
      modifies this
      ensures ok <==> AllKnown(old(summary), values)
      ensures ok ==> summary == PlaceAll(old(summary), values)
    {
      for i := 0 to |values|
        invariant summary.Keys == old(summary).Keys
        invariant forall j | 0 <= j < i :: values[j].0 in old(summary)
        invariant PlaceAll(summary, values[i..]) == PlaceAll(old(summary), values)
      {
        assert values[i..][1..] == values[i + 1..];
        if values[i].0 !in summary {
          assert values[i] in values;
          return false;
        }
        summary := summary[values[i].0 := values[i].1];
      }
      return true;
    }

    /** Returns false when a Column B input is not in the layout. */
    method CopyColumnAIntoB() returns (ok: bool)
      modifies this
      ensures ok <==> AllKnown(old(summary), Copies(rules, rules, old(summary)))
      ensures ok ==> summary == PlaceAll(old(summary), Copies(rules, rules, old(summary)))
    {
      var copies := CollectCopies();
      ok := PlaceFields(copies);
    }

    method ZeroBlankAmounts()
      modifies this
      ensures summary == Zeroed(old(summary))
    {
      var blank := set field | field in summary && IsBlankAmount(summary, field);
      while blank != {}
        invariant blank <= summary.Keys == old(summary).Keys
        invariant forall field | field in blank :: IsBlankAmount(old(summary), field)
        invariant forall field | field in summary ::
                    summary[field] == if field in blank then old(summary)[field] else Zeroed(old(summary))[field]
        decreases |blank|
      {
        assert (forall f :: f !in blank) ==> blank == {};
        var field :| field in blank;
        assert summary[field] == old(summary)[field];
        summary := summary[field := Amount(0)];
        blank := blank - {field};
      }
    }

    /** Fills Column A, copies it, fills Column B, writes the zeros. */
    method Balance() returns (ok: bool)
      modifies this
      ensures ok ==> exists a, b :: BalancesTo(rules, old(summary), a, b, summary)
      ensures !ok ==> forall a, b, balanced :: !BalancesTo(rules, old(summary), a, b, balanced)
    {
      ok := FillColumn(ColumnA);
      if !ok {
        assert forall a :: !FillsTo(rules, old(summary), ColumnA, a);
        return;
      }
      ghost var a := summary;
      OneFill(rules, old(summary), ColumnA, a);
      ok := CopyColumnAIntoB();
      if !ok { return; }
      ghost var copied := summary;
      ok := FillColumn(ColumnB);
      if !ok {
        assert forall b :: !FillsTo(rules, copied, ColumnB, b);
        return;
      }
      ghost var b := summary;
      ZeroBlankAmounts();
      assert BalancesTo(rules, old(summary), a, b, summary);
    }
  }

  lemma {:induction false} SettledStays(rules: seq<LineRule>, cover: Cover, column: Column, n: nat, more: nat)
    requires SettledAfter(rules, cover, column, n)
    ensures Passes(rules, cover, column, n + more) == Passes(rules, cover, column, n)
    decreases more
  {
    if more > 0 {
      SettledStays(rules, cover, column, n, more - 1);
    }
  }

  /** A cover fills to one result only, however many passes it takes. */
  lemma OneFill(rules: seq<LineRule>, cover: Cover, column: Column, filled: Cover)
    requires FillsTo(rules, cover, column, filled)
    ensures forall other | FillsTo(rules, cover, column, other) :: other == filled
  {
    var n: nat :| n < 32 && SettledAfter(rules, cover, column, n) && filled == Passes(rules, cover, column, n);
    forall other | FillsTo(rules, cover, column, other)
      ensures other == filled
    {
      var m: nat :| m < 32 && SettledAfter(rules, cover, column, m) && other == Passes(rules, cover, column, m);
      if n < m {
        SettledStays(rules, cover, column, n, m - n);
      } else {
        SettledStays(rules, cover, column, m, n - m);
      }
    }
  }

  /** Amounts are whole cents of sixty-four bits, the least one excepted. */
  lemma AmountsAre(cents: int)
    ensures Written(cents) == if -9223372036854775807 <= cents <= 9223372036854775807 then Amount(cents) else Garbage
  {
  }

  /** The amount fields are those of the two columns, by the start of their names. */
  lemma ZeroedExactly(cover: Cover, field: string)
    requires field in cover
    ensures Zeroed(cover).Keys == cover.Keys
    ensures var isAmount := |field| >= 6 && (field[..6] == "col_a_" || field[..6] == "col_b_");
            Zeroed(cover)[field] == if isAmount && cover[field] == Blank then Amount(0) else cover[field]
  {
  }
}
