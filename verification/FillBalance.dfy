/**
 What `balance` leaves: both columns settled. And the thirty-two passes are exactly enough: a
 table whose lines each repeat the one before converges if and only if it has at most 31 lines.
 */
module FillBalance {
  import opened Wrappers
  import opened CoverFill
  import opened FillConvergence

  // ----- The columns do not disturb each other -----

  /** Two covers that agree on the fields of a column's rules. */
  ghost predicate SameColumn(rules: seq<LineRule>, column: Column, c: Cover, d: Cover) {
    c.Keys == d.Keys && forall r | r in rules && r.column == column && r.field in c :: c[r.field] == d[r.field]
  }

  lemma {:induction false} SameSum(rules: seq<LineRule>, column: Column, c: Cover, d: Cover, terms: seq<Term>)
    requires SameColumn(rules, column, c, d)
    ensures Sum(rules, c, column, terms) == Sum(rules, d, column, terms)
  {
    if terms != [] {
      SameSum(rules, column, c, d, terms[..|terms| - 1]);
    }
  }

  lemma SameSettled(rules: seq<LineRule>, column: Column, c: Cover, d: Cover)
    requires SameColumn(rules, column, c, d) && Settled(rules, c, column)
    ensures Settled(rules, d, column)
  {
    SettledMeansAllHold(rules, rules, c, column);
    SettledMeansAllHold(rules, rules, d, column);
    forall r | r in rules
      ensures !IsPending(rules, d, column, r)
    {
      assert !IsPending(rules, c, column, r);
      if r.column == column && r.source.Formula? {
        SameSum(rules, column, c, d, r.source.terms);
      }
    }
  }

  lemma FillingKeepsOther(rules: seq<LineRule>, cover: Cover, column: Column, other: Column, filled: Cover)
    requires OneRuleEach(rules) && column != other && FillsTo(rules, cover, column, filled)
    ensures SameColumn(rules, other, cover, filled)
  {
    var n: nat :| n < 32 && SettledAfter(rules, cover, column, n) && filled == Passes(rules, cover, column, n);
    PassesElsewhere(rules, cover, column, n);
    forall r, s | r in rules && s in rules && r.field == s.field
      ensures r == s
    {
      var i :| 0 <= i < |rules| && rules[i] == r;
      var j :| 0 <= j < |rules| && rules[j] == s;
    }
  }

  lemma {:induction false} PlaceAllFields(cover: Cover, values: seq<(string, Cell)>)
    requires AllKnown(cover, values)
    ensures PlaceAll(cover, values).Keys == cover.Keys
    decreases values
  {
    if values != [] {
      PlaceAllFields(cover[values[0].0 := values[0].1], values[1..]);
    }
  }

  /** A Column B input with a Column A rule to take its value from: its own line, or 6(b) for 6(a). */
  predicate IsCopied(rules: seq<LineRule>, r: LineRule) {
    r.column == ColumnB && r.source.Input? && FindRule(rules, ColumnA, SourceLine(r.line)).Some?
  }

  function CopiedCell(rules: seq<LineRule>, cover: Cover, r: LineRule): Cell
    requires IsCopied(rules, r)
  {
    CellOf(cover, FindRule(rules, ColumnA, SourceLine(r.line)).value.field)
  }

  lemma {:induction false} CopiesAre(rules: seq<LineRule>, part: seq<LineRule>, cover: Cover, v: (string, Cell))
    ensures v in Copies(rules, part, cover) <==>
            exists r | r in part && IsCopied(rules, r) :: v == (r.field, CopiedCell(rules, cover, r))
    decreases part
  {
    if part != [] {
      CopiesAre(rules, part[1..], cover, v);
      assert forall r :: r in part <==> r == part[0] || r in part[1..];
    }
  }

  lemma {:induction false} PlaceAllAt(cover: Cover, values: seq<(string, Cell)>, v: (string, Cell))
    requires v in values && forall w | w in values && w.0 == v.0 :: w == v
    ensures v.0 in PlaceAll(cover, values) && PlaceAll(cover, values)[v.0] == v.1
    decreases values
  {
    var first, rest := values[0], values[1..];
    var placed := cover[first.0 := first.1];
    if v in rest {
      PlaceAllAt(placed, rest, v);
    } else {
      assert v == first;
      PlaceAllAway(placed, rest, v.0);
    }
  }

  lemma {:induction false} PlaceAllAway(cover: Cover, values: seq<(string, Cell)>, field: string)
    requires field in cover && forall v | v in values :: v.0 != field
    ensures field in PlaceAll(cover, values) && PlaceAll(cover, values)[field] == cover[field]
    decreases values
  {
    if values != [] {
      PlaceAllAway(cover[values[0].0 := values[0].1], values[1..], field);
    }
  }

  /** Copying fails exactly when an input with a Column A rule is not in the layout. */
  lemma CopyFailsExactly(rules: seq<LineRule>, cover: Cover)
    ensures AllKnown(cover, Copies(rules, rules, cover)) <==>
            forall r | r in rules && IsCopied(rules, r) :: r.field in cover
  {
    forall r | r in rules && IsCopied(rules, r)
      ensures (r.field, CopiedCell(rules, cover, r)) in Copies(rules, rules, cover)
    {
      CopiesAre(rules, rules, cover, (r.field, CopiedCell(rules, cover, r)));
    }
    forall v | v in Copies(rules, rules, cover)
      ensures exists r | r in rules && IsCopied(rules, r) :: r.field == v.0
    {
      CopiesAre(rules, rules, cover, v);
    }
  }

  /** Each Column B input with a Column A rule gets that rule's cell, 6(a) that of 6(b). */
  lemma InputsAreCopied(rules: seq<LineRule>, cover: Cover, r: LineRule)
    requires OneRuleEach(rules) && r in rules && IsCopied(rules, r)
    ensures var copied := PlaceAll(cover, Copies(rules, rules, cover));
            r.field in copied && copied[r.field] == CopiedCell(rules, cover, r)
  {
    var v := (r.field, CopiedCell(rules, cover, r));
    CopiesAre(rules, rules, cover, v);
    forall w | w in Copies(rules, rules, cover) && w.0 == v.0
      ensures w == v
    {
      CopiesAre(rules, rules, cover, w);
      var other :| other in rules && IsCopied(rules, other) && w == (other.field, CopiedCell(rules, cover, other));
      FieldsNameRules(rules, r, other);
    }
    PlaceAllAt(cover, Copies(rules, rules, cover), v);
  }

  lemma FieldsNameRules(rules: seq<LineRule>, r: LineRule, s: LineRule)
    requires OneRuleEach(rules) && r in rules && s in rules && r.field == s.field
    ensures r == s
  {
    var i :| 0 <= i < |rules| && rules[i] == r;
    var j :| 0 <= j < |rules| && rules[j] == s;
  }

  /** Nothing else changes. */
  lemma OthersAreKept(rules: seq<LineRule>, cover: Cover, field: string)
    requires field in cover && forall r | r in rules && IsCopied(rules, r) :: r.field != field
    ensures var copied := PlaceAll(cover, Copies(rules, rules, cover));
            field in copied && copied[field] == cover[field]
  {
    forall v | v in Copies(rules, rules, cover)
      ensures v.0 != field
    {
      CopiesAre(rules, rules, cover, v);
    }
    PlaceAllAway(cover, Copies(rules, rules, cover), field);
  }

  lemma CopyingKeepsA(rules: seq<LineRule>, cover: Cover)
    requires OneRuleEach(rules) && AllKnown(cover, Copies(rules, rules, cover))
    ensures SameColumn(rules, ColumnA, cover, PlaceAll(cover, Copies(rules, rules, cover)))
  {
    PlaceAllFields(cover, Copies(rules, rules, cover));
    forall r | r in rules && r.column == ColumnA && r.field in cover
      ensures PlaceAll(cover, Copies(rules, rules, cover))[r.field] == cover[r.field]
    {
      forall s | s in rules && IsCopied(rules, s)
        ensures s.field != r.field
      {
        if s.field == r.field {
          FieldsNameRules(rules, r, s);
        }
      }
      OthersAreKept(rules, cover, r.field);
    }
  }

  lemma {:induction false} ZeroesKeepSum(rules: seq<LineRule>, column: Column, cover: Cover, terms: seq<Term>)
    ensures Sum(rules, Zeroed(cover), column, terms) == Sum(rules, cover, column, terms)
  {
    if terms != [] {
      ZeroesKeepSum(rules, column, cover, terms[..|terms| - 1]);
    }
  }

  /** Writing 0.00 into blank fields changes no check: a blank already counted as zero. */
  lemma ZeroesKeepSettled(rules: seq<LineRule>, column: Column, cover: Cover)
    requires Settled(rules, cover, column)
    ensures Settled(rules, Zeroed(cover), column)
  {
    SettledMeansAllHold(rules, rules, cover, column);
    SettledMeansAllHold(rules, rules, Zeroed(cover), column);
    forall r | r in rules
      ensures !IsPending(rules, Zeroed(cover), column, r)
    {
      assert !IsPending(rules, cover, column, r);
      if r.source.Formula? {
        ZeroesKeepSum(rules, r.column, cover, r.source.terms);
      }
    }
  }

  /** After a successful `balance` every check of both columns is reported and matches. */
  lemma BalanceSettlesBoth(rules: seq<LineRule>, cover: Cover, a: Cover, b: Cover, balanced: Cover)
    requires OneRuleEach(rules) && BalancesTo(rules, cover, a, b, balanced)
    ensures Settled(rules, balanced, ColumnA) && Settled(rules, balanced, ColumnB)
  {
    var copied := PlaceAll(a, Copies(rules, rules, a));
    CopyingKeepsA(rules, a);
    SameSettled(rules, ColumnA, a, copied);
    FillingKeepsOther(rules, copied, ColumnB, ColumnA, b);
    SameSettled(rules, ColumnA, copied, b);
    ZeroesKeepSettled(rules, ColumnA, b);
    ZeroesKeepSettled(rules, ColumnB, b);
  }

  // ----- What the numbers of a balanced cover are -----

  /** The lines a formula adds, or those it subtracts. */
  function LinesOf(terms: seq<Term>, negative: bool): seq<string> {
    if terms == [] then []
    else
      var last := terms[|terms| - 1];
      LinesOf(terms[..|terms| - 1], negative) + if last.negative == negative then [last.line] else []
  }

  /** The lines' amounts added up; a line without a rule, a field or an amount counts nothing. */
  function Total(rules: seq<LineRule>, cover: Cover, column: Column, lines: seq<string>): int {
    if lines == [] then 0
    else Total(rules, cover, column, lines[..|lines| - 1]) + AmountAt(rules, cover, column, lines[|lines| - 1])
  }

  function AmountAt(rules: seq<LineRule>, cover: Cover, column: Column, line: string): int {
    var r := FindRule(rules, column, line);
    if r.Some? && r.value.field in cover && cover[r.value.field].Amount? then cover[r.value.field].cents else 0
  }

  lemma TotalGrows(rules: seq<LineRule>, cover: Cover, column: Column, lines: seq<string>, line: string)
    ensures Total(rules, cover, column, lines + [line]) == Total(rules, cover, column, lines) + AmountAt(rules, cover, column, line)
  {
    assert (lines + [line])[..|lines|] == lines;
  }

  lemma LinesGrow(rules: seq<LineRule>, cover: Cover, column: Column, terms: seq<Term>, negative: bool)
    requires terms != []
    ensures var before, last := LinesOf(terms[..|terms| - 1], negative), terms[|terms| - 1];
            Total(rules, cover, column, LinesOf(terms, negative))
            == Total(rules, cover, column, before)
               + if last.negative == negative then AmountAt(rules, cover, column, last.line) else 0
  {
    var before, last := LinesOf(terms[..|terms| - 1], negative), terms[|terms| - 1];
    if last.negative == negative {
      TotalGrows(rules, cover, column, before, last.line);
    } else {
      assert before + [] == before;
    }
  }

  lemma SumGrows(rules: seq<LineRule>, cover: Cover, column: Column, terms: seq<Term>)
    requires terms != []
    ensures var last := terms[|terms| - 1];
            var amount := AmountAt(rules, cover, column, last.line);
            Sum(rules, cover, column, terms)
            == Sum(rules, cover, column, terms[..|terms| - 1]) + if last.negative then -amount else amount
  {
  }

  /** The lines added, less the lines subtracted. */
  function Difference(rules: seq<LineRule>, cover: Cover, column: Column, terms: seq<Term>): int {
    Total(rules, cover, column, LinesOf(terms, false)) - Total(rules, cover, column, LinesOf(terms, true))
  }

  lemma DifferenceGrows(rules: seq<LineRule>, cover: Cover, column: Column, terms: seq<Term>)
    requires terms != []
    ensures var last := terms[|terms| - 1];
            var amount := AmountAt(rules, cover, column, last.line);
            Difference(rules, cover, column, terms)
            == Difference(rules, cover, column, terms[..|terms| - 1]) + if last.negative then -amount else amount
  {
    LinesGrow(rules, cover, column, terms, false);
    LinesGrow(rules, cover, column, terms, true);
  }

  /** A formula is what it adds less what it subtracts. */
  lemma {:induction false} SumIsDifference(rules: seq<LineRule>, cover: Cover, column: Column, terms: seq<Term>)
    ensures Sum(rules, cover, column, terms) == Difference(rules, cover, column, terms)
    decreases |terms|
  {
    if terms == [] {
      assert LinesOf(terms, false) == LinesOf(terms, true) == [];
    } else {
      SumIsDifference(rules, cover, column, terms[..|terms| - 1]);
      SumGrows(rules, cover, column, terms);
      DifferenceGrows(rules, cover, column, terms);
    }
  }

  /** What the cell of a checked line says once `balance` has succeeded: the difference its formula
      makes of the cover as it then is, the total of its schedules, or at least that. */
  lemma BalancedIsRight(rules: seq<LineRule>, cover: Cover, a: Cover, b: Cover, balanced: Cover, r: LineRule)
    requires OneRuleEach(rules) && BalancesTo(rules, cover, a, b, balanced)
    requires r in rules && !r.source.Input? && r.field in balanced
    ensures balanced[r.field].Amount?
    ensures r.source.Formula? ==>
              balanced[r.field].cents == Difference(rules, balanced, r.column, r.source.terms)
    ensures r.source.Schedules? && r.source.relation == Equal ==> balanced[r.field].cents == r.source.total
    ensures r.source.Schedules? && r.source.relation == AtLeast ==> balanced[r.field].cents >= r.source.total
  {
    BalanceSettlesBoth(rules, cover, a, b, balanced);
    SettledMeansAllHold(rules, rules, balanced, r.column);
    assert Checked(balanced, r.column, r) && !IsPending(rules, balanced, r.column, r);
    if r.source.Formula? {
      SumIsDifference(rules, balanced, r.column, r.source.terms);
    }
  }

  /** Filling keeps a line of schedules that had its total, or more where more is allowed, and
      otherwise writes the total. */
  lemma SchedulesEndRight(rules: seq<LineRule>, cover: Cover, column: Column, rank: Rank, filled: Cover, r: LineRule)
    requires OneRuleEach(rules) && Layered(rules, column, rank) && FillsTo(rules, cover, column, filled)
    requires r in rules && r.column == column && r.source.Schedules? && r.field in cover
    ensures r.field in filled
    ensures filled[r.field].Amount?
    ensures var total, kept := r.source.total, cover[r.field].Amount?
                && (cover[r.field].cents == r.source.total
                    || (r.source.relation == AtLeast && cover[r.field].cents > r.source.total));
            filled[r.field].cents == if kept then cover[r.field].cents else total
  {
    var n: nat :| n < 32 && SettledAfter(rules, cover, column, n) && filled == Passes(rules, cover, column, n);
    SchedulesSettleAtOnce(rules, cover, column, rank, n, r);
    SettledMeansAllHold(rules, rules, filled, column);
    assert !IsPending(rules, filled, column, r);
  }

  lemma {:induction false} FindsTheRule(rules: seq<LineRule>, r: LineRule)
    requires OneRuleEach(rules) && r in rules
    ensures FindRule(rules, r.column, r.line) == Some(r)
    decreases |rules|
  {
    if rules[0] != r {
      var i :| 0 <= i < |rules| && rules[i] == r;
      assert rules[0].column != rules[i].column || rules[0].line != rules[i].line;
      assert forall j, k | 0 <= j < k < |rules[1..]| ::
        rules[1..][j].field != rules[1..][k].field
        && (rules[1..][j].column != rules[1..][k].column || rules[1..][j].line != rules[1..][k].line);
      FindsTheRule(rules[1..], r);
    }
  }

  /** Copying gives line 6(a) of Column B the cell of line 6(b) of Column A, and every other input the
      cell of its own line. */
  lemma SameLineIsCopied(rules: seq<LineRule>, cover: Cover, r: LineRule, a: LineRule)
    requires OneRuleEach(rules) && r in rules && r.column == ColumnB && r.source.Input?
    requires a in rules && a.column == ColumnA && a.field in cover
    requires if r.line == ['6', '(', 'a', ')'] then a.line == ['6', '(', 'b', ')'] else a.line == r.line
    ensures var copied := PlaceAll(cover, Copies(rules, rules, cover));
            r.field in copied && copied[r.field] == cover[a.field]
  {
    FindsTheRule(rules, a);
    InputsAreCopied(rules, cover, r);
  }

  /** `balance` succeeds on exactly one cover or none, and when is decided column by column. */
  lemma BalanceInStages(rules: seq<LineRule>, cover: Cover, a: Cover)
    requires FillsTo(rules, cover, ColumnA, a)
    ensures (exists a', b, balanced :: BalancesTo(rules, cover, a', b, balanced)) <==>
            && AllKnown(a, Copies(rules, rules, a))
            && Converges(rules, PlaceAll(a, Copies(rules, rules, a)), ColumnB)
  {
    OneFill(rules, cover, ColumnA, a);
    var copied := PlaceAll(a, Copies(rules, rules, a));
    if AllKnown(a, Copies(rules, rules, a)) && Converges(rules, copied, ColumnB) {
      var n: nat :| n < 32 && SettledAfter(rules, copied, ColumnB, n);
      var b := Passes(rules, copied, ColumnB, n);
      assert BalancesTo(rules, cover, a, b, Zeroed(b));
    }
  }

  /** The cover Column B is filled from: Column A at its final values, then copied. */
  function CopiedFrom(rules: seq<LineRule>, cover: Cover, rankA: Rank): Cover
    requires Layered(rules, ColumnA, rankA)
  {
    var a := FilledBy(rules, cover, ColumnA, rankA);
    PlaceAll(a, Copies(rules, rules, a))
  }

  /** With ranks up to 30 in both columns, `balance` succeeds if and only if the final values of
      Column A fit an amount, every input copied is in the layout, and so fit the final values of
      Column B, worked out from Column A's. */
  lemma BalanceExactly(rules: seq<LineRule>, cover: Cover, rankA: Rank, rankB: Rank)
    requires OneRuleEach(rules) && Layered(rules, ColumnA, rankA) && Layered(rules, ColumnB, rankB)
    requires forall r | r in rules && r.column == ColumnA :: rankA(r.line) <= 30
    requires forall r | r in rules && r.column == ColumnB :: rankB(r.line) <= 30
    ensures (exists a, b, balanced :: BalancesTo(rules, cover, a, b, balanced)) <==>
            && FinalsFit(rules, cover, ColumnA, rankA)
            && (forall r | r in rules && IsCopied(rules, r) :: r.field in cover)
            && FinalsFit(rules, CopiedFrom(rules, cover, rankA), ColumnB, rankB)
  {
    var a := FilledBy(rules, cover, ColumnA, rankA);
    FillsToFinals(rules, cover, ColumnA, rankA, a);
    if FinalsFit(rules, cover, ColumnA, rankA) {
      BalanceInStages(rules, cover, a);
      CopyFailsExactly(rules, a);
      ConvergesExactly(rules, CopiedFrom(rules, cover, rankA), ColumnB, rankB);
    } else {
      forall a'
        ensures !FillsTo(rules, cover, ColumnA, a')
      {
        FillsToFinals(rules, cover, ColumnA, rankA, a');
      }
    }
  }

  // ----- Thirty-two passes, and not one fewer -----

  function Name(i: nat): string {
    seq(i, _ => 'x')
  }

  /** Line 0 is a schedule sum of one cent; every other line repeats the one before it. */
  function ChainRule(i: nat): LineRule {
    LineRule(Name(i), Name(i), ColumnA,
             if i == 0 then Schedules(Equal, 1) else Formula([Term(Name(i - 1), false)]))
  }

  function Chain(n: nat): (rules: seq<LineRule>)
    ensures |rules| == n
  {
    seq(n, i requires 0 <= i < n => ChainRule(i))
  }

  function BlankChain(n: nat): Cover {
    if n == 0 then map[] else BlankChain(n - 1)[Name(n - 1) := Blank]
  }

  lemma {:induction false} BlankChainIsBlank(n: nat)
    ensures ChainState(n, 0, BlankChain(n))
  {
    if n > 0 {
      BlankChainIsBlank(n - 1);
    }
  }

  lemma NamesDiffer(i: nat, j: nat)
    ensures Name(i) == Name(j) ==> i == j
  {
    assert |Name(i)| == i && |Name(j)| == j;
  }

  lemma ChainIsOneRuleEach(n: nat)
    ensures OneRuleEach(Chain(n))
  {
    forall i, j | 0 <= i < j < n
      ensures Chain(n)[i].field != Chain(n)[j].field && Chain(n)[i].line != Chain(n)[j].line
    {
      NamesDiffer(i, j);
    }
  }

  lemma {:induction false} FindsItself(rules: seq<LineRule>, j: nat)
    requires OneRuleEach(rules) && j < |rules|
    ensures FindRule(rules, rules[j].column, rules[j].line) == Some(rules[j])
  {
    if j > 0 {
      FindsItself(rules[1..], j - 1);
    }
  }

  /** The cell of line `i` after `k` passes. */
  function ChainCell(i: nat, k: nat): Cell {
    if k == 0 then Blank else Amount(if i < k then 1 else 0)
  }

  ghost predicate ChainState(n: nat, k: nat, cover: Cover) {
    forall i: nat | i < n :: Name(i) in cover && cover[Name(i)] == ChainCell(i, k)
  }

  lemma ChainExpects(n: nat, i: nat, k: nat, cover: Cover)
    requires i < n && ChainState(n, k, cover)
    ensures Chain(n)[i] in Chain(n) && Chain(n)[i].field == Name(i) && Name(i) in cover
    ensures Expected(Chain(n), cover, Chain(n)[i]) == if i < k || i == 0 then 1 else if i == k then Value(ChainCell(i - 1, k)) else 0
  {
    if i > 0 {
      ChainIsOneRuleEach(n);
      FindsItself(Chain(n), i - 1);
      var terms := [Term(Name(i - 1), false)];
      assert terms[..0] == [];
      assert Sum(Chain(n), cover, ColumnA, terms)
          == Sum(Chain(n), cover, ColumnA, []) + TermValue(Chain(n), cover, ColumnA, Name(i - 1));
    }
  }

  lemma {:induction false} ChainAfter(n: nat, k: nat)
    ensures ChainState(n, k, Passes(Chain(n), BlankChain(n), ColumnA, k))
  {
    if k == 0 {
      BlankChainIsBlank(n);
    } else {
      ChainAfter(n, k - 1);
      ChainIsOneRuleEach(n);
      var before := Passes(Chain(n), BlankChain(n), ColumnA, k - 1);
      forall i: nat | i < n
        ensures Name(i) in Pass(Chain(n), before, ColumnA)
        ensures Pass(Chain(n), before, ColumnA)[Name(i)] == ChainCell(i, k)
      {
        ChainExpects(n, i, k - 1, before);
        PassAt(Chain(n), before, ColumnA, Chain(n)[i]);
      }
    }
  }

  lemma ChainSettled(n: nat, k: nat)
    ensures SettledAfter(Chain(n), BlankChain(n), ColumnA, k) <==> n <= k
  {
    var now := Passes(Chain(n), BlankChain(n), ColumnA, k);
    ChainAfter(n, k);
    SettledMeansAllHold(Chain(n), Chain(n), now, ColumnA);
    if n <= k {
      forall r | r in Chain(n)
        ensures !IsPending(Chain(n), now, ColumnA, r)
      {
        var i :| 0 <= i < n && Chain(n)[i] == r;
        ChainExpects(n, i, k, now);
      }
    } else {
      ChainExpects(n, k, k, now);
      assert IsPending(Chain(n), now, ColumnA, Chain(n)[k]);
    }
  }

  /** A chain of `n` lines converges if and only if it has at most 31: the 32nd pass only checks. */
  lemma ChainConvergesExactly(n: nat)
    ensures Converges(Chain(n), BlankChain(n), ColumnA) <==> n <= 31
  {
    forall k: nat
      ensures SettledAfter(Chain(n), BlankChain(n), ColumnA, k) <==> n <= k
    {
      ChainSettled(n, k);
    }
    if n <= 31 {
      assert n < 32 && SettledAfter(Chain(n), BlankChain(n), ColumnA, n);
    }
  }
}
