/**
 Why `fill_column` converges: rules that read only lines of lower rank settle rank by rank, one
 pass for each rank, and the column converges in time exactly when the values it settles on can
 be written down. The bound of thirty-two passes is exact (`ChainConvergesExactly`).
 */
module FillConvergence {
  import opened Wrappers
  import opened CoverFill

  /** A rule table gives each line of a column, and each field, one rule. */
  ghost predicate OneRuleEach(rules: seq<LineRule>) {
    && (forall i, j | 0 <= i < j < |rules| :: rules[i].field != rules[j].field)
    && (forall i, j | 0 <= i < j < |rules| ::
          rules[i].column != rules[j].column || rules[i].line != rules[j].line)
  }

  type Rank = string -> nat

  /** Every formula of the column reads lines of lower rank, inputs, or lines without a rule. */
  ghost predicate Layered(rules: seq<LineRule>, column: Column, rank: Rank) {
    forall r | r in rules && r.column == column && r.source.Formula? :: TermsLower(rules, column, rank, r.line, r.source.terms)
  }

  ghost predicate TermsLower(rules: seq<LineRule>, column: Column, rank: Rank, line: string, terms: seq<Term>) {
    forall t | t in terms ::
      var r := FindRule(rules, column, t.line);
      r.None? || r.value.source.Input? || rank(t.line) < rank(line)
  }

  // ----- What one pass does to one field -----

  lemma {:induction false} SetAllElsewhere(cover: Cover, values: seq<(string, int)>, field: string)
    requires forall v | v in values :: v.0 != field
    ensures field in SetAll(cover, values) <==> field in cover
    ensures field in cover ==> SetAll(cover, values)[field] == cover[field]
    decreases values
  {
    if values != [] {
      SetAllElsewhere(cover[values[0].0 := Written(values[0].1)], values[1..], field);
    }
  }

  lemma {:induction false} PendingFields(rules: seq<LineRule>, part: seq<LineRule>, cover: Cover, column: Column,
                                         v: (string, int))
    requires v in Pending(rules, part, cover, column)
    ensures exists r | r in part :: IsPending(rules, cover, column, r) && v == (r.field, Expected(rules, cover, r))
    decreases part
  {
    if v in Pending(rules, part[1..], cover, column) {
      PendingFields(rules, part[1..], cover, column, v);
      var r :| r in part[1..] && IsPending(rules, cover, column, r) && v == (r.field, Expected(rules, cover, r));
      assert r in part;
    } else {
      assert part[0] in part;
    }
  }

  lemma {:induction false} SetPending(rules: seq<LineRule>, part: seq<LineRule>, cover: Cover, column: Column,
                                      base: Cover, r: LineRule)
    requires forall i, j | 0 <= i < j < |part| :: part[i].field != part[j].field
    requires r in part && r.field in base
    ensures r.field in SetAll(base, Pending(rules, part, cover, column))
    ensures SetAll(base, Pending(rules, part, cover, column))[r.field] ==
            if IsPending(rules, cover, column, r) then Written(Expected(rules, cover, r)) else base[r.field]
    decreases part
  {
    var first, rest := part[0], part[1..];
    var later := Pending(rules, rest, cover, column);
    var pending := Pending(rules, part, cover, column);
    var base' := if IsPending(rules, cover, column, first) then base[first.field := Written(Expected(rules, cover, first))]
                 else base;
    if IsPending(rules, cover, column, first) {
      assert pending[0] == (first.field, Expected(rules, cover, first));
      assert pending[1..] == later;
    } else {
      assert pending == later;
    }
    assert SetAll(base, pending) == SetAll(base', later);
    if r in rest {
      var i :| 0 <= i < |rest| && rest[i] == r;
      assert part[0].field != part[i + 1].field;
      SetPending(rules, rest, cover, column, base', r);
    } else {
      forall v | v in later
        ensures v.0 != r.field
      {
        PendingFields(rules, rest, cover, column, v);
        var s :| s in rest && v == (s.field, Expected(rules, cover, s));
        var i :| 0 <= i < |rest| && rest[i] == s;
        assert part[0].field != part[i + 1].field;
      }
      SetAllElsewhere(base', later, r.field);
    }
  }

  lemma PassAt(rules: seq<LineRule>, cover: Cover, column: Column, r: LineRule)
    requires OneRuleEach(rules) && r in rules && r.field in cover
    ensures r.field in Pass(rules, cover, column)
    ensures Pass(rules, cover, column)[r.field] ==
            if IsPending(rules, cover, column, r) then Written(Expected(rules, cover, r)) else cover[r.field]
  {
    SetPending(rules, rules, cover, column, cover, r);
  }

  lemma {:induction false} SetAllKeepsFields(cover: Cover, values: seq<(string, int)>)
    requires forall v | v in values :: v.0 in cover
    ensures SetAll(cover, values).Keys == cover.Keys
    decreases values
  {
    if values != [] {
      SetAllKeepsFields(cover[values[0].0 := Written(values[0].1)], values[1..]);
    }
  }

  /** A pass writes only fields the layout has, of rules of the column. */
  lemma PassElsewhere(rules: seq<LineRule>, cover: Cover, column: Column)
    ensures Pass(rules, cover, column).Keys == cover.Keys
    ensures forall f | f in cover && (forall r | r in rules && r.field == f :: r.column != column || r.source.Input?) ::
              Pass(rules, cover, column)[f] == cover[f]
  {
    var values := Pending(rules, rules, cover, column);
    forall v | v in values
      ensures v.0 in cover
    {
      PendingFields(rules, rules, cover, column, v);
    }
    SetAllKeepsFields(cover, values);
    forall f | f in cover && (forall r | r in rules && r.field == f :: r.column != column || r.source.Input?)
      ensures Pass(rules, cover, column)[f] == cover[f]
    {
      forall v | v in values
        ensures v.0 != f
      {
        PendingFields(rules, rules, cover, column, v);
      }
      SetAllElsewhere(cover, values, f);
    }
  }

  lemma {:induction false} PassesElsewhere(rules: seq<LineRule>, cover: Cover, column: Column, n: nat)
    ensures Passes(rules, cover, column, n).Keys == cover.Keys
    ensures forall f | f in cover && (forall r | r in rules && r.field == f :: r.column != column || r.source.Input?) ::
              Passes(rules, cover, column, n)[f] == cover[f]
  {
    if n > 0 {
      PassesElsewhere(rules, cover, column, n - 1);
      PassElsewhere(rules, Passes(rules, cover, column, n - 1), column);
    }
  }

  // ----- The values a column settles on -----

  /** The cell a checked line ends up with, worked out rank by rank from the initial cover. */
  function Final(rules: seq<LineRule>, cover: Cover, rank: Rank, rule: LineRule): Cell
    requires rule in rules && Layered(rules, rule.column, rank) && rule.field in cover
    decreases rank(rule.line), 1, 0
  {
    match rule.source
    case Input => cover[rule.field]
    case Schedules(relation, total) =>
      if cover[rule.field].Amount? && Satisfies(relation, cover[rule.field].cents, total) then cover[rule.field]
      else Written(total)
    case Formula(terms) => Written(FinalSum(rules, cover, rank, rule.column, rule.line, terms))
  }

  function FinalSum(rules: seq<LineRule>, cover: Cover, rank: Rank, column: Column, line: string, terms: seq<Term>): int
    requires Layered(rules, column, rank) && TermsLower(rules, column, rank, line, terms)
    decreases rank(line), 0, |terms|
  {
    if terms == [] then 0
    else
      var init, t := terms[..|terms| - 1], terms[|terms| - 1];
      assert t in terms;
      var found := FindRule(rules, column, t.line);
      var value := if found.None? || found.value.field !in cover then 0
                   else if found.value.source.Input? then Value(cover[found.value.field])
                   else Value(Final(rules, cover, rank, found.value));
      FinalSum(rules, cover, rank, column, line, init) + (if t.negative then -value else value)
  }

  /** The checked lines of rank below `k` have their final cells. */
  ghost predicate SettledBelow(rules: seq<LineRule>, cover: Cover, now: Cover, column: Column, rank: Rank, k: nat)
    requires Layered(rules, column, rank)
  {
    && now.Keys == cover.Keys
    && (forall r | r in rules && r.column == column && r.source.Input? && r.field in cover :: now[r.field] == cover[r.field])
    && (forall r | r in rules && Checked(cover, column, r) && rank(r.line) < k ::
          now[r.field] == Final(rules, cover, rank, r))
  }

  lemma {:induction false} SumIsFinal(rules: seq<LineRule>, cover: Cover, now: Cover, column: Column, rank: Rank,
                                      k: nat, line: string, terms: seq<Term>)
    requires Layered(rules, column, rank) && TermsLower(rules, column, rank, line, terms)
    requires SettledBelow(rules, cover, now, column, rank, k) && rank(line) <= k
    ensures Sum(rules, now, column, terms) == FinalSum(rules, cover, rank, column, line, terms)
    decreases |terms|
  {
    if terms != [] {
      var init, t := terms[..|terms| - 1], terms[|terms| - 1];
      assert t in terms;
      SumIsFinal(rules, cover, now, column, rank, k, line, init);
      var found := FindRule(rules, column, t.line);
      if found.Some? && found.value.field in cover && !found.value.source.Input? {
        assert Checked(cover, column, found.value);
      }
    }
  }

  /** A line whose expected value is final is brought to its final cell by the next pass. */
  lemma NextPassSettles(rules: seq<LineRule>, cover: Cover, now: Cover, column: Column, rank: Rank, k: nat, r: LineRule)
    requires OneRuleEach(rules) && Layered(rules, column, rank)
    requires SettledBelow(rules, cover, now, column, rank, k)
    requires r in rules && Checked(cover, column, r) && rank(r.line) <= k
    requires r.source.Schedules? ==> now[r.field] == cover[r.field] || now[r.field] == Final(rules, cover, rank, r)
    ensures r.field in Pass(rules, now, column) && Pass(rules, now, column)[r.field] == Final(rules, cover, rank, r)
  {
    PassAt(rules, now, column, r);
    if r.source.Formula? {
      SumIsFinal(rules, cover, now, column, rank, k, r.line, r.source.terms);
    }
  }

  lemma {:induction false} SchedulesSettleAtOnce(rules: seq<LineRule>, cover: Cover, column: Column, rank: Rank,
                                                 n: nat, r: LineRule)
    requires OneRuleEach(rules) && Layered(rules, column, rank)
    requires r in rules && Checked(cover, column, r) && r.source.Schedules?
    ensures r.field in Passes(rules, cover, column, n)
    ensures var cell := Passes(rules, cover, column, n)[r.field];
            if n == 0 then cell == cover[r.field] else cell == Final(rules, cover, rank, r)
  {
    if n > 0 {
      SchedulesSettleAtOnce(rules, cover, column, rank, n - 1, r);
      PassAt(rules, Passes(rules, cover, column, n - 1), column, r);
    }
  }

  lemma RankSettles(rules: seq<LineRule>, cover: Cover, column: Column, rank: Rank, k: nat, r: LineRule)
    requires OneRuleEach(rules) && Layered(rules, column, rank)
    requires SettledBelow(rules, cover, Passes(rules, cover, column, k), column, rank, k)
    requires r in rules && Checked(cover, column, r) && rank(r.line) <= k
    ensures r.field in Passes(rules, cover, column, k + 1)
    ensures Passes(rules, cover, column, k + 1)[r.field] == Final(rules, cover, rank, r)
  {
    if r.source.Schedules? {
      SchedulesSettleAtOnce(rules, cover, column, rank, k, r);
    }
    NextPassSettles(rules, cover, Passes(rules, cover, column, k), column, rank, k, r);
  }

  /** After `k` passes every line of rank below `k` has its final cell, and keeps it. */
  lemma {:induction false} RanksSettle(rules: seq<LineRule>, cover: Cover, column: Column, rank: Rank, k: nat)
    requires OneRuleEach(rules) && Layered(rules, column, rank)
    ensures SettledBelow(rules, cover, Passes(rules, cover, column, k), column, rank, k)
  {
    var now := Passes(rules, cover, column, k);
    InputsStay(rules, cover, column, k);
    if k > 0 {
      RanksSettle(rules, cover, column, rank, k - 1);
      forall r | r in rules && Checked(cover, column, r) && rank(r.line) < k
        ensures now[r.field] == Final(rules, cover, rank, r)
      {
        RankSettles(rules, cover, column, rank, k - 1, r);
      }
    }
  }

  lemma InputsStay(rules: seq<LineRule>, cover: Cover, column: Column, k: nat)
    requires OneRuleEach(rules)
    ensures Passes(rules, cover, column, k).Keys == cover.Keys
    ensures forall r | r in rules && r.column == column && r.source.Input? && r.field in cover ::
              Passes(rules, cover, column, k)[r.field] == cover[r.field]
  {
    PassesElsewhere(rules, cover, column, k);
    forall r | r in rules && r.column == column && r.source.Input? && r.field in cover
      ensures Passes(rules, cover, column, k)[r.field] == cover[r.field]
    {
      forall s | s in rules && s.field == r.field
        ensures s == r
      {
        var i :| 0 <= i < |rules| && rules[i] == r;
        var j :| 0 <= j < |rules| && rules[j] == s;
      }
    }
  }

  // ----- Convergence -----

  lemma {:induction false} SettledMeansAllHold(rules: seq<LineRule>, part: seq<LineRule>, cover: Cover, column: Column)
    ensures Pending(rules, part, cover, column) == [] <==>
            forall r | r in part :: !IsPending(rules, cover, column, r)
    decreases part
  {
    if part != [] {
      SettledMeansAllHold(rules, part[1..], cover, column);
      assert forall r :: r in part <==> r == part[0] || r in part[1..];
    }
  }

  /** Every value the column settles on can be written down as an amount. */
  ghost predicate FinalsFit(rules: seq<LineRule>, cover: Cover, column: Column, rank: Rank)
    requires Layered(rules, column, rank)
  {
    forall r | r in rules && Checked(cover, column, r) :: Final(rules, cover, rank, r).Amount?
  }

  /** Once every rank is final, the column is settled exactly when its final values fit. */
  lemma FinalAfter(rules: seq<LineRule>, cover: Cover, column: Column, rank: Rank, k: nat)
    requires OneRuleEach(rules) && Layered(rules, column, rank)
    requires forall r | r in rules && r.column == column :: rank(r.line) < k
    ensures SettledAfter(rules, cover, column, k) <==> FinalsFit(rules, cover, column, rank)
  {
    var now := Passes(rules, cover, column, k);
    RanksSettle(rules, cover, column, rank, k);
    SettledMeansAllHold(rules, rules, now, column);
    forall r | r in rules && Checked(cover, column, r)
      ensures IsPending(rules, now, column, r) <==> !Final(rules, cover, rank, r).Amount?
    {
      if r.source.Formula? {
        SumIsFinal(rules, cover, now, column, rank, k, r.line, r.source.terms);
      }
    }
    forall r | r in rules && IsPending(rules, now, column, r)
      ensures Checked(cover, column, r)
    {
    }
  }

  /** With ranks up to 30, `fill_column` succeeds within its thirty-two passes if and only if the
      values it settles on fit an amount. */
  lemma ConvergesExactly(rules: seq<LineRule>, cover: Cover, column: Column, rank: Rank)
    requires OneRuleEach(rules) && Layered(rules, column, rank)
    requires forall r | r in rules && r.column == column :: rank(r.line) <= 30
    ensures Converges(rules, cover, column) <==> FinalsFit(rules, cover, column, rank)
  {
    var last: nat := 31;
    FinalAfter(rules, cover, column, rank, last);
    if Converges(rules, cover, column) {
      var n: nat :| n < 32 && SettledAfter(rules, cover, column, n);
      SettledStays(rules, cover, column, n, last - n);
    }
  }

  // ----- The cover a column settles on -----

  /** The checked rule of a field, if the column has one. */
  function CheckedRule(rules: seq<LineRule>, column: Column, field: string): (r: Option<LineRule>)
    ensures r.Some? ==> r.value in rules && r.value.column == column && !r.value.source.Input? && r.value.field == field
    ensures r.None? ==> forall s | s in rules && s.field == field :: s.column != column || s.source.Input?
  {
    if rules == [] then None
    else if rules[0].column == column && !rules[0].source.Input? && rules[0].field == field then Some(rules[0])
    else CheckedRule(rules[1..], column, field)
  }

  /** The initial cover with every checked line at its final value. */
  function FilledBy(rules: seq<LineRule>, cover: Cover, column: Column, rank: Rank): (filled: Cover)
    requires Layered(rules, column, rank)
    ensures filled.Keys == cover.Keys
  {
    map f | f in cover :: FilledCell(rules, cover, column, rank, f)
  }

  function FilledCell(rules: seq<LineRule>, cover: Cover, column: Column, rank: Rank, field: string): Cell
    requires Layered(rules, column, rank) && field in cover
  {
    var r := CheckedRule(rules, column, field);
    if r.Some? then Final(rules, cover, rank, r.value) else cover[field]
  }

  lemma PassesFill(rules: seq<LineRule>, cover: Cover, column: Column, rank: Rank, k: nat)
    requires OneRuleEach(rules) && Layered(rules, column, rank)
    requires forall r | r in rules && r.column == column :: rank(r.line) < k
    ensures Passes(rules, cover, column, k) == FilledBy(rules, cover, column, rank)
  {
    var now := Passes(rules, cover, column, k);
    RanksSettle(rules, cover, column, rank, k);
    PassesElsewhere(rules, cover, column, k);
    forall f | f in cover
      ensures now[f] == FilledCell(rules, cover, column, rank, f)
    {
      var r := CheckedRule(rules, column, f);
      if r.Some? {
        assert Checked(cover, column, r.value);
      }
    }
  }

  /** What `fill_column` leaves, when it succeeds, is that cover; and it succeeds exactly when the
      final values fit. */
  lemma FillsToFinals(rules: seq<LineRule>, cover: Cover, column: Column, rank: Rank, filled: Cover)
    requires OneRuleEach(rules) && Layered(rules, column, rank)
    requires forall r | r in rules && r.column == column :: rank(r.line) <= 30
    ensures FillsTo(rules, cover, column, filled) <==>
            FinalsFit(rules, cover, column, rank) && filled == FilledBy(rules, cover, column, rank)
  {
    var last: nat := 31;
    PassesFill(rules, cover, column, rank, last);
    FinalAfter(rules, cover, column, rank, last);
    if FillsTo(rules, cover, column, filled) {
      var n: nat :| n < 32 && SettledAfter(rules, cover, column, n) && filled == Passes(rules, cover, column, n);
      SettledStays(rules, cover, column, n, last - n);
    }
  }
}
