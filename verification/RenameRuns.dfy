/**
 What runs of the rename engine keep: only names change, no bucket comes to position two rows of a
 name, and when a second run finds nothing to do.
 */
module RenameRuns {
  import opened Wrappers
  import opened Text
  import opened Rename

  // ----- One renamed line -----

  lemma SnakeIsBare(name: string)
    requires IsSnakeIdent(name)
    ensures ',' !in name && TrimEnd(TrimStart(name, IsSpace), IsSpace) == name
  {
    assert name[0] in name && name[|name| - 1] in name;
  }

  lemma RenamedLineIs(line: string, to: string)
    requires RestOf(line).Some? && IsSnakeIdent(to)
    ensures NameIn(RenamedLine(line, to)) == to && RestOf(RenamedLine(line, to)) == RestOf(line)
  {
    SnakeIsBare(to);
    SplitOnceAt(to, ',', RestOf(line).value);
  }

  /** Renaming changes the names of the rows renamed, and no row's text after the first comma. */
  lemma RenamedRow(lines: Lines, from: string, to: string, i: nat)
    requires CanRename(lines, from) && IsSnakeIdent(to) && i < |lines|
    ensures var line := RenamedLines(lines, from, to)[i];
            if i >= 1 && NameIn(lines[i]) == from then NameIn(line) == to && RestOf(line) == RestOf(lines[i]) else line == lines[i]
  {
    if i >= 1 && NameIn(lines[i]) == from {
      RenamedLineIs(lines[i], to);
    }
  }

  // ----- Only names change -----

  /** The line is as it was, or only its text before the first comma is not. */
  predicate OnlyRenamed(was: string, now: string) {
    now == was || (RestOf(now) == RestOf(was) && RestOf(was).Some?)
  }

  ghost predicate SameButNames(was: map<string, Lines>, now: map<string, Lines>) {
    && now.Keys == was.Keys
    && forall t | t in was ::
         && |now[t]| == |was[t]| && (was[t] != [] ==> now[t][0] == was[t][0])
         && forall i | 0 <= i < |was[t]| :: OnlyRenamed(was[t][i], now[t][i])
  }

  lemma {:induction false} RulesRenameOnly(job: Job, tables: map<string, Lines>, n: nat)
    requires n <= |job.rules| && AfterRules(job, tables, n).Some?
    ensures SameButNames(tables, AfterRules(job, tables, n).value.tables)
  {
    if n > 0 {
      RulesRenameOnly(job, tables, n - 1);
      var p := AfterRules(job, tables, n - 1).value;
      var rule := job.rules[n - 1];
      if Judge(job, p.tables, rule).Renames? {
        var lines := p.tables[rule.table];
        forall i | 0 <= i < |lines|
          ensures OnlyRenamed(tables[rule.table][i], RenamedLines(lines, rule.from, rule.to)[i])
        {
          RenamedRow(lines, rule.from, rule.to, i);
        }
      }
    }
  }

  /** Whatever a run does, every file keeps its header, its lines in order, and all of each line
      from the first comma on. */
  lemma RunChangesNamesOnly(job: Job, files: map<string, Lines>, dryRun: bool)
    ensures SameButNames(files, FilesAfter(job, files, dryRun))
  {
    if AfterAll(job, files).Some? {
      RulesRenameOnly(job, files, |job.rules|);
    }
  }

  // ----- No bucket positions two rows of a name -----

  predicate IsUnclashed(positions: Positions, lines: Lines) {
    forall i, j | 1 <= i < j < |lines| && NameIn(lines[i]) == NameIn(lines[j]) ::
      PositionsOf(positions, lines[i]) * PositionsOf(positions, lines[j]) == {}
  }

  ghost predicate AllUnclashed(positions: Positions, tables: map<string, Lines>) {
    forall t | t in tables :: IsUnclashed(positions, tables[t])
  }

  lemma RenamingKeepsUnclashed(positions: Positions, lines: Lines, from: string, to: string)
    requires IsUnclashed(positions, lines) && CanRename(lines, from) && IsSnakeIdent(to)
    requires !HasName(lines, to) || !Clashes(positions, lines, from, to)
    ensures IsUnclashed(positions, RenamedLines(lines, from, to))
  {
    var now := RenamedLines(lines, from, to);
    forall i, j | 1 <= i < j < |now| && NameIn(now[i]) == NameIn(now[j])
      ensures PositionsOf(positions, now[i]) * PositionsOf(positions, now[j]) == {}
    {
      RenamedRow(lines, from, to, i);
      RenamedRow(lines, from, to, j);
      var a, b := NameIn(lines[i]), NameIn(lines[j]);
      if a != b {
        assert (a == from && b == to) || (a == to && b == from);
        assert HasName(lines, to);
        assert PositionsOf(positions, lines[i]) * PositionsOf(positions, lines[j])
            == PositionsOf(positions, lines[j]) * PositionsOf(positions, lines[i]);
      }
    }
  }

  lemma {:induction false} RulesKeepUnclashed(job: Job, tables: map<string, Lines>, n: nat)
    requires n <= |job.rules| && AfterRules(job, tables, n).Some? && AllUnclashed(job.positions, tables)
    ensures AllUnclashed(job.positions, AfterRules(job, tables, n).value.tables)
  {
    if n > 0 {
      RulesKeepUnclashed(job, tables, n - 1);
      var p := AfterRules(job, tables, n - 1).value;
      var rule := job.rules[n - 1];
      if Judge(job, p.tables, rule).Renames? {
        RenamingKeepsUnclashed(job.positions, p.tables[rule.table], rule.from, rule.to);
      }
    }
  }

  /** If no bucket positions two rows of one name before a run, none does after it. */
  lemma RunKeepsUnclashed(job: Job, files: map<string, Lines>, dryRun: bool)
    requires AllUnclashed(job.positions, files)
    ensures AllUnclashed(job.positions, FilesAfter(job, files, dryRun))
  {
    if AfterAll(job, files).Some? {
      RulesKeepUnclashed(job, files, |job.rules|);
    }
  }

  // ----- Running twice -----

  lemma {:induction false} EveryRuleCounts(job: Job, tables: map<string, Lines>, n: nat)
    requires n <= |job.rules| && AfterRules(job, tables, n).Some?
    ensures var p := AfterRules(job, tables, n).value; p.refused + p.applied + p.already == n
  {
    if n > 0 {
      EveryRuleCounts(job, tables, n - 1);
    }
  }

  lemma NewNames(lines: Lines, from: string, to: string)
    requires CanRename(lines, from) && IsSnakeIdent(to)
    ensures forall i | 1 <= i < |lines| ::
              NameIn(RenamedLines(lines, from, to)[i]) == if NameIn(lines[i]) == from then to else NameIn(lines[i])
  {
    forall i | 1 <= i < |lines|
      ensures NameIn(RenamedLines(lines, from, to)[i]) == if NameIn(lines[i]) == from then to else NameIn(lines[i])
    {
      RenamedRow(lines, from, to, i);
    }
  }

  lemma NamesOfLines(lines: Lines, now: Lines, from: string, to: string, name: string)
    requires |now| == |lines| && HasName(lines, from)
    requires forall i | 1 <= i < |lines| :: NameIn(now[i]) == if NameIn(lines[i]) == from then to else NameIn(lines[i])
    ensures HasName(now, name) <==> name == to || (name != from && HasName(lines, name))
  {
    var k :| 1 <= k < |lines| && NameIn(lines[k]) == from;
    assert NameIn(now[k]) == to;
    if name != from && HasName(lines, name) {
      var i :| 1 <= i < |lines| && NameIn(lines[i]) == name;
      assert NameIn(now[i]) == name;
    }
  }

  lemma NamesAfter(lines: Lines, from: string, to: string, name: string)
    requires CanRename(lines, from) && IsSnakeIdent(to) && HasName(lines, from)
    ensures HasName(RenamedLines(lines, from, to), name) <==> name == to || (name != from && HasName(lines, name))
  {
    NewNames(lines, from, to);
    NamesOfLines(lines, RenamedLines(lines, from, to), from, to, name);
  }

  /** No rule's new name is the old name of a rule for the same table. */
  predicate NoChain(rules: seq<Rule>) {
    forall i, j | 0 <= i < |rules| && 0 <= j < |rules| && rules[i].table == rules[j].table :: rules[i].to != rules[j].from
  }

  /** The rule has been applied: its old name is gone and its new name is there. */
  predicate IsDone(tables: map<string, Lines>, rule: Rule) {
    && rule.table in tables && IsSnakeIdent(rule.to)
    && !HasName(tables[rule.table], rule.from) && HasName(tables[rule.table], rule.to)
  }

  lemma DoneStaysDone(job: Job, tables: map<string, Lines>, rule: Rule, done: Rule)
    requires IsDone(tables, done) && Judge(job, tables, rule).Renames?
    requires rule.table == done.table ==> rule.to != done.from && done.to != rule.from
    ensures IsDone(tables[rule.table := RenamedLines(tables[rule.table], rule.from, rule.to)], done)
  {
    if rule.table == done.table {
      NamesAfter(tables[rule.table], rule.from, rule.to, done.from);
      NamesAfter(tables[rule.table], rule.from, rule.to, done.to);
    }
  }

  lemma RuleIsDone(job: Job, p: Progress, rule: Rule)
    requires AfterRule(job, p, rule).Some? && AfterRule(job, p, rule).value.refused == 0 && rule.from != rule.to
    ensures IsDone(AfterRule(job, p, rule).value.tables, rule)
  {
    if Judge(job, p.tables, rule).Renames? {
      NamesAfter(p.tables[rule.table], rule.from, rule.to, rule.from);
      NamesAfter(p.tables[rule.table], rule.from, rule.to, rule.to);
    }
  }

  lemma OthersStayDone(job: Job, p: Progress, rule: Rule, done: Rule)
    requires AfterRule(job, p, rule).Some? && IsDone(p.tables, done)
    requires rule.table == done.table ==> rule.to != done.from && done.to != rule.from
    ensures IsDone(AfterRule(job, p, rule).value.tables, done)
  {
    if Judge(job, p.tables, rule).Renames? {
      DoneStaysDone(job, p.tables, rule, done);
    }
  }

  lemma {:induction false} RulesAreDone(job: Job, tables: map<string, Lines>, n: nat)
    requires n <= |job.rules| && NoChain(job.rules)
    requires AfterRules(job, tables, n).Some? && AfterRules(job, tables, n).value.refused == 0
    ensures forall i | 0 <= i < n :: IsDone(AfterRules(job, tables, n).value.tables, job.rules[i])
  {
    if n > 0 {
      var p := AfterRules(job, tables, n - 1).value;
      RulesAreDone(job, tables, n - 1);
      RuleIsDone(job, p, job.rules[n - 1]);
      forall i | 0 <= i < n - 1
        ensures IsDone(AfterRules(job, tables, n).value.tables, job.rules[i])
      {
        OthersStayDone(job, p, job.rules[n - 1], job.rules[i]);
      }
    }
  }

  /** A run that finds every rule applied already, and leaves every table as it is. */
  predicate FindsNothingToDo(job: Job, tables: map<string, Lines>) {
    AfterAll(job, tables) == Some(Progress(tables, 0, 0, |job.rules|))
  }

  lemma {:induction false} DoneIsAlready(job: Job, tables: map<string, Lines>, n: nat)
    requires n <= |job.rules| && forall i | 0 <= i < n :: IsDone(tables, job.rules[i])
    ensures AfterRules(job, tables, n) == Some(Progress(tables, 0, 0, n))
  {
    if n > 0 {
      DoneIsAlready(job, tables, n - 1);
    }
  }

  lemma {:induction false} AlreadyIsDone(job: Job, tables: map<string, Lines>, n: nat)
    requires n <= |job.rules| && AfterRules(job, tables, n).Some? && AfterRules(job, tables, n).value.already == n
    ensures AfterRules(job, tables, n) == Some(Progress(tables, 0, 0, n))
    ensures forall i | 0 <= i < n :: IsDone(tables, job.rules[i])
  {
    if n > 0 {
      LastWasAlready(job, tables, n);
      AlreadyIsDone(job, tables, n - 1);
    }
  }

  lemma LastWasAlready(job: Job, tables: map<string, Lines>, n: nat)
    requires 0 < n <= |job.rules| && AfterRules(job, tables, n).Some? && AfterRules(job, tables, n).value.already == n
    ensures AfterRules(job, tables, n - 1).Some? && AfterRules(job, tables, n - 1).value.already == n - 1
    ensures var p := AfterRules(job, tables, n - 1).value;
            AfterRules(job, tables, n).value == p.(already := n) && IsDone(p.tables, job.rules[n - 1])
  {
    EveryRuleCounts(job, tables, n - 1);
    AlreadyRule(job, AfterRules(job, tables, n - 1).value, job.rules[n - 1]);
  }

  lemma AlreadyRule(job: Job, p: Progress, rule: Rule)
    requires AfterRule(job, p, rule).Some?
    ensures var now := AfterRule(job, p, rule).value;
            && now.already <= p.already + 1
            && (now.already == p.already + 1 ==> now == p.(already := p.already + 1) && IsDone(p.tables, rule))
  {
  }

  /** After a run that succeeds, a second run finds nothing to do if and only if no rule's new name
      is the old name of a rule for the same table. */
  lemma SecondRunExactly(job: Job, tables: map<string, Lines>)
    requires AfterAll(job, tables).Some? && AfterAll(job, tables).value.refused == 0
    ensures FindsNothingToDo(job, AfterAll(job, tables).value.tables) <==> NoChain(job.rules)
  {
    var now := AfterAll(job, tables).value.tables;
    if NoChain(job.rules) {
      RulesAreDone(job, tables, |job.rules|);
      DoneIsAlready(job, now, |job.rules|);
    }
    if FindsNothingToDo(job, now) {
      AlreadyIsDone(job, now, |job.rules|);
    }
  }

  // ----- What a run does not accept -----

  /** Some row of the table, after the header, has the name. */
  predicate IsRowName(tables: map<string, Lines>, table: string, name: string) {
    table in tables && exists i | 0 < i < |tables[table]| :: NameIn(tables[table][i]) == name
  }

  /** What a rule asks is acceptable: its table is there, its new name is a name, and a row has the old
      name, or else the new one; both only as a listed merge whose rows share no bucket. */
  ghost predicate IsAcceptable(job: Job, tables: map<string, Lines>, rule: Rule) {
    && rule.table in tables && IsSnakeIdent(rule.to)
    && (IsRowName(tables, rule.table, rule.from) || IsRowName(tables, rule.table, rule.to))
    && (IsRowName(tables, rule.table, rule.from) && IsRowName(tables, rule.table, rule.to) ==>
          && (rule.table, rule.from) in job.merges
          && forall i, j | 0 < i < |tables[rule.table]| && 0 < j < |tables[rule.table]|
                           && NameIn(tables[rule.table][i]) == rule.from && NameIn(tables[rule.table][j]) == rule.to ::
               PositionsOf(job.positions, tables[rule.table][i]) !! PositionsOf(job.positions, tables[rule.table][j]))
  }

  lemma RefusedExactly(job: Job, tables: map<string, Lines>, rule: Rule)
    ensures Judge(job, tables, rule).Refused? <==> !IsAcceptable(job, tables, rule)
  {
    if rule.table in tables {
      var lines := tables[rule.table];
      assert HasName(lines, rule.from) <==> IsRowName(tables, rule.table, rule.from);
      assert HasName(lines, rule.to) <==> IsRowName(tables, rule.table, rule.to);
      SharedIsClash(job.positions, lines, rule.from, rule.to);
    }
  }

  lemma SharedIsClash(positions: Positions, lines: Lines, a: string, b: string)
    ensures !Clashes(positions, lines, a, b) <==>
            forall i, j | 0 < i < |lines| && 0 < j < |lines| && NameIn(lines[i]) == a && NameIn(lines[j]) == b ::
              PositionsOf(positions, lines[i]) !! PositionsOf(positions, lines[j])
  {
    forall i, j | 0 < i < |lines| && 0 < j < |lines|
      ensures PositionsOf(positions, lines[i]) !! PositionsOf(positions, lines[j])
              <==> PositionsOf(positions, lines[i]) * PositionsOf(positions, lines[j]) == {}
    {
      var here, there := PositionsOf(positions, lines[i]), PositionsOf(positions, lines[j]);
      if here * there == {} {
        assert forall x | x in here && x in there :: x in here * there;
      }
    }
  }

  lemma RefusedIsCounted(job: Job, p: Progress, rule: Rule)
    requires AfterRule(job, p, rule).Some?
    ensures AfterRule(job, p, rule).value.refused == p.refused + if IsAcceptable(job, p.tables, rule) then 0 else 1
  {
    RefusedExactly(job, p.tables, rule);
  }

  /** Rule `i` of a run was acceptable when its turn came. */
  ghost predicate WasAcceptable(job: Job, tables: map<string, Lines>, i: nat)
    requires i < |job.rules|
  {
    var p := AfterRules(job, tables, i);
    p.Some? && IsAcceptable(job, p.value.tables, job.rules[i])
  }

  ghost predicate AllAcceptable(job: Job, tables: map<string, Lines>, n: nat)
    requires n <= |job.rules|
  {
    forall i: nat | i < n :: WasAcceptable(job, tables, i)
  }

  lemma RefusedGrows(job: Job, tables: map<string, Lines>, n: nat)
    requires n < |job.rules| && AfterRules(job, tables, n + 1).Some?
    ensures AfterRules(job, tables, n).Some?
    ensures AfterRules(job, tables, n + 1).value.refused
            == AfterRules(job, tables, n).value.refused + if WasAcceptable(job, tables, n) then 0 else 1
  {
    RefusedIsCounted(job, AfterRules(job, tables, n).value, job.rules[n]);
  }

  lemma OneMoreAcceptable(job: Job, tables: map<string, Lines>, n: nat)
    requires n < |job.rules|
    ensures AllAcceptable(job, tables, n + 1) <==> AllAcceptable(job, tables, n) && WasAcceptable(job, tables, n)
  {
  }

  lemma {:induction false} RefusedNone(job: Job, tables: map<string, Lines>, n: nat)
    requires n <= |job.rules| && AfterRules(job, tables, n).Some?
    ensures AfterRules(job, tables, n).value.refused == 0 <==> AllAcceptable(job, tables, n)
  {
    if n > 0 {
      RefusedGrows(job, tables, n - 1);
      RefusedNone(job, tables, n - 1);
      OneMoreAcceptable(job, tables, n - 1);
    }
  }

  /** Files are written exactly when the run is not a dry one, no row without a comma stopped it, and
      every rule was acceptable in its turn; then they are what the rules made of them. */
  lemma WritesExactly(job: Job, files: map<string, Lines>, dryRun: bool)
    ensures var after := AfterAll(job, files);
            FilesAfter(job, files, dryRun)
            == if !dryRun && after.Some? && AllAcceptable(job, files, |job.rules|) then after.value.tables else files
  {
    if AfterAll(job, files).Some? {
      RefusedNone(job, files, |job.rules|);
    }
  }

  /** What is stripped from a name: the white space of ASCII, its four separators included. */
  lemma SpacesAre(c: char)
    ensures IsSpace(c) <==> c as int in {9, 10, 11, 12, 13, 28, 29, 30, 31, 32}
  {
  }
}
