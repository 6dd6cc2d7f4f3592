/**
 The rename engine: a list of rules, each giving a field of one table a new name, applied to all
 tables in memory and written back only if no rule was refused.
 */
module Rename {
  import opened Wrappers
  import opened Text

  datatype Rule = Rule(table: string, from: string, to: string)

  /** Lines of a table, the header first. */
  type Lines = seq<string>

  /** The buckets a row has a position in, from its text after the first comma. */
  type Positions = string -> set<string>

  /** What a run knows: the tables in memory and how the rules have fared. */
  datatype Progress = Progress(tables: map<string, Lines>, refused: nat, applied: nat, already: nat)

  /** The rules of a run; `merges` are the table and old name of renames onto an existing name. */
  datatype Job = Job(rules: seq<Rule>, merges: set<(string, string)>, positions: Positions)

  // ----- Rows -----

  predicate IsSpace(c: char) {
    var n := c as int;
    0x09 <= n <= 0x0d || 0x1c <= n <= 0x20
  }

  /** The name in a row's first cell. */
  function NameIn(line: string): string {
    var split := SplitOnce(line, ',');
    TrimEnd(TrimStart(if split.Some? then split.value.0 else line, IsSpace), IsSpace)
  }

  /** The text after the first comma, which is all that says where the row's field is. */
  function RestOf(line: string): Option<string> {
    var split := SplitOnce(line, ',');
    if split.Some? then Some(split.value.1) else None
  }

  function PositionsOf(positions: Positions, line: string): set<string> {
    if RestOf(line).Some? then positions(RestOf(line).value) else {}
  }

  predicate HasName(lines: Lines, name: string) {
    exists i | 1 <= i < |lines| :: NameIn(lines[i]) == name
  }

  /** The rows of a name, in order. */
  predicate AreRowsNamed(lines: Lines, name: string, rows: seq<nat>) {
    && (forall k | 0 <= k < |rows| :: 1 <= rows[k] < |lines| && NameIn(lines[rows[k]]) == name)
    && (forall i | 1 <= i < |lines| && NameIn(lines[i]) == name :: i in rows)
    && (forall j, k | 0 <= j < k < |rows| :: rows[j] < rows[k])
  }

  /** Some bucket positions a row of each name. */
  predicate Clashes(positions: Positions, lines: Lines, a: string, b: string) {
    exists i, j | 1 <= i < |lines| && 1 <= j < |lines| ::
      NameIn(lines[i]) == a && NameIn(lines[j]) == b && PositionsOf(positions, lines[i]) * PositionsOf(positions, lines[j]) != {}
  }

  function RenamedLine(line: string, to: string): string
    requires RestOf(line).Some?
  {
    to + "," + RestOf(line).value
  }

  /** A row of the name without a comma stops the whole run. */
  predicate CanRename(lines: Lines, from: string) {
    forall i | 1 <= i < |lines| :: NameIn(lines[i]) == from ==> RestOf(lines[i]).Some?
  }

  function RenamedLines(lines: Lines, from: string, to: string): (r: Lines)
    requires CanRename(lines, from)
    ensures |r| == |lines|
  {
    seq(|lines|, i requires 0 <= i < |lines| =>
      if i >= 1 && NameIn(lines[i]) == from then RenamedLine(lines[i], to) else lines[i])
  }

  // ----- One rule -----

  datatype Verdict = Refused | Already | Renames | Stops

  function Judge(job: Job, tables: map<string, Lines>, rule: Rule): Verdict {
    if rule.table !in tables || !IsSnakeIdent(rule.to) then Refused
    else
      var lines := tables[rule.table];
      if !HasName(lines, rule.from) then (if HasName(lines, rule.to) then Already else Refused)
      else if HasName(lines, rule.to)
              && ((rule.table, rule.from) !in job.merges || Clashes(job.positions, lines, rule.from, rule.to)) then Refused
      else if CanRename(lines, rule.from) then Renames
      else Stops
  }

  function AfterRule(job: Job, p: Progress, rule: Rule): Option<Progress> {
    match Judge(job, p.tables, rule)
    case Stops => None
    case Refused => Some(p.(refused := p.refused + 1))
    case Already => Some(p.(already := p.already + 1))
    case Renames =>
      var lines := RenamedLines(p.tables[rule.table], rule.from, rule.to);
      Some(p.(tables := p.tables[rule.table := lines], applied := p.applied + 1))
  }

  /** The first `n` rules, or nothing if one of them stopped the run. */
  function AfterRules(job: Job, tables: map<string, Lines>, n: nat): Option<Progress>
    requires n <= |job.rules|
  {
    if n == 0 then Some(Progress(tables, 0, 0, 0))
    else
      match AfterRules(job, tables, n - 1)
      case None => None
      case Some(p) => AfterRule(job, p, job.rules[n - 1])
  }

  function AfterAll(job: Job, tables: map<string, Lines>): Option<Progress> {
    AfterRules(job, tables, |job.rules|)
  }

  /** What a run leaves in the files. */
  function FilesAfter(job: Job, files: map<string, Lines>, dryRun: bool): map<string, Lines> {
    match AfterAll(job, files)
    case None => files
    case Some(p) => if p.refused > 0 || dryRun then files else p.tables
  }

  // ----- The engine -----

  class Engine {
    const job: Job
    var files: map<string, Lines>
    var tables: map<string, Lines>
    var refused: nat
    var applied: nat
    var already: nat

    constructor (job: Job, files: map<string, Lines>)
      ensures this.job == job && this.files == files
    {
      this.job, this.files, this.tables := job, files, files;
      refused, applied, already := 0, 0, 0;
    }

    function Now(): Progress
      reads this
    {
      Progress(tables, refused, applied, already)
    }

    method RowsNamed(lines: Lines, name: string) returns (rows: seq<nat>)
      ensures AreRowsNamed(lines, name, rows)
    {
      rows := [];
      var i := 1;
      while i < |lines|
        invariant 1 <= i && (|lines| > 0 ==> i <= |lines|)
        invariant forall k | 0 <= k < |rows| :: 1 <= rows[k] < i && rows[k] < |lines| && NameIn(lines[rows[k]]) == name
        invariant forall r | 1 <= r < i && r < |lines| && NameIn(lines[r]) == name :: r in rows
        invariant forall j, k | 0 <= j < k < |rows| :: rows[j] < rows[k]
      {
        if NameIn(lines[i]) == name {
          rows := rows + [i];
        }
        i := i + 1;
      }
    }

    method CheckMerge(lines: Lines, from: string, to: string, fromRows: seq<nat>, toRows: seq<nat>) returns (clash: bool)
      requires AreRowsNamed(lines, from, fromRows) && AreRowsNamed(lines, to, toRows)
      ensures clash == Clashes(job.positions, lines, from, to)
    {
      for a := 0 to |fromRows|
        invariant forall x, y | 0 <= x < a && 0 <= y < |toRows| ::
                    PositionsOf(job.positions, lines[fromRows[x]]) * PositionsOf(job.positions, lines[toRows[y]]) == {}
      {
        var here := PositionsOf(job.positions, lines[fromRows[a]]);
        for b := 0 to |toRows|
          invariant forall y | 0 <= y < b :: here * PositionsOf(job.positions, lines[toRows[y]]) == {}
        {
          if here * PositionsOf(job.positions, lines[toRows[b]]) != {} {
            return true;
          }
        }
      }
      return false;
    }

    /** Returns false when a row has no comma to rename before. */
    method RenameRows(name: string, from: string, to: string, rows: seq<nat>) returns (ok: bool)
      requires name in tables && AreRowsNamed(tables[name], from, rows)
      modifies this`tables
      ensures ok == CanRename(old(tables)[name], from)
      ensures ok ==> tables == old(tables)[name := RenamedLines(old(tables)[name], from, to)]
    {
      ghost var lines := tables[name];
      for k := 0 to |rows|
        invariant tables.Keys == old(tables).Keys && |tables[name]| == |lines|
        invariant forall other | other in tables && other != name :: tables[other] == old(tables)[other]
        invariant forall i | 0 <= i < |lines| && i !in rows[..k] :: tables[name][i] == lines[i]
        invariant forall j | 0 <= j < k :: RestOf(lines[rows[j]]).Some? && tables[name][rows[j]] == RenamedLine(lines[rows[j]], to)
      {
        var r := rows[k];
        assert r !in rows[..k];
        assert rows[..k + 1] == rows[..k] + [r];
        var line := tables[name][r];
        if RestOf(line).None? {
          return false;
        }
        tables := tables[name := tables[name][r := RenamedLine(line, to)]];
      }
      assert rows[..|rows|] == rows;
      assert CanRename(lines, from);
      assert tables[name] == RenamedLines(lines, from, to);
      return true;
    }

    /** Looks a rule up: refused, applied already, or to be applied to these rows. */
    method Examine(rule: Rule) returns (refuses: bool, done: bool, rows: seq<nat>)
      ensures var verdict := Judge(job, tables, rule);
              refuses == verdict.Refused? && done == verdict.Already?
      ensures !refuses && !done ==> rule.table in tables && AreRowsNamed(tables[rule.table], rule.from, rows)
    {
      refuses, done, rows := false, false, [];
      if rule.table !in tables || !IsSnakeIdent(rule.to) {
        return true, false, [];
      }
      var lines := tables[rule.table];
      rows := RowsNamed(lines, rule.from);
      var toRows := RowsNamed(lines, rule.to);
      RowsSayName(lines, rule.from, rows);
      RowsSayName(lines, rule.to, toRows);
      if rows == [] {
        return toRows == [], toRows != [], rows;
      }
      if toRows != [] {
        var clash := CheckMerge(lines, rule.from, rule.to, rows, toRows);
        refuses := (rule.table, rule.from) !in job.merges || clash;
      }
    }

    method ApplyRule(rule: Rule) returns (ok: bool)
      modifies this
      ensures files == old(files)
      ensures ok == AfterRule(job, old(Now()), rule).Some?
      ensures ok ==> Some(Now()) == AfterRule(job, old(Now()), rule)
    {
      var refuses, done, rows := Examine(rule);
      ok := true;
      if refuses {
        refused := refused + 1;
      } else if done {
        already := already + 1;
      } else {
        ToRename(job, tables, rule);
        ok := RenameRows(rule.table, rule.from, rule.to, rows);
        if ok {
          applied := applied + 1;
        }
      }
    }

    /** The exit status is 0 when every rule was applied or had been; files change only then. */
    method Apply(dryRun: bool) returns (succeeded: bool)
      modifies this
      ensures files == FilesAfter(job, old(files), dryRun)
      ensures succeeded == (AfterAll(job, old(files)).Some? && AfterAll(job, old(files)).value.refused == 0)
    {
      tables, refused, applied, already := files, 0, 0, 0;
      for n := 0 to |job.rules|
        invariant files == old(files)
        invariant AfterRules(job, files, n) == Some(Now())
      {
        var ok := ApplyRule(job.rules[n]);
        if !ok {
          StopsForGood(job, files, n + 1);
          return false;
        }
      }
      if refused > 0 {
        return false;
      }
      if !dryRun {
        RulesKeepTables(job, files, |job.rules|);
        WriteTouched();
      }
      return true;
    }

    /** Writes the tables that changed. */
    method WriteTouched()
      requires files.Keys == tables.Keys
      modifies this`files
      ensures files == tables
    {
      var left := files.Keys;
      while left != {}
        invariant left <= files.Keys == tables.Keys
        invariant forall t | t in files && t !in left :: files[t] == tables[t]
        decreases |left|
      {
        assert (forall t :: t !in left) ==> left == {};
        var t :| t in left;
        if files[t] != tables[t] {
          files := files[t := tables[t]];
        }
        left := left - {t};
      }
    }
  }

  lemma ToRename(job: Job, tables: map<string, Lines>, rule: Rule)
    requires !Judge(job, tables, rule).Refused? && !Judge(job, tables, rule).Already?
    ensures rule.table in tables
    ensures Judge(job, tables, rule) == if CanRename(tables[rule.table], rule.from) then Renames else Stops
  {
  }

  lemma RowsSayName(lines: Lines, name: string, rows: seq<nat>)
    requires AreRowsNamed(lines, name, rows)
    ensures HasName(lines, name) == (rows != [])
  {
    if rows != [] {
      assert NameIn(lines[rows[0]]) == name;
    }
  }

  lemma {:induction false} StopsForGood(job: Job, tables: map<string, Lines>, n: nat)
    requires n <= |job.rules| && AfterRules(job, tables, n).None?
    ensures AfterAll(job, tables).None?
    decreases |job.rules| - n
  {
    if n < |job.rules| {
      StopsForGood(job, tables, n + 1);
    }
  }

  lemma {:induction false} RulesKeepTables(job: Job, tables: map<string, Lines>, n: nat)
    requires n <= |job.rules| && AfterRules(job, tables, n).Some?
    ensures AfterRules(job, tables, n).value.tables.Keys == tables.Keys
  {
    if n > 0 {
      RulesKeepTables(job, tables, n - 1);
    }
  }
}
