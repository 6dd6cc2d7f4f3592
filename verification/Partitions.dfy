/**
 The child tables of a cycle-split dump: how they are named, which an archive has, and the plan
 for restoring some of them.
 */
module Partitions {
  import opened Wrappers
  import opened Text
  import opened Cycles

  // ----- Names -----

  function PartitionTable(parent: string, cycle: Cycle): string {
    parent + "_" + Digits(cycle - 1, 4) + "_" + CycleText(cycle)
  }

  function PeriodCycle(first: string, second: string): Option<Cycle> {
    if |first| != 4 || |second| != 4 then None
    else
      var odd, even := ParseUnsigned(first), ParseUnsigned(second);
      if odd.None? || even.None? || even.value != odd.value + 1 then None else NewCycle(even.value)
  }

  function PartitionCycle(parent: string, table: string): Option<Cycle> {
    match StripPrefix(table, parent)
    case None => None
    case Some(rest) =>
      match StripPrefix(rest, "_")
      case None => None
      case Some(suffix) =>
        match SplitOnce(suffix, '_')
        case None => None
        case Some((first, second)) => PeriodCycle(first, second)
  }

  lemma Pow10Is(n: nat)
    ensures n == 3 ==> Pow10(n) == 1000
    ensures n == 4 ==> Pow10(n) == 10000
  {
    if n > 0 {
      assert Pow10(n) == 10 * Pow10(n - 1);
    }
    if n > 1 {
      assert Pow10(n - 1) == 10 * Pow10(n - 2);
    }
    if n > 2 {
      assert Pow10(n - 2) == 10 * Pow10(n - 3);
    }
    if n > 3 {
      assert Pow10(n - 3) == 10 * Pow10(n - 4);
    }
  }

  /** Four characters that read as a year past 999 are its digits: there is no room for a sign. */
  lemma FourCharacters(s: string, year: nat)
    requires |s| == 4 && 1000 <= year < 10000
    ensures ParseUnsigned(s) == Some(year) <==> s == Digits(year, 4)
  {
    Pow10Is(4);
    Pow10Is(3);
    DigitsReadBack(year, 4);
    if s == Digits(year, 4) {
      assert s[0] in s;
    }
    if ParseUnsigned(s) == Some(year) {
      if s[0] == '+' {
        ReadWritesBack(s[1..]);
        assert false;
      } else {
        ReadWritesBack(s);
      }
    }
  }

  lemma NoUnderscoreInDigits(n: nat, width: nat)
    ensures '_' !in Digits(n, width)
  {
    DigitsAreDigits(n, width);
    assert !IsDigit('_');
  }

  lemma PeriodIsDigits(first: string, second: string, cycle: Cycle)
    ensures PeriodCycle(first, second) == Some(cycle) <==> first == Digits(cycle - 1, 4) && second == CycleText(cycle)
  {
    if |first| == 4 && |second| == 4 {
      FourCharacters(first, cycle - 1);
      FourCharacters(second, cycle);
    }
  }

  /** A table is taken for a cycle exactly when it has that cycle's name, for every parent and
      every table name. */
  lemma NamesAreExact(parent: string, table: string, cycle: Cycle)
    ensures PartitionCycle(parent, table) == Some(cycle) <==> table == PartitionTable(parent, cycle)
  {
    var odd, even := Digits(cycle - 1, 4), CycleText(cycle);
    NoUnderscoreInDigits(cycle - 1, 4);
    if table == PartitionTable(parent, cycle) {
      assert table[|parent|..] == "_" + (odd + "_" + even);
      assert ("_" + (odd + "_" + even))[1..] == odd + "_" + even;
      SplitOnceAt(odd, '_', even);
      PeriodIsDigits(odd, even, cycle);
    }
    if PartitionCycle(parent, table) == Some(cycle) {
      var rest := table[|parent|..];
      var split := SplitOnce(rest[1..], '_').value;
      PeriodIsDigits(split.0, split.1, cycle);
      assert table == parent + rest && rest == "_" + rest[1..];
    }
  }

  // ----- The partitions of an archive -----

  datatype Partition = Partition(cycle: Cycle, table: string)

  predicate IsSortedByCycle(parts: seq<Partition>) {
    forall i, j | 0 <= i < j < |parts| :: parts[i].cycle < parts[j].cycle
  }

  /** `p` put where it belongs, once. */
  function InsertPartition(parts: seq<Partition>, p: Partition): seq<Partition> {
    if parts == [] || p.cycle < parts[0].cycle then [p] + parts
    else if p == parts[0] then parts
    else [parts[0]] + InsertPartition(parts[1..], p)
  }

  /** The partitions among the named tables, in order of cycle, each once. */
  function PartitionsOf(parent: string, tables: seq<string>): seq<Partition> {
    if tables == [] then []
    else
      var before, last := PartitionsOf(parent, tables[..|tables| - 1]), tables[|tables| - 1];
      match PartitionCycle(parent, last)
      case None => before
      case Some(cycle) => InsertPartition(before, Partition(cycle, last))
  }

  ghost predicate NamedBy(parent: string, parts: seq<Partition>) {
    forall i | 0 <= i < |parts| :: parts[i].table == PartitionTable(parent, parts[i].cycle)
  }

  lemma {:induction false} InsertKeeps(parent: string, parts: seq<Partition>, p: Partition)
    requires IsSortedByCycle(parts) && NamedBy(parent, parts) && p.table == PartitionTable(parent, p.cycle)
    ensures var r := InsertPartition(parts, p);
            && IsSortedByCycle(r) && NamedBy(parent, r)
            && (forall q: Partition :: q in r <==> q in parts || q == p)
            && (r != [] && (r[0] == p || (parts != [] && r[0] == parts[0])))
    decreases |parts|
  {
    var r := InsertPartition(parts, p);
    if parts != [] && !(p.cycle < parts[0].cycle) && p != parts[0] {
      InsertKeeps(parent, parts[1..], p);
      assert parts == [parts[0]] + parts[1..];
      assert p.cycle != parts[0].cycle;
      var later := InsertPartition(parts[1..], p);
      forall j | 0 <= j < |later|
        ensures parts[0].cycle < later[j].cycle
      {
        assert later[j] in later;
        assert later[j] == p || later[j] in parts[1..];
      }
    } else if parts == [] || p.cycle < parts[0].cycle {
      assert r == [p] + parts;
    }
  }

  /** The archive's partitions are in order, and one is there exactly when a table has its name. */
  lemma {:induction false} PartitionsAreExact(parent: string, tables: seq<string>)
    ensures var parts := PartitionsOf(parent, tables);
            && IsSortedByCycle(parts) && NamedBy(parent, parts)
            && forall p: Partition :: p in parts <==> p.table in tables && p.table == PartitionTable(parent, p.cycle)
    decreases |tables|
  {
    if tables != [] {
      var n := |tables| - 1;
      PartitionsAreExact(parent, tables[..n]);
      var last := tables[n];
      assert forall t :: t in tables <==> t in tables[..n] || t == last;
      var cycle := PartitionCycle(parent, last);
      forall c: Cycle
        ensures cycle == Some(c) <==> last == PartitionTable(parent, c)
      {
        NamesAreExact(parent, last, c);
      }
      if cycle.Some? {
        InsertKeeps(parent, PartitionsOf(parent, tables[..n]), Partition(cycle.value, last));
      }
    }
  }

  /** The name of one child table, written out. */
  lemma NameOf2024(parent: string)
    ensures PartitionTable(parent, 2024) == parent + "_2023_2024"
  {
    DigitsOf(2023, '2', '0', '2', '3');
    DigitsOf(2024, '2', '0', '2', '4');
    assert "_2023_2024" == "_" + ("2023" + ("_" + "2024"));
  }

  lemma DigitsOf(year: nat, a: char, b: char, c: char, d: char)
    requires year == 2023 || year == 2024
    requires [a, b, c, d] == if year == 2023 then ['2', '0', '2', '3'] else ['2', '0', '2', '4']
    ensures Digits(year, 4) == [a, b, c, d]
  {
    assert Digits(0, 0) == "";
    assert Digits(2, 1) == ['2'];
    assert Digits(20, 2) == ['2', '0'];
    assert Digits(202, 3) == ['2', '0', '2'];
  }
}
