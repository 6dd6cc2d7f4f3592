/**
 What to ask `pg_restore` for: planned from the archive's table of contents, and planned before
 there is an archive. The two agree.
 */
module RestorePlans {
  import opened Wrappers
  import opened Cycles
  import opened Partitions

  datatype DumpSource = DumpSource(name: string, table: string, isLarge: bool, byCycle: bool)

  datatype Options = Options(cycles: seq<Cycle>, allowLarge: bool, dataOnly: bool, jobs: nat)

  datatype Plan = Plan(tables: seq<string>, partitions: seq<Partition>, dataOnly: bool, jobs: nat)

  datatype PlanError =
    | NotPartitioned(name: string)
    | MissingPartition(table: string, cycle: Cycle, available: seq<Cycle>)
    | LargeDumpNotAllowed(name: string)

  function CyclesOf(parts: seq<Partition>): (cycles: seq<Cycle>)
    ensures |cycles| == |parts|
  {
    seq(|parts|, i requires 0 <= i < |parts| => parts[i].cycle)
  }

  function TablesOf(parts: seq<Partition>): (tables: seq<string>)
    ensures |tables| == |parts|
  {
    seq(|parts|, i requires 0 <= i < |parts| => parts[i].table)
  }

  /** The partitions of the given cycles, by name alone. */
  function Named(parent: string, cycles: seq<Cycle>): (parts: seq<Partition>)
    ensures |parts| == |cycles|
  {
    seq(|cycles|, i requires 0 <= i < |cycles| => Partition(cycles[i], PartitionTable(parent, cycles[i])))
  }

  function WholeArchive(options: Options): Plan {
    Plan([], [], options.dataOnly, options.jobs)
  }

  function SomeCycles(source: DumpSource, parts: seq<Partition>, options: Options, parentExists: bool): Plan {
    Plan((if parentExists then [] else [source.table]) + TablesOf(parts), parts, true, options.jobs)
  }

  /** `archive` lists the archive's tables. */
  method PlanRestore(source: DumpSource, archive: seq<string>, options: Options, parentExists: bool)
    returns (plan: Result<Plan, PlanError>)
    ensures plan == PlanFromArchive(source, archive, options, parentExists)
  {
    if options.cycles == [] {
      return Ok(WholeArchive(options));
    }
    var available := PartitionsOf(source.table, archive);
    if available == [] {
      return Err(NotPartitioned(source.name));
    }
    var partitions := [];
    for i := 0 to |options.cycles|
      invariant |partitions| == i
      invariant forall j | 0 <= j < i :: Lookup(available, options.cycles[j]) == Some(partitions[j])
    {
      var found := FindPartition(available, options.cycles[i]);
      if found.None? {
        FirstMissingIs(available, options.cycles, i);
        return Err(MissingPartition(source.table, options.cycles[i], CyclesOf(available)));
      }
      partitions := partitions + [found.value];
    }
    FirstMissingIs(available, options.cycles, |options.cycles|);
    assert partitions == FoundIn(available, options.cycles);
    return Ok(SomeCycles(source, partitions, options, parentExists));
  }

  method FindPartition(available: seq<Partition>, cycle: Cycle) returns (found: Option<Partition>)
    ensures found == Lookup(available, cycle)
  {
    for i := 0 to |available|
      invariant Lookup(available[i..], cycle) == Lookup(available, cycle)
    {
      assert available[i..][1..] == available[i + 1..];
      if available[i].cycle == cycle {
        return Some(available[i]);
      }
    }
    return None;
  }

  function Lookup(available: seq<Partition>, cycle: Cycle): Option<Partition> {
    if available == [] then None
    else if available[0].cycle == cycle then Some(available[0])
    else Lookup(available[1..], cycle)
  }

  /** The index of the first cycle the archive does not have. */
  function FirstMissing(available: seq<Partition>, cycles: seq<Cycle>): (i: nat)
    ensures i <= |cycles|
    ensures forall j | 0 <= j < i :: Lookup(available, cycles[j]).Some?
    ensures i < |cycles| ==> Lookup(available, cycles[i]).None?
    decreases |cycles|
  {
    if cycles == [] || Lookup(available, cycles[0]).None? then 0 else 1 + FirstMissing(available, cycles[1..])
  }

  lemma FirstMissingIs(available: seq<Partition>, cycles: seq<Cycle>, i: nat)
    requires i <= |cycles| && forall j | 0 <= j < i :: Lookup(available, cycles[j]).Some?
    requires i < |cycles| ==> Lookup(available, cycles[i]).None?
    ensures FirstMissing(available, cycles) == i
  {
  }

  function FoundIn(available: seq<Partition>, cycles: seq<Cycle>): (parts: seq<Partition>)
    requires forall j | 0 <= j < |cycles| :: Lookup(available, cycles[j]).Some?
    ensures |parts| == |cycles|
  {
    seq(|cycles|, j requires 0 <= j < |cycles| => Lookup(available, cycles[j]).value)
  }

  function PlanFromArchive(source: DumpSource, archive: seq<string>, options: Options, parentExists: bool): Result<Plan, PlanError> {
    var available := PartitionsOf(source.table, archive);
    var missing := FirstMissing(available, options.cycles);
    if options.cycles == [] then Ok(WholeArchive(options))
    else if available == [] then Err(NotPartitioned(source.name))
    else if missing < |options.cycles| then
      Err(MissingPartition(source.table, options.cycles[missing], CyclesOf(available)))
    else Ok(SomeCycles(source, FoundIn(available, options.cycles), options, parentExists))
  }

  /** The plan without an archive. */
  function PlanOffline(source: DumpSource, options: Options, parentExists: bool): Result<Plan, PlanError> {
    if options.cycles == [] then
      if source.isLarge && !options.allowLarge then Err(LargeDumpNotAllowed(source.name)) else Ok(WholeArchive(options))
    else if !source.byCycle then Err(NotPartitioned(source.name))
    else Ok(SomeCycles(source, Named(source.table, options.cycles), options, parentExists))
  }

  // ----- The two agree -----

  lemma {:induction false} LookupFinds(available: seq<Partition>, cycle: Cycle)
    ensures Lookup(available, cycle).Some? ==>
              Lookup(available, cycle).value in available && Lookup(available, cycle).value.cycle == cycle
    ensures Lookup(available, cycle).None? ==> forall p | p in available :: p.cycle != cycle
  {
    if available != [] && available[0].cycle != cycle {
      LookupFinds(available[1..], cycle);
      assert available == [available[0]] + available[1..];
    }
  }

  /** The archive's partition of a cycle is the table of that name, if the archive has it. */
  lemma LookupIsByName(parent: string, archive: seq<string>, cycle: Cycle)
    ensures Lookup(PartitionsOf(parent, archive), cycle)
            == if PartitionTable(parent, cycle) in archive then Some(Partition(cycle, PartitionTable(parent, cycle))) else None
  {
    var parts := PartitionsOf(parent, archive);
    PartitionsAreExact(parent, archive);
    LookupFinds(parts, cycle);
    var p := Partition(cycle, PartitionTable(parent, cycle));
    assert p in parts <==> p.table in archive;
  }

  /** The archive has every table the cycles name. */
  predicate HasAll(source: DumpSource, archive: seq<string>, cycles: seq<Cycle>) {
    forall i | 0 <= i < |cycles| :: PartitionTable(source.table, cycles[i]) in archive
  }

  /** For cycles of a cycle-split dump the plan from the archive is the offline plan, if and only
      if the archive has all their tables; otherwise the first cycle it lacks is named. */
  lemma PlansAgreeExactly(source: DumpSource, archive: seq<string>, options: Options, parentExists: bool)
    requires source.byCycle && options.cycles != []
    ensures PlanFromArchive(source, archive, options, parentExists) == PlanOffline(source, options, parentExists)
            <==> HasAll(source, archive, options.cycles)
    ensures PlanFromArchive(source, archive, options, parentExists).Ok? <==> HasAll(source, archive, options.cycles)
  {
    var available := PartitionsOf(source.table, archive);
    forall i | 0 <= i < |options.cycles|
      ensures Lookup(available, options.cycles[i]) ==
              if PartitionTable(source.table, options.cycles[i]) in archive
              then Some(Named(source.table, options.cycles)[i]) else None
    {
      LookupIsByName(source.table, archive, options.cycles[i]);
    }
    if HasAll(source, archive, options.cycles) {
      LookupFinds(available, options.cycles[0]);
      assert FoundIn(available, options.cycles) == Named(source.table, options.cycles);
    }
  }

  /** The cycle named as missing is the first requested one without a table; the cycles offered
      instead are those the archive has, in order. */
  lemma MissingIsFirst(source: DumpSource, archive: seq<string>, options: Options, parentExists: bool)
    requires PlanFromArchive(source, archive, options, parentExists).Err?
    requires PlanFromArchive(source, archive, options, parentExists).error.MissingPartition?
    ensures var error := PlanFromArchive(source, archive, options, parentExists).error;
            && (exists i | 0 <= i < |options.cycles| ::
                  && options.cycles[i] == error.cycle
                  && PartitionTable(source.table, error.cycle) !in archive
                  && HasAll(source, archive, options.cycles[..i]))
            && (forall c :: c in error.available <==> PartitionTable(source.table, c) in archive)
            && (forall i, j | 0 <= i < j < |error.available| :: error.available[i] < error.available[j])
  {
    var available := PartitionsOf(source.table, archive);
    var missing := FirstMissing(available, options.cycles);
    FirstMissingByName(source, archive, options.cycles, missing);
    AvailableCycles(source.table, archive);
  }

  lemma FirstMissingByName(source: DumpSource, archive: seq<string>, cycles: seq<Cycle>, missing: nat)
    requires missing == FirstMissing(PartitionsOf(source.table, archive), cycles) < |cycles|
    ensures PartitionTable(source.table, cycles[missing]) !in archive && HasAll(source, archive, cycles[..missing])
  {
    forall i | 0 <= i <= missing
      ensures PartitionTable(source.table, cycles[i]) in archive <==> i < missing
    {
      LookupIsByName(source.table, archive, cycles[i]);
    }
  }

  /** The cycles of an archive's partitions: those with a table, in order. */
  lemma AvailableCycles(parent: string, archive: seq<string>)
    ensures var cycles := CyclesOf(PartitionsOf(parent, archive));
            && (forall c :: c in cycles <==> PartitionTable(parent, c) in archive)
            && (forall i, j | 0 <= i < j < |cycles| :: cycles[i] < cycles[j])
  {
    var available := PartitionsOf(parent, archive);
    var cycles := CyclesOf(available);
    PartitionsAreExact(parent, archive);
    forall c: Cycle
      ensures c in cycles <==> PartitionTable(parent, c) in archive
    {
      var p := Partition(c, PartitionTable(parent, c));
      assert p in available <==> p.table in archive;
      if c in cycles {
        var i :| 0 <= i < |cycles| && cycles[i] == c;
        assert available[i] == p;
      }
      if p in available {
        var i :| 0 <= i < |available| && available[i] == p;
        assert cycles[i] == c;
      }
    }
  }

  // ----- What a plan asks for -----

  lemma PartitionIsNotParent(parent: string, cycle: Cycle)
    ensures PartitionTable(parent, cycle) != parent
  {
    assert |PartitionTable(parent, cycle)| > |parent|;
  }

  /** Asked for cycles, either planner asks for the rows only, for the parent table exactly when it is
      not there yet, and before them, and then for the table named after each cycle, in the order
      asked. */
  lemma PlanIsExact(source: DumpSource, archive: seq<string>, options: Options, parentExists: bool, plan: Plan)
    requires options.cycles != []
    requires PlanFromArchive(source, archive, options, parentExists) == Ok(plan)
             || PlanOffline(source, options, parentExists) == Ok(plan)
    ensures plan.dataOnly && plan.jobs == options.jobs
    ensures |plan.partitions| == |options.cycles|
    ensures source.table in plan.tables <==> !parentExists
    ensures var first := if parentExists then 0 else 1;
            && |plan.tables| == first + |options.cycles|
            && (!parentExists ==> plan.tables[0] == source.table)
            && forall i | 0 <= i < |options.cycles| ::
                 && plan.tables[first + i] == PartitionTable(source.table, options.cycles[i])
                 && plan.partitions[i] == Partition(options.cycles[i], PartitionTable(source.table, options.cycles[i]))
  {
    var available := PartitionsOf(source.table, archive);
    forall i | 0 <= i < |options.cycles|
      ensures Lookup(available, options.cycles[i]).Some? ==>
                Lookup(available, options.cycles[i]).value
                == Partition(options.cycles[i], PartitionTable(source.table, options.cycles[i]))
      ensures PartitionTable(source.table, options.cycles[i]) != source.table
    {
      LookupIsByName(source.table, archive, options.cycles[i]);
      PartitionIsNotParent(source.table, options.cycles[i]);
    }
    assert !parentExists ==> plan.tables[0] == source.table;
  }

  /** Asked for no cycle, a plan takes the whole archive as the options say. */
  lemma WholePlanIsExact(source: DumpSource, archive: seq<string>, options: Options, parentExists: bool)
    requires options.cycles == []
    ensures PlanFromArchive(source, archive, options, parentExists) == Ok(Plan([], [], options.dataOnly, options.jobs))
    ensures PlanOffline(source, options, parentExists)
            == if options.allowLarge || !source.isLarge then PlanFromArchive(source, archive, options, parentExists)
               else Err(LargeDumpNotAllowed(source.name))
  {
  }

  /** Asked for cycles, the planner refuses as not partitioned exactly when the archive has a table
      of no cycle at all, and for a missing cycle exactly when it has some but not all. */
  lemma RefusedExactly(source: DumpSource, archive: seq<string>, options: Options, parentExists: bool)
    requires options.cycles != []
    ensures var plan := PlanFromArchive(source, archive, options, parentExists);
            var none := forall c: Cycle :: PartitionTable(source.table, c) !in archive;
            && (plan == Err(NotPartitioned(source.name)) <==> none)
            && (plan.Err? && plan.error.MissingPartition? <==> !none && !HasAll(source, archive, options.cycles))
            && (plan.Err? && plan.error.MissingPartition? ==> plan.error.table == source.table)
  {
    var available := PartitionsOf(source.table, archive);
    var cycles := CyclesOf(available);
    AvailableCycles(source.table, archive);
    var missing := FirstMissing(available, options.cycles);
    if missing < |options.cycles| {
      FirstMissingByName(source, archive, options.cycles, missing);
    } else {
      forall i | 0 <= i < |options.cycles|
        ensures PartitionTable(source.table, options.cycles[i]) in archive
      {
        LookupIsByName(source.table, archive, options.cycles[i]);
      }
    }
    if available != [] {
      assert cycles[0] in cycles;
    }
  }

  /** Asked for cycles, the offline planner refuses exactly the dumps that are not split by cycle. */
  lemma OfflineRefusedExactly(source: DumpSource, options: Options, parentExists: bool)
    requires options.cycles != []
    ensures PlanOffline(source, options, parentExists).Err? <==> !source.byCycle
    ensures !source.byCycle ==> PlanOffline(source, options, parentExists) == Err(NotPartitioned(source.name))
  {
  }
}
