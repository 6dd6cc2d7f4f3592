/**
 Ingesting filings one at a time: the `filings` and `schedule_e_lines` tables as an object that
 each ingest updates, and the order in which filings arrive.
 */
module Ingest {
  import opened Wrappers
  import opened Chains

  /** A parsed body line: its table, and whether it reads as a Schedule E record. */
  datatype BodyLine = BodyLine(isScheduleE: bool, readable: bool, text: string)

  datatype ChainResolution = Resolve | Defer

  /** The row stored for a filing, and its body. */
  datatype Filing = Filing(row: Row, lines: seq<BodyLine>)

  predicate IsExtracted(lines: seq<BodyLine>, index: nat) {
    index < |lines| && lines[index].isScheduleE && lines[index].readable
  }

  /** The stored Schedule E lines of one filing, by position in its body. */
  function Extracted(lines: seq<BodyLine>): map<nat, string> {
    map index: nat | 0 <= index < |lines| && IsExtracted(lines, index) :: lines[index].text
  }

  /** The derived columns after one ingest in Resolve mode, from the rows before it. */
  function Recompute(rank: Ranking, base: Base, derived: map<int, Derived>, id: int, row: Row): map<int, Derived> {
    var base' := base[id := row];
    var key := ChainKey(id, row);
    var resolved := ResolveOne(rank, base', derived, key);
    if id in base && ChainKey(id, base[id]) != key then ResolveOne(rank, base', resolved, ChainKey(id, base[id]))
    else resolved
  }

  /** The two chains recomputed are right, whatever the columns were before; rows outside them keep
      what they had. */
  lemma RecomputedChains(rank: Ranking, base: Base, derived: map<int, Derived>, id: int, row: Row, g: int)
    requires g in base[id := row]
    ensures var base' := base[id := row];
            var now := Recompute(rank, base, derived, id, row);
            if InRecomputed(base, id, row, g) then g in now && now[g] == Derive(rank, base', g)
            else (g in now <==> g in derived) && (g in now ==> now[g] == derived[g])
  {
    var base' := base[id := row];
    var key := ChainKey(id, row);
    var oldKey := if id in base then ChainKey(id, base[id]) else key;
    MembersAreWritten(rank, base', key);
    MembersAreWritten(rank, base', oldKey);
    if g in Members(base', oldKey) {
      UpdateIsExact(rank, base', oldKey, g);
    }
    if g in Members(base', key) {
      UpdateIsExact(rank, base', key, g);
    }
  }

  /** The rows the statements of one ingest write. */
  predicate InRecomputed(base: Base, id: int, row: Row, g: int) {
    var base' := base[id := row];
    g in Members(base', ChainKey(id, row)) || (id in base && g in Members(base', ChainKey(id, base[id])))
  }

  lemma RecomputedRow(rank: Ranking, base: Base, derived: map<int, Derived>, id: int, row: Row, g: int)
    requires Coherent(rank, base, derived) && g in base[id := row]
    ensures g in Recompute(rank, base, derived, id, row)
    ensures Recompute(rank, base, derived, id, row)[g] == Derive(rank, base[id := row], g)
  {
    var base' := base[id := row];
    var key := ChainKey(id, row);
    var oldKey := if id in base then ChainKey(id, base[id]) else key;
    GroupIsResolved(base', key);
    GroupIsResolved(base', oldKey);
    RecomputedChains(rank, base, derived, id, row, g);
    assert id in Group(base', key);
    if !InRecomputed(base, id, row, g) {
      OnlyTwoGroupsChange(rank, base, id, row, g);
      assert derived[g] == Derive(rank, base, g);
    }
  }

  lemma RecomputedRows(rank: Ranking, base: Base, derived: map<int, Derived>, id: int, row: Row)
    requires Coherent(rank, base, derived)
    ensures Recompute(rank, base, derived, id, row).Keys == base[id := row].Keys
  {
    var base' := base[id := row];
    var key := ChainKey(id, row);
    var oldKey := if id in base then ChainKey(id, base[id]) else key;
    GroupIsResolved(base', key);
    MembersAreWritten(rank, base', key);
    MembersAreWritten(rank, base', oldKey);
    assert id in Group(base', key);
  }

  /** Recomputing the chain a filing joins and the chain it left is recomputing the whole table. */
  lemma RecomputeKeepsCoherence(rank: Ranking, base: Base, derived: map<int, Derived>, id: int, row: Row)
    requires Coherent(rank, base, derived)
    ensures Recompute(rank, base, derived, id, row) == DeriveAll(rank, base[id := row])
  {
    RecomputedRows(rank, base, derived, id, row);
    forall g | g in base[id := row]
      ensures Recompute(rank, base, derived, id, row)[g] == DeriveAll(rank, base[id := row])[g]
    {
      RecomputedRow(rank, base, derived, id, row, g);
    }
  }

  class FilingTables {
    const rank: Ranking
    var base: Base
    var derived: map<int, Derived>
    var scheduleE: map<(int, nat), string>

    constructor (rank: Ranking)
      ensures this.rank == rank && base == map[] && derived == map[] && scheduleE == map[]
      ensures HasOnlyRows()
    {
      this.rank := rank;
      base, derived, scheduleE := map[], map[], map[];
    }

    ghost predicate UpToDate()
      reads this
    {
      Coherent(rank, base, derived)
    }

    /** Derived columns are columns of stored rows. */
    ghost predicate HasOnlyRows()
      reads this
    {
      derived.Keys <= base.Keys
    }

    /** Stores `filing` under `id`, replacing what was there, and resolves its chains. */
    method IngestFiling(id: int, filing: Filing, resolution: ChainResolution)
      requires HasOnlyRows()
      modifies this
      ensures HasOnlyRows()
      ensures base == old(base)[id := filing.row]
      ensures forall other, index: nat | other != id ::
                ((other, index) in scheduleE <==> (other, index) in old(scheduleE))
                && ((other, index) in scheduleE ==> scheduleE[(other, index)] == old(scheduleE)[(other, index)])
      ensures forall index: nat :: (id, index) in scheduleE <==>
                index < |filing.lines| && filing.lines[index].isScheduleE && filing.lines[index].readable
      ensures forall index: nat | (id, index) in scheduleE :: scheduleE[(id, index)] == filing.lines[index].text
      ensures resolution.Defer? ==> derived == old(derived)
      ensures resolution.Resolve? ==> derived == Recompute(rank, old(base), old(derived), id, filing.row)
      ensures resolution.Resolve? ==> forall g | g in base && InRecomputed(old(base), id, filing.row, g) ::
                g in derived && derived[g] == Derive(rank, base, g)
      ensures resolution.Resolve? && old(UpToDate()) ==> UpToDate()
    {
      var previousKey := if id in base then Some(ChainKey(id, base[id])) else None;
      ghost var before := base;
      base := base[id := filing.row];
      StoreLines(id, filing.lines);
      if resolution.Resolve? {
        var key := ChainKey(id, filing.row);
        ResolveChain(key);
        if previousKey.Some? && previousKey.value != key {
          ResolveChain(previousKey.value);
        }
        MembersAreWritten(rank, base, key);
        if previousKey.Some? {
          MembersAreWritten(rank, base, previousKey.value);
        }
        forall g | g in base
          ensures InRecomputed(before, id, filing.row, g) ==> g in derived && derived[g] == Derive(rank, base, g)
        {
          RecomputedChains(rank, before, old(derived), id, filing.row, g);
        }
        if old(UpToDate()) {
          RecomputeKeepsCoherence(rank, before, old(derived), id, filing.row);
        }
      }
    }

    /** Deletes the filing's Schedule E lines, then inserts those of its body one by one. */
    method StoreLines(id: int, lines: seq<BodyLine>)
      modifies this`scheduleE
      ensures forall other, index: nat | other != id ::
                ((other, index) in scheduleE <==> (other, index) in old(scheduleE))
                && ((other, index) in scheduleE ==> scheduleE[(other, index)] == old(scheduleE)[(other, index)])
      ensures forall index: nat :: (id, index) in scheduleE <==>
                index < |lines| && lines[index].isScheduleE && lines[index].readable
      ensures forall index: nat | (id, index) in scheduleE :: scheduleE[(id, index)] == lines[index].text
    {
      scheduleE := map key | key in scheduleE && key.0 != id :: scheduleE[key];
      for i := 0 to |lines|
        invariant forall other, index: nat | other != id ::
                    ((other, index) in scheduleE <==> (other, index) in old(scheduleE))
                    && ((other, index) in scheduleE ==> scheduleE[(other, index)] == old(scheduleE)[(other, index)])
        invariant forall index: nat :: (id, index) in scheduleE <==> index < i && IsExtracted(lines, index)
        invariant forall index: nat | (id, index) in scheduleE ::
                    index < |lines| && scheduleE[(id, index)] == lines[index].text
      {
        if lines[i].isScheduleE && lines[i].readable {
          scheduleE := scheduleE[(id, i) := lines[i].text];
        }
      }
    }

    method ResolveChain(key: int)
      modifies this`derived
      ensures derived == ResolveOne(rank, base, old(derived), key)
    {
      derived := derived + Updates(rank, base, key);
    }

    /** The whole table in one statement, for after a batch ingested in Defer mode. */
    method ResolveAll()
      requires HasOnlyRows()
      modifies this`derived
      ensures UpToDate()
    {
      WholeTableIsExact(rank, base);
      derived := derived + UpdatesOf(rank, base, base.Keys);
    }
  }

  // ----- The order filings arrive in -----

  datatype Tables = Tables(base: Base, derived: map<int, Derived>)

  /** Ingesting a batch in Resolve mode, in the order given. */
  function IngestAll(rank: Ranking, t: Tables, batch: seq<(int, Row)>): Tables
    decreases batch
  {
    if batch == [] then t
    else
      var (id, row) := batch[0];
      IngestAll(rank, Tables(t.base[id := row], Recompute(rank, t.base, t.derived, id, row)), batch[1..])
  }

  /** Storing a batch in Defer mode, in the order given. */
  function StoreAll(base: Base, batch: seq<(int, Row)>): Base
    decreases batch
  {
    if batch == [] then base else StoreAll(base[batch[0].0 := batch[0].1], batch[1..])
  }

  /** No filing id comes with two different contents. */
  ghost predicate OneContentPerId(batch: seq<(int, Row)>) {
    forall a, b | a in batch && b in batch && a.0 == b.0 :: a == b
  }

  lemma {:induction false} IngestAllIsStoreThenResolve(rank: Ranking, t: Tables, batch: seq<(int, Row)>)
    requires Coherent(rank, t.base, t.derived)
    ensures IngestAll(rank, t, batch) == Tables(StoreAll(t.base, batch), DeriveAll(rank, StoreAll(t.base, batch)))
    decreases batch
  {
    if batch == [] {
      assert t.derived == DeriveAll(rank, t.base);
    } else {
      var (id, row) := batch[0];
      RecomputeKeepsCoherence(rank, t.base, t.derived, id, row);
      IngestAllIsStoreThenResolve(rank, Tables(t.base[id := row], Recompute(rank, t.base, t.derived, id, row)), batch[1..]);
    }
  }

  lemma {:induction false} StoredRow(base: Base, batch: seq<(int, Row)>, id: int)
    requires OneContentPerId(batch)
    ensures id in StoreAll(base, batch) <==> id in base || exists row :: (id, row) in batch
    ensures forall row | (id, row) in batch :: id in StoreAll(base, batch) && StoreAll(base, batch)[id] == row
    ensures id in base && (forall row :: (id, row) !in batch) ==> StoreAll(base, batch)[id] == base[id]
    decreases batch
  {
    if batch != [] {
      var (first, firstRow) := batch[0];
      var base' := base[first := firstRow];
      var rest := batch[1..];
      assert forall pair :: pair in batch <==> pair == (first, firstRow) || pair in rest;
      StoredRow(base', rest, id);
      if id == first {
        forall row | (id, row) in batch
          ensures row == firstRow
        {
          assert (first, firstRow) in batch;
        }
      }
    }
  }

  /** Filings that arrive in another order, or more than once, leave the same tables; so does a
      batch stored in Defer mode and resolved once at the end. */
  lemma OrderDoesNotMatter(rank: Ranking, a: seq<(int, Row)>, b: seq<(int, Row)>)
    requires OneContentPerId(a)
    requires forall pair :: pair in a <==> pair in b
    ensures IngestAll(rank, Tables(map[], map[]), a) == IngestAll(rank, Tables(map[], map[]), b)
    ensures IngestAll(rank, Tables(map[], map[]), a).derived == DeriveAll(rank, StoreAll(map[], b))
  {
    var empty := Tables(map[], map[]);
    assert OneContentPerId(b);
    forall id
      ensures id in StoreAll(map[], a) <==> id in StoreAll(map[], b)
      ensures id in StoreAll(map[], a) ==> StoreAll(map[], a)[id] == StoreAll(map[], b)[id]
    {
      StoredRow(map[], a, id);
      StoredRow(map[], b, id);
    }
    assert StoreAll(map[], a) == StoreAll(map[], b);
    IngestAllIsStoreThenResolve(rank, empty, a);
    IngestAllIsStoreThenResolve(rank, empty, b);
  }
}
