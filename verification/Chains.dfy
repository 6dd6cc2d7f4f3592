/**
 Amendment chains: which chain a filing is in, what its derived columns depend on, and the
 statement that recomputes one chain.

 `Derive` says what the derived columns of a row should be, from the whole table; how a row is
 ranked within its chain is a parameter (module `ChainOrder` gives the resolver's own). `ResolveOne`
 is the statement scoped to one key, with its scope and member filter. The main lemma is
 `OnlyTwoGroupsChange`: replacing one row can change derived columns only in the groups of its
 old and its new key.
 */
module Chains {
  import opened Wrappers

  /** What the resolver reads of a stored filing; `record` is everything else. */
  datatype Row = Row(isAmendment: bool, amends: Option<int>, amendmentNumber: Option<int>, record: string)

  type Base = map<int, Row>

  /** The key an ingest resolves: the filing an amendment names, else the filing itself. */
  function ChainKey(id: int, row: Row): int {
    if row.isAmendment && row.amends.Some? then row.amends.value else id
  }

  /** The derived columns; `most_recent` is `id == latest`. */
  datatype Derived = Derived(version: nat, chain: seq<int>, latest: int, previous: int, unresolved: bool)

  // ----- Which chain a row is in -----

  predicate Attachable(base: Base, target: int) {
    target in base && !base[target].isAmendment
  }

  /** The original of `id`'s chain: the filing it amends when that is stored and is itself an
      original, else `id`. */
  function OriginalOf(base: Base, id: int): int
    requires id in base
  {
    var row := base[id];
    if row.isAmendment && row.amends.Some? && row.amends.value != id && Attachable(base, row.amends.value)
    then row.amends.value else id
  }

  function ChainOf(base: Base, original: int): Base {
    map id | id in base && OriginalOf(base, id) == original :: base[id]
  }

  /** How a resolver fills in one row, given its whole chain, the chain's original and its id. */
  type Ranking = (Base, int, int) -> Derived

  /** What the derived columns of `id` should be in a table holding `base`. */
  function Derive(rank: Ranking, base: Base, id: int): Derived
    requires id in base
  {
    rank(ChainOf(base, OriginalOf(base, id)), OriginalOf(base, id), id)
  }

  function DeriveAll(rank: Ranking, base: Base): map<int, Derived> {
    map id | id in base :: Derive(rank, base, id)
  }

  /** The derived columns of the whole table are what they should be. */
  ghost predicate Coherent(rank: Ranking, base: Base, derived: map<int, Derived>) {
    derived == DeriveAll(rank, base)
  }

  // ----- The statement that recomputes one chain -----

  /** The candidate rows: the key itself and everything whose header names it. */
  function Scope(base: Base, key: int): set<int> {
    set id | id in base && (id == key || base[id].amends == Some(key))
  }

  /** The candidates that are written: those whose original is the key, and lone amendments. */
  function Members(base: Base, key: int): set<int> {
    set id | id in Scope(base, key)
             && (OriginalOf(base, id) == key || (OriginalOf(base, id) == id && base[id].isAmendment))
  }

  /** The partition a member is ranked in: the members with the same original. */
  function PartitionOf(base: Base, members: set<int>, original: int): Base {
    map id | id in members && id in base && OriginalOf(base, id) == original :: base[id]
  }

  function RankAmong(rank: Ranking, base: Base, members: set<int>, id: int): Derived
    requires id in base
  {
    rank(PartitionOf(base, members, OriginalOf(base, id)), OriginalOf(base, id), id)
  }

  /** What the statement writes: each member ranked among the members of its partition only. */
  function UpdatesOf(rank: Ranking, base: Base, members: set<int>): map<int, Derived> {
    map id | id in members && id in base :: RankAmong(rank, base, members, id)
  }

  function Updates(rank: Ranking, base: Base, key: int): map<int, Derived> {
    UpdatesOf(rank, base, Members(base, key))
  }

  function ResolveOne(rank: Ranking, base: Base, derived: map<int, Derived>, key: int): map<int, Derived> {
    derived + Updates(rank, base, key)
  }

  lemma MembersAreWritten(rank: Ranking, base: Base, key: int)
    ensures Updates(rank, base, key).Keys == Members(base, key)
  {
  }

  /** The member filter keeps whole chains, so ranking among members is ranking in the table. */
  lemma UpdateIsExact(rank: Ranking, base: Base, key: int, id: int)
    requires id in Members(base, key)
    ensures id in base && id in Updates(rank, base, key) && Updates(rank, base, key)[id] == Derive(rank, base, id)
  {
    WholeChainIsKept(base, key, id);
    assert Updates(rank, base, key)[id] == RankAmong(rank, base, Members(base, key), id);
  }

  lemma WholeChainIsKept(base: Base, key: int, id: int)
    requires id in Members(base, key)
    ensures PartitionOf(base, Members(base, key), OriginalOf(base, id)) == ChainOf(base, OriginalOf(base, id))
  {
    var original := OriginalOf(base, id);
    forall other | other in ChainOf(base, original)
      ensures other in Members(base, key)
    {
    }
  }

  /** Without a member filter every row is written, with its value in the whole table. */
  lemma WholeTableIsExact(rank: Ranking, base: Base)
    ensures UpdatesOf(rank, base, base.Keys) == DeriveAll(rank, base)
  {
    forall id | id in base
      ensures UpdatesOf(rank, base, base.Keys)[id] == Derive(rank, base, id)
    {
      assert PartitionOf(base, base.Keys, OriginalOf(base, id)) == ChainOf(base, OriginalOf(base, id));
    }
  }

  // ----- Groups: the rows that share a key -----

  function Group(base: Base, key: int): set<int> {
    set id | id in base && ChainKey(id, base[id]) == key
  }

  /** A resolve of `key` writes at least the group of `key`; anything else it writes is the row
      `key` itself, when that is an amendment whose own header could not be attached. */
  lemma GroupIsResolved(base: Base, key: int)
    ensures Group(base, key) <= Members(base, key)
    ensures forall id | id in Members(base, key) - Group(base, key) ::
              id == key && base[id].isAmendment && OriginalOf(base, id) == id
  {
  }

  lemma OriginalChangesOnlyInGroup(base: Base, id: int, row: Row, other: int)
    requires other in base && other != id
    requires OriginalOf(base, other) != OriginalOf(base[id := row], other)
    ensures base[other].isAmendment && base[other].amends == Some(id)
    ensures ChainKey(id, row) == id || (id in base && ChainKey(id, base[id]) == id)
  {
  }

  /** Storing `row` under `id` leaves the derived columns of every row outside the groups of the
      new key and of the old key (when there was a row) as they were. */
  lemma OnlyTwoGroupsChange(rank: Ranking, base: Base, id: int, row: Row, g: int)
    requires g in base && g != id
    requires g !in Group(base[id := row], ChainKey(id, row))
    requires id in base ==> g !in Group(base[id := row], ChainKey(id, base[id]))
    ensures Derive(rank, base[id := row], g) == Derive(rank, base, g)
  {
    var base' := base[id := row];
    if OriginalOf(base, g) != OriginalOf(base', g) {
      OriginalChangesOnlyInGroup(base, id, row, g);
      assert false;
    }
    var original := OriginalOf(base, g);
    forall h | h in base && h != id
      ensures OriginalOf(base, h) == original <==> OriginalOf(base', h) == original
    {
      if OriginalOf(base, h) != OriginalOf(base', h) {
        OriginalChangesOnlyInGroup(base, id, row, h);
      }
    }
    assert id !in ChainOf(base', original);
    assert id !in ChainOf(base, original);
    assert ChainOf(base, original) == ChainOf(base', original);
  }
}
