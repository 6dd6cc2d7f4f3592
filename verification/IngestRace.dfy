/**
 The race that leaves derived columns stale, for any three filings of the kind excluded by
 `IngestCoherence.HeadersNameOriginals`, and the exact condition it yields.
 */
module IngestRace {
  import opened Wrappers
  import opened Chains
  import opened ChainOrder
  import opened ConcurrentIngest
  import opened IngestCoherence

  lemma EmptyIsReachable(rank: Ranking, filings: Workload)
    ensures Reachable(rank, filings, EMPTY)
  {
    assert Run(rank, filings, [EMPTY]) && [EMPTY][|[EMPTY]| - 1] == EMPTY;
  }

  lemma OneMore(rank: Ranking, filings: Workload, s: State, a: Action)
    requires Reachable(rank, filings, s) && Enabled(filings, s, a)
    ensures Reachable(rank, filings, Next(rank, filings, s, a))
  {
    var s' := Next(rank, filings, s, a);
    assert Step(rank, filings, s, s');
    var run: seq<State> :| Run(rank, filings, run) && run[|run| - 1] == s;
    var longer := run + [s'];
    assert Run(rank, filings, longer) && longer[|longer| - 1] == s';
  }

  /** A filing not stored before, brought to the point of holding its chain's lock. */
  lemma RunToLocked(rank: Ranking, filings: Workload, s: State, txn: nat, id: int, row: Row)
    requires Reachable(rank, filings, s)
    requires (id, row) in filings && id !in s.base && txn !in s.txns
    requires forall u | u in s.txns :: s.txns[u].id != id
    requires Free(s, ChainKey(id, row))
    ensures Reachable(rank, filings,
              s.(txns := s.txns[txn := Txn(id, row, None, Stored, {ChainKey(id, row)}, map[])]))
  {
    var s1 := Next(rank, filings, s, Select(txn, id, row));
    OneMore(rank, filings, s, Select(txn, id, row));
    var s2 := Next(rank, filings, s1, Store(txn));
    OneMore(rank, filings, s1, Store(txn));
    assert s2.txns == s.txns[txn := Txn(id, row, None, Stored, {}, map[])];
    assert Free(s2, ChainKey(id, row));
    var s3 := Next(rank, filings, s2, TakeLock(txn));
    OneMore(rank, filings, s2, TakeLock(txn));
    assert {} + {ChainKey(id, row)} == {ChainKey(id, row)};
    assert s3 == s.(txns := s.txns[txn := Txn(id, row, None, Stored, {ChainKey(id, row)}, map[])]);
  }

  /** The same, brought to the point of committing. */
  lemma RunToResolved(rank: Ranking, filings: Workload, s: State, txn: nat, id: int, row: Row)
    requires Reachable(rank, filings, s)
    requires (id, row) in filings && id !in s.base && txn !in s.txns
    requires forall u | u in s.txns :: s.txns[u].id != id
    requires Free(s, ChainKey(id, row))
    ensures Reachable(rank, filings,
              s.(txns := s.txns[txn := Txn(id, row, None, ResolvedBoth, {ChainKey(id, row)},
                                           Updates(rank, s.base[id := row], ChainKey(id, row)))]))
  {
    RunToLocked(rank, filings, s, txn, id, row);
    var key := ChainKey(id, row);
    var s3 := s.(txns := s.txns[txn := Txn(id, row, None, Stored, {key}, map[])]);
    var s4 := Next(rank, filings, s3, ResolveNew(txn));
    OneMore(rank, filings, s3, ResolveNew(txn));
    var writes := Updates(rank, s.base[id := row], key);
    assert map[] + writes == writes;
    assert s4 == s.(txns := s.txns[txn := Txn(id, row, None, ResolvedNew, {key}, writes)]);
    var s5 := Next(rank, filings, s4, ResolveOld(txn));
    OneMore(rank, filings, s4, ResolveOld(txn));
    assert s5 == s.(txns := s.txns[txn := Txn(id, row, None, ResolvedBoth, {key}, writes)]);
  }

  /** Ingesting `k` alone, then `x` and `b` together, with `x` committing before `b`. */
  lemma RaceIsReachable(rank: Ranking, filings: Workload, b: int, rb: Row, k: int, rk: Row, x: int, rx: Row)
    returns (s: State)
    requires (b, rb) in filings && (k, rk) in filings && (x, rx) in filings
    requires AmendsAmendment(b, rb, k, rk, x, rx)
    ensures Reachable(rank, filings, s)
    ensures s.base == map[k := rk, x := rx, b := rb]
    ensures k in s.derived && s.derived[k] == rank(map[k := rk], k, k)
  {
    EmptyIsReachable(rank, filings);
    RunToResolved(rank, filings, EMPTY, 0, k, rk);
    var alone := EMPTY.(txns := map[0 := Txn(k, rk, None, ResolvedBoth, {x}, Updates(rank, map[k := rk], x))]);
    assert EMPTY.base[k := rk] == map[k := rk];
    OneMore(rank, filings, alone, Commit(0));
    var s1 := Next(rank, filings, alone, Commit(0));
    assert s1.base == map[k := rk] && s1.txns == map[];

    RunToResolved(rank, filings, s1, 1, x, rx);
    var tx := Txn(x, rx, None, ResolvedBoth, {x}, Updates(rank, s1.base[x := rx], x));
    var s2 := s1.(txns := s1.txns[1 := tx]);

    RunToResolved(rank, filings, s2, 2, b, rb);
    var seen := s1.base[b := rb];
    var tb := Txn(b, rb, None, ResolvedBoth, {k}, Updates(rank, seen, k));
    var s3 := s2.(txns := s2.txns[2 := tb]);
    assert k in Members(seen, k);
    UpdateIsExact(rank, seen, k, k);
    LoneChain(seen, k);
    assert tb.writes[k] == rank(map[k := rk], k, k);

    OneMore(rank, filings, s3, Commit(1));
    var s4 := Next(rank, filings, s3, Commit(1));
    assert s4.txns[2] == tb;
    OneMore(rank, filings, s4, Commit(2));
    s := Next(rank, filings, s4, Commit(2));
  }

  lemma ResolverRanksLoneAlike()
    ensures RanksLoneAlike(Resolver())
  {
    forall id: int, row: Row, row': Row | row.isAmendment && row'.isAmendment
      ensures Resolver()(map[id := row], id, id) == Resolver()(map[id := row'], id, id)
    {
      LoneRank(id, row);
      LoneRank(id, row');
    }
  }

  lemma LoneRank(id: int, row: Row)
    requires row.isAmendment
    ensures Resolver()(map[id := row], id, id) == Derived(0, [id], id, id, true)
  {
    var base: Base := map[id := row];
    assert OriginalOf(base, id) == id;
    LoneChain(base, id);
    LoneAmendment(base, id);
    assert Derive(Resolver(), base, id) == Resolver()(map[id := row], id, id);
  }

  lemma StaleRowIsIncoherent(rank: Ranking, s: State, k: int)
    requires k in s.base && k in s.derived && s.derived[k] != Derive(rank, s.base, k)
    ensures !Coherent(rank, s.base, s.derived)
  {
    assert DeriveAll(rank, s.base)[k] == Derive(rank, s.base, k);
  }

  /** After the race the filing in the middle is still marked a chain of its own, although the
      original it amends is stored. */
  lemma RaceLeavesStale(filings: Workload, b: int, rb: Row, k: int, rk: Row, x: int, rx: Row)
    returns (s: State)
    requires (b, rb) in filings && (k, rk) in filings && (x, rx) in filings
    requires AmendsAmendment(b, rb, k, rk, x, rx)
    ensures Reachable(Resolver(), filings, s)
    ensures k in s.base && OriginalOf(s.base, k) == x
    ensures k in s.derived && s.derived[k].unresolved && !Derive(Resolver(), s.base, k).unresolved
    ensures !Coherent(Resolver(), s.base, s.derived)
  {
    LoneRank(k, rk);
    var rank := Resolver();
    s := RaceIsReachable(rank, filings, b, rb, k, rk, x, rx);
    UnresolvedExactly(s.base, k);
    StaleRowIsIncoherent(rank, s, k);
  }

  /** Every reachable state has the right derived columns if and only if no filing in the workload
      amends an amendment of an original. */
  lemma CoherentExactly(filings: Workload)
    ensures HeadersNameOriginals(filings) <==>
            forall s: State | Reachable(Resolver(), filings, s) ::
              Coherent(Resolver(), s.base, s.derived)
  {
    if HeadersNameOriginals(filings) {
      ResolverRanksLoneAlike();
      forall s: State | Reachable(Resolver(), filings, s)
        ensures Coherent(Resolver(), s.base, s.derived)
      {
        ReachableIsCoherent(Resolver(), filings, s);
      }
    } else {
      var b, rb, k, rk, x, rx :|
        (b, rb) in filings && (k, rk) in filings && (x, rx) in filings && AmendsAmendment(b, rb, k, rk, x, rx);
      var s := RaceLeavesStale(filings, b, rb, k, rk, x, rx);
    }
  }
}
