/**
 The locks on rows, beside those on chains. A transaction holds the row of its filing, when that
 was stored before, from its first statement on (`FOR UPDATE`), and every row it has recomputed,
 until it ends; recomputing a chain waits for all the rows of the chain.

 Chain locks are taken in order, row locks are not. `DeadlockExactly` says for which sets of
 filings a circle of waits can be reached.
 */
module RowLocks {
  import opened Wrappers
  import opened Chains
  import opened ConcurrentIngest
  import opened IngestCoherence

  // ----- Waiting for rows -----

  /** The key whose chain the transaction's next statement recomputes. */
  function Resolving(t: Txn): Option<int> {
    if t.phase.Stored? && NextLock(t).None? then Some(NewKey(t))
    else if t.phase.ResolvedNew? then OldKey(t)
    else None
  }

  /** The stored rows that statement writes, besides the transaction's own. */
  function RowsNeeded(s: State, t: Txn): set<int> {
    if Resolving(t).Some? then Members(View(s, t), Resolving(t).value) - {t.id} else {}
  }

  function RowsHeld(s: State, t: Txn): set<int> {
    (if t.id in s.base then {t.id} else {}) + t.writes.Keys
  }

  predicate WaitsForRow(s: State, t: nat, u: nat) {
    && t in s.txns && u in s.txns && t != u
    && !(RowsNeeded(s, s.txns[t]) !! RowsHeld(s, s.txns[u]))
  }

  predicate Waits(s: State, t: nat, u: nat) {
    WaitsFor(s, t, u) || WaitsForRow(s, t, u)
  }

  /** Transactions each waiting for the next, the last one being the first. */
  predicate WaitCircle(s: State, path: seq<nat>) {
    |path| > 1 && path[0] == path[|path| - 1] && forall i | 0 < i < |path| :: Waits(s, path[i - 1], path[i])
  }

  /** What a row lock held by another transaction holds up. */
  predicate Blocked(s: State, a: Action) {
    match a
    case Select(_, id, _) => exists u | u in s.txns :: id in s.txns[u].writes
    case ResolveNew(txn) => exists u | u in s.txns :: WaitsForRow(s, txn, u)
    case ResolveOld(txn) => exists u | u in s.txns :: WaitsForRow(s, txn, u)
    case _ => false
  }

  /** Runs in which every statement has the row locks it needs. */
  ghost predicate RowRun(rank: Ranking, filings: Workload, run: seq<State>) {
    && |run| > 0 && run[0] == EMPTY
    && forall i | 0 < i < |run| :: RowStep(rank, filings, run[i - 1], run[i])
  }

  ghost predicate RowStep(rank: Ranking, filings: Workload, s: State, s': State) {
    exists a: Action :: Enabled(filings, s, a) && !Blocked(s, a) && s' == Next(rank, filings, s, a)
  }

  ghost predicate RowReachable(rank: Ranking, filings: Workload, s: State) {
    exists run: seq<State> :: RowRun(rank, filings, run) && run[|run| - 1] == s
  }

  lemma RowReachableIsReachable(rank: Ranking, filings: Workload, s: State)
    requires RowReachable(rank, filings, s)
    ensures Reachable(rank, filings, s)
  {
    var run: seq<State> :| RowRun(rank, filings, run) && run[|run| - 1] == s;
    forall i | 0 < i < |run|
      ensures Step(rank, filings, run[i - 1], run[i])
    {
      assert RowStep(rank, filings, run[i - 1], run[i]);
    }
    assert Run(rank, filings, run);
  }

  // ----- Which sets of filings can close a circle -----

  /** Two filings with one chain key. */
  ghost predicate SharesKey(filings: Workload) {
    exists a, ra, b, rb | (a, ra) in filings && (b, rb) in filings :: a != b && ChainKey(a, ra) == ChainKey(b, rb)
  }

  /** Some version of `a` is an amendment that names `b`. */
  ghost predicate Names(filings: Workload, a: int, b: int) {
    a != b && exists row :: (a, row) in filings && ChainKey(a, row) == b
  }

  /** Filings each naming the next, the last one being the first. */
  ghost predicate NameCircle(filings: Workload, path: seq<int>) {
    |path| > 1 && path[0] == path[|path| - 1] && forall i | 0 < i < |path| :: Names(filings, path[i - 1], path[i])
  }

  ghost predicate CanClose(filings: Workload) {
    SharesKey(filings) || exists path :: NameCircle(filings, path)
  }

  // ----- Without such filings no circle is reached -----

  /** The row is a locked key, or has a version whose key is locked. */
  ghost predicate Keyed(filings: Workload, locks: set<int>, r: int) {
    r in locks || exists row :: (r, row) in filings && ChainKey(r, row) in locks
  }

  ghost predicate WritesAreKeyed(filings: Workload, s: State) {
    forall t, r | t in s.txns && r in s.txns[t].writes :: Keyed(filings, s.txns[t].locks, r)
  }

  lemma MembersAreKeyed(filings: Workload, s: State, t: Txn, key: int, r: int)
    requires RowsComeFrom(filings, s) && (t.id, t.row) in filings
    requires key in t.locks && r in Members(View(s, t), key)
    ensures Keyed(filings, t.locks, r)
  {
    GroupIsResolved(View(s, t), key);
    if r in Group(View(s, t), key) {
      assert (r, View(s, t)[r]) in filings;
    }
  }

  lemma WritesStep(rank: Ranking, filings: Workload, s: State, a: Action)
    requires Orderly(filings, s) && WritesAreKeyed(filings, s) && Enabled(filings, s, a)
    ensures WritesAreKeyed(filings, Next(rank, filings, s, a))
  {
    var s' := Next(rank, filings, s, a);
    forall t, r | t in s'.txns && r in s'.txns[t].writes
      ensures Keyed(filings, s'.txns[t].locks, r)
    {
      if t in s.txns && r in s.txns[t].writes {
        assert Keyed(filings, s.txns[t].locks, r);
      } else {
        assert a.ResolveNew? || a.ResolveOld?;
        var txn := s.txns[t];
        assert LocksInOrder(txn);
        if NextLock(txn).None? {
          AllLocksHeld(txn);
        }
        var key := if a.ResolveNew? then NewKey(txn) else OldKey(txn).value;
        MembersAreWritten(rank, View(s, txn), key);
        MembersAreKeyed(filings, s, txn, key, r);
      }
    }
  }

  lemma {:induction false} RunIsKeyed(rank: Ranking, filings: Workload, run: seq<State>, i: nat)
    requires Run(rank, filings, run) && i < |run|
    ensures WritesAreKeyed(filings, run[i])
  {
    if i > 0 {
      RunIsKeyed(rank, filings, run, i - 1);
      RunIsOrderly(rank, filings, run, i - 1);
      assert Step(rank, filings, run[i - 1], run[i]);
      var a :| Enabled(filings, run[i - 1], a) && run[i] == Next(rank, filings, run[i - 1], a);
      WritesStep(rank, filings, run[i - 1], a);
    }
  }

  /** Rows a transaction may hold in the middle of a statement: any that a chain it has locked
      makes it write. */
  function RowsMaybeHeld(s: State, t: Txn): set<int> {
    RowsHeld(s, t) + set key, r | key in t.locks && r in Members(View(s, t), key) :: r
  }

  predicate MayWait(s: State, t: nat, u: nat) {
    || WaitsFor(s, t, u)
    || (t in s.txns && u in s.txns && t != u && !(RowsNeeded(s, s.txns[t]) !! RowsMaybeHeld(s, s.txns[u])))
  }

  predicate MayWaitCircle(s: State, path: seq<nat>) {
    |path| > 1 && path[0] == path[|path| - 1] && forall i | 0 < i < |path| :: MayWait(s, path[i - 1], path[i])
  }

  lemma KeysOfTxn(filings: Workload, s: State, txn: nat, key: int)
    requires Orderly(filings, s) && txn in s.txns && key in Needed(s.txns[txn])
    ensures exists row :: (s.txns[txn].id, row) in filings && ChainKey(s.txns[txn].id, row) == key
  {
    var t := s.txns[txn];
    if key == NewKey(t) {
      assert (t.id, t.row) in filings && ChainKey(t.id, t.row) == key;
    } else {
      assert t.id in s.base;
      assert (t.id, s.base[t.id]) in filings && ChainKey(t.id, s.base[t.id]) == key;
    }
  }

  /** Without two filings of one key nobody waits for a chain lock. */
  lemma NoChainWaits(filings: Workload, s: State, t: nat, u: nat)
    requires Orderly(filings, s) && !SharesKey(filings)
    ensures !WaitsFor(s, t, u)
  {
    if WaitsFor(s, t, u) {
      var key := NextLock(s.txns[t]).value;
      assert LocksInOrder(s.txns[u]);
      KeysOfTxn(filings, s, t, key);
      KeysOfTxn(filings, s, u, key);
    }
  }

  /** The only row another transaction can hold up is then the one the key itself names. */
  lemma RowWaitedForIsKey(filings: Workload, s: State, t: nat, key: int, r: int)
    requires Orderly(filings, s) && !SharesKey(filings)
    requires t in s.txns && key in Needed(s.txns[t])
    requires r in Members(View(s, s.txns[t]), key) && r != s.txns[t].id
    ensures r == key
  {
    var view := View(s, s.txns[t]);
    GroupIsResolved(view, key);
    if r in Group(view, key) {
      KeysOfTxn(filings, s, t, key);
    }
  }

  lemma HeldIsOwnOrKey(filings: Workload, s: State, u: nat, r: int)
    requires Orderly(filings, s) && WritesAreKeyed(filings, s) && !SharesKey(filings)
    requires u in s.txns && r in RowsMaybeHeld(s, s.txns[u]) && r != s.txns[u].id
    ensures r in s.txns[u].locks
  {
    var t := s.txns[u];
    assert LocksInOrder(t);
    if r in t.writes {
      assert Keyed(filings, t.locks, r);
      if r !in t.locks {
        var row :| (r, row) in filings && ChainKey(r, row) in t.locks;
        KeysOfTxn(filings, s, u, ChainKey(r, row));
      }
    } else {
      var key :| key in t.locks && r in Members(View(s, t), key);
      RowWaitedForIsKey(filings, s, u, key, r);
    }
  }

  lemma ResolvingIsLocked(filings: Workload, s: State, txn: nat)
    requires Orderly(filings, s) && txn in s.txns && Resolving(s.txns[txn]).Some?
    ensures Resolving(s.txns[txn]).value in s.txns[txn].locks && Resolving(s.txns[txn]).value in Needed(s.txns[txn])
  {
    var t := s.txns[txn];
    assert LocksInOrder(t);
    if t.phase.Stored? {
      AllLocksHeld(t);
    }
  }

  /** So a transaction waits only for one whose filing it names. */
  lemma WaitsAreNames(filings: Workload, s: State, t: nat, u: nat)
    requires Orderly(filings, s) && WritesAreKeyed(filings, s) && !SharesKey(filings)
    requires MayWait(s, t, u)
    ensures t in s.txns && u in s.txns && Names(filings, s.txns[t].id, s.txns[u].id)
  {
    NoChainWaits(filings, s, t, u);
    var r :| r in RowsNeeded(s, s.txns[t]) && r in RowsMaybeHeld(s, s.txns[u]);
    var key := Resolving(s.txns[t]).value;
    ResolvingIsLocked(filings, s, t);
    RowWaitedForIsKey(filings, s, t, key, r);
    if r != s.txns[u].id {
      HeldIsOwnOrKey(filings, s, u, r);
      assert false;
    }
    KeysOfTxn(filings, s, t, key);
  }

  lemma CircleNeedsNames(rank: Ranking, filings: Workload, s: State, path: seq<nat>)
    requires Reachable(rank, filings, s) && MayWaitCircle(s, path)
    ensures CanClose(filings)
  {
    var run: seq<State> :| Run(rank, filings, run) && run[|run| - 1] == s;
    RunIsOrderly(rank, filings, run, |run| - 1);
    RunIsKeyed(rank, filings, run, |run| - 1);
    if !SharesKey(filings) {
      var ids := seq(|path|, i requires 0 <= i < |path| =>
        if path[i] in s.txns then s.txns[path[i]].id else 0);
      forall i | 0 < i < |ids|
        ensures Names(filings, ids[i - 1], ids[i])
      {
        WaitsAreNames(filings, s, path[i - 1], path[i]);
      }
      assert NameCircle(filings, ids);
    }
  }

  // ----- With such filings one is -----

  lemma OneMoreRow(rank: Ranking, filings: Workload, s: State, a: Action)
    requires RowReachable(rank, filings, s) && Enabled(filings, s, a) && !Blocked(s, a)
    ensures RowReachable(rank, filings, Next(rank, filings, s, a))
  {
    var s' := Next(rank, filings, s, a);
    assert RowStep(rank, filings, s, s');
    var run: seq<State> :| RowRun(rank, filings, run) && run[|run| - 1] == s;
    var longer := run + [s'];
    assert RowRun(rank, filings, longer) && longer[|longer| - 1] == s';
  }

  lemma EmptyIsRowReachable(rank: Ranking, filings: Workload)
    ensures RowReachable(rank, filings, EMPTY)
  {
    assert RowRun(rank, filings, [EMPTY]) && [EMPTY][|[EMPTY]| - 1] == EMPTY;
  }

  /** Nobody has recomputed a row yet. */
  predicate NothingWritten(s: State) {
    forall t | t in s.txns :: s.txns[t].writes == map[]
  }

  function PreviousKey(s: State, id: int): Option<int> {
    if id in s.base then Some(ChainKey(id, s.base[id])) else None
  }

  /** A filing selected and stored, waiting for its first chain lock. */
  lemma RunToStored(rank: Ranking, filings: Workload, s: State, txn: nat, id: int, row: Row) returns (s': State)
    requires RowReachable(rank, filings, s) && NothingWritten(s)
    requires (id, row) in filings && txn !in s.txns && forall u | u in s.txns :: s.txns[u].id != id
    ensures RowReachable(rank, filings, s') && NothingWritten(s')
    ensures s' == s.(txns := s.txns[txn := Txn(id, row, PreviousKey(s, id), Stored, {}, map[])])
  {
    OneMoreRow(rank, filings, s, Select(txn, id, row));
    var s1 := Next(rank, filings, s, Select(txn, id, row));
    OneMoreRow(rank, filings, s1, Store(txn));
    s' := Next(rank, filings, s1, Store(txn));
    assert s'.txns == s.txns[txn := Txn(id, row, PreviousKey(s, id), Stored, {}, map[])];
  }

  lemma RunToNextLock(rank: Ranking, filings: Workload, s: State, txn: nat) returns (s': State)
    requires RowReachable(rank, filings, s) && NothingWritten(s)
    requires txn in s.txns && Waiting(s.txns[txn]) && Free(s, NextLock(s.txns[txn]).value)
    ensures RowReachable(rank, filings, s') && NothingWritten(s')
    ensures var t := s.txns[txn]; s' == s.(txns := s.txns[txn := t.(locks := t.locks + {NextLock(t).value})])
  {
    OneMoreRow(rank, filings, s, TakeLock(txn));
    s' := Next(rank, filings, s, TakeLock(txn));
  }

  /** A filing not stored before, ingested while nothing else is. */
  lemma IngestAlone(rank: Ranking, filings: Workload, s: State, id: int, row: Row) returns (s': State)
    requires RowReachable(rank, filings, s) && s.txns == map[]
    requires (id, row) in filings && id !in s.base
    ensures RowReachable(rank, filings, s') && s'.txns == map[] && s'.base == s.base[id := row]
  {
    var s1 := RunToStored(rank, filings, s, 0, id, row);
    var s2 := RunToNextLock(rank, filings, s1, 0);
    assert s2.txns.Keys == {0};
    OneMoreRow(rank, filings, s2, ResolveNew(0));
    var s3 := Next(rank, filings, s2, ResolveNew(0));
    assert s3.txns.Keys == {0};
    OneMoreRow(rank, filings, s3, ResolveOld(0));
    var s4 := Next(rank, filings, s3, ResolveOld(0));
    OneMoreRow(rank, filings, s4, Commit(0));
    s' := Next(rank, filings, s4, Commit(0));
    assert s'.txns.Keys == {};
  }

  /** Two filings of one key: re-ingesting the first while the second is ingested lets each wait for
      the other. An amendment and its original are such a pair. */
  lemma SharedKeyCloses(rank: Ranking, filings: Workload, m: int, rm: Row, o: int, ro: Row) returns (s: State)
    requires o != m && (o, ro) in filings && (m, rm) in filings && ChainKey(o, ro) == ChainKey(m, rm)
    ensures RowReachable(rank, filings, s)
    ensures WaitsForRow(s, 0, 1) && WaitsFor(s, 1, 0)
    ensures s.txns[0].id == o && s.txns[0].row == ro && s.txns[1].id == m && s.txns[1].row == rm
  {
    var key := ChainKey(o, ro);
    EmptyIsRowReachable(rank, filings);
    var s1 := IngestAlone(rank, filings, EMPTY, m, rm);
    var s2 := RunToStored(rank, filings, s1, 0, o, ro);
    var s3 := RunToNextLock(rank, filings, s2, 0);
    s := RunToStored(rank, filings, s3, 1, m, rm);
    assert s.txns[0] == Txn(o, ro, None, Stored, {key}, map[]);
    assert s.txns[1] == Txn(m, rm, Some(key), Stored, {}, map[]);
    GroupIsResolved(View(s, s.txns[0]), key);
    assert m in RowsNeeded(s, s.txns[0]) && m in RowsHeld(s, s.txns[1]);
  }

  /** Re-ingesting an amendment while its original is ingested. */
  lemma RowLocksCanClose(rank: Ranking, filings: Workload, o: int, ro: Row, m: int, rm: Row) returns (s: State)
    requires o != m && (o, ro) in filings && (m, rm) in filings
    requires !ro.isAmendment && rm.isAmendment && rm.amends == Some(o)
    ensures RowReachable(rank, filings, s)
    ensures WaitsForRow(s, 0, 1) && WaitsFor(s, 1, 0)
  {
    s := SharedKeyCloses(rank, filings, m, rm, o, ro);
  }

  /** Two moves between the same pair of chains, which taking the chain locks in order is for. */
  lemma TwoMovesCanClose(rank: Ranking, filings: Workload, a: int, ra: Row, ra': Row, b: int, rb: Row, rb': Row)
    returns (s: State)
    requires a != b && {(a, ra), (a, ra'), (b, rb), (b, rb')} <= filings
    requires ChainKey(a, ra) == ChainKey(b, rb') && ChainKey(b, rb) == ChainKey(a, ra')
    requires ChainKey(a, ra) != ChainKey(b, rb)
    ensures RowReachable(rank, filings, s)
    ensures WaitsForRow(s, 0, 1) && WaitsFor(s, 1, 0)
    ensures s.txns[0].id == a && OldKey(s.txns[0]) == Some(ChainKey(a, ra)) && NewKey(s.txns[0]) == ChainKey(b, rb)
    ensures s.txns[1].id == b && OldKey(s.txns[1]) == Some(ChainKey(b, rb)) && NewKey(s.txns[1]) == ChainKey(a, ra)
  {
    var four := {(a, ra), (a, ra'), (b, rb), (b, rb')};
    assert (a, ra) in four && (a, ra') in four && (b, rb) in four && (b, rb') in four;
    EmptyIsRowReachable(rank, filings);
    var s1 := IngestAlone(rank, filings, EMPTY, a, ra);
    var s2 := IngestAlone(rank, filings, s1, b, rb);
    var s3 := RunToBothLocks(rank, filings, s2, a, ra');
    s := RunToStored(rank, filings, s3, 1, b, rb');
    assert s.txns[0] == s3.txns[0];
    GroupIsResolved(View(s, s.txns[0]), ChainKey(b, rb));
    assert b in RowsNeeded(s, s.txns[0]) && b in RowsHeld(s, s.txns[1]);
  }

  /** A filing moved to another chain, holding the locks on both. */
  lemma RunToBothLocks(rank: Ranking, filings: Workload, s: State, id: int, row: Row) returns (s': State)
    requires RowReachable(rank, filings, s) && s.txns == map[] && (id, row) in filings
    requires id in s.base && ChainKey(id, s.base[id]) != ChainKey(id, row)
    ensures RowReachable(rank, filings, s') && NothingWritten(s') && s'.base == s.base
    ensures var previous, key := ChainKey(id, s.base[id]), ChainKey(id, row);
            s'.txns == map[0 := Txn(id, row, Some(previous), Stored, {previous, key}, map[])]
  {
    var s1 := RunToStored(rank, filings, s, 0, id, row);
    var previous, key := ChainKey(id, s.base[id]), ChainKey(id, row);
    assert s1.txns[0] == Txn(id, row, Some(previous), Stored, {}, map[]);
    var s2 := RunToNextLock(rank, filings, s1, 0);
    assert s2.txns[0].locks == {Min(key, previous)};
    s' := RunToNextLock(rank, filings, s2, 0);
    assert s'.txns[0].locks == {previous, key};
    assert s'.txns.Keys == {0};
  }

  // ----- A circle of names -----

  /** A circle without repetition, first to last; the last names the first. */
  function After(ids: seq<int>, i: nat): int
    requires i < |ids|
  {
    ids[NextIndex(|ids|, i)]
  }

  function NextIndex(n: nat, i: nat): (j: nat)
    requires i < n
    ensures j < n && (n > 1 ==> j != i)
  {
    if i + 1 < n then i + 1 else 0
  }

  ghost predicate SimpleCircle(filings: Workload, ids: seq<int>, rows: seq<Row>) {
    && |ids| == |rows| >= 2
    && (forall i, j | 0 <= i < j < |ids| :: ids[i] != ids[j])
    && (forall i | 0 <= i < |ids| :: (ids[i], rows[i]) in filings && ChainKey(ids[i], rows[i]) == After(ids, i))
  }

  lemma {:induction false} CircleHasSimple(filings: Workload, path: seq<int>) returns (ids: seq<int>, rows: seq<Row>)
    requires NameCircle(filings, path)
    ensures SimpleCircle(filings, ids, rows)
    decreases |path|
  {
    if i, j :| 0 <= i < j < |path| - 1 && path[i] == path[j] {
      var shorter := path[i..j + 1];
      forall k | 0 < k < |shorter|
        ensures Names(filings, shorter[k - 1], shorter[k])
      {
        assert Names(filings, path[i + k - 1], path[i + k]);
      }
      ids, rows := CircleHasSimple(filings, shorter);
    } else {
      ids := path[..|path| - 1];
      assert Names(filings, path[1 - 1], path[1]);
      forall i | 0 <= i < |ids|
        ensures Names(filings, ids[i], After(ids, i))
      {
        assert Names(filings, path[i + 1 - 1], path[i + 1]);
      }
      var next := seq(|ids|, i requires 0 <= i < |ids| => After(ids, i));
      rows := NamingRows(filings, ids, next);
      assert forall i | 0 <= i < |ids| :: next[i] == After(ids, i);
    }
  }

  lemma {:induction false} NamingRows(filings: Workload, ids: seq<int>, next: seq<int>) returns (rows: seq<Row>)
    requires |ids| == |next| && forall i | 0 <= i < |ids| :: Names(filings, ids[i], next[i])
    ensures |rows| == |ids|
    ensures forall i | 0 <= i < |ids| :: (ids[i], rows[i]) in filings && ChainKey(ids[i], rows[i]) == next[i]
    decreases |ids|
  {
    if ids == [] {
      rows := [];
    } else {
      var n := |ids| - 1;
      var before := NamingRows(filings, ids[..n], next[..n]);
      assert Names(filings, ids[n], next[n]);
      var row :| (ids[n], row) in filings && ChainKey(ids[n], row) == next[n];
      rows := before + [row];
    }
  }

  /** The first `n` filings of the circle are stored, each in the version that names the next. */
  predicate StoredUpTo(ids: seq<int>, rows: seq<Row>, n: nat, base: Base)
    requires n <= |ids| == |rows|
  {
    && (forall i | 0 <= i < n :: ids[i] in base && base[ids[i]] == rows[i])
    && (forall i | n <= i < |ids| :: ids[i] !in base)
  }

  lemma {:induction false} CircleIsStored(rank: Ranking, filings: Workload, ids: seq<int>, rows: seq<Row>, n: nat)
    returns (s: State)
    requires SimpleCircle(filings, ids, rows) && n <= |ids|
    ensures RowReachable(rank, filings, s) && s.txns == map[] && StoredUpTo(ids, rows, n, s.base)
  {
    if n == 0 {
      EmptyIsRowReachable(rank, filings);
      s := EMPTY;
    } else {
      var before := CircleIsStored(rank, filings, ids, rows, n - 1);
      assert (ids[n - 1], rows[n - 1]) in filings;
      s := IngestAlone(rank, filings, before, ids[n - 1], rows[n - 1]);
      StoresOneMore(ids, rows, n - 1, before.base);
    }
  }

  lemma StoresOneMore(ids: seq<int>, rows: seq<Row>, n: nat, base: Base)
    requires n < |ids| == |rows| && StoredUpTo(ids, rows, n, base)
    requires forall i, j | 0 <= i < j < |ids| :: ids[i] != ids[j]
    ensures StoredUpTo(ids, rows, n + 1, base[ids[n] := rows[n]])
  {
  }

  /** Transaction `i` has stored filing `i` again and holds the lock on the filing it names. */
  function Holder(ids: seq<int>, rows: seq<Row>, i: nat): Txn
    requires i < |ids| == |rows|
  {
    Txn(ids[i], rows[i], Some(After(ids, i)), Stored, {After(ids, i)}, map[])
  }

  predicate HoldUpTo(ids: seq<int>, rows: seq<Row>, n: nat, s: State)
    requires n <= |ids| == |rows|
  {
    && StoredUpTo(ids, rows, |ids|, s.base)
    && (forall t | t in s.txns :: t < n)
    && (forall i: nat | i < n :: i in s.txns && s.txns[i] == Holder(ids, rows, i))
  }

  lemma {:induction false} CircleIsHeld(rank: Ranking, filings: Workload, ids: seq<int>, rows: seq<Row>, n: nat)
    returns (s: State)
    requires SimpleCircle(filings, ids, rows) && n <= |ids|
    ensures RowReachable(rank, filings, s) && NothingWritten(s) && HoldUpTo(ids, rows, n, s)
  {
    if n == 0 {
      s := CircleIsStored(rank, filings, ids, rows, |ids|);
    } else {
      var before := CircleIsHeld(rank, filings, ids, rows, n - 1);
      s := OneMoreHolder(rank, filings, ids, rows, n - 1, before);
    }
  }

  lemma OneMoreHolder(rank: Ranking, filings: Workload, ids: seq<int>, rows: seq<Row>, n: nat, before: State)
    returns (s: State)
    requires SimpleCircle(filings, ids, rows) && n < |ids|
    requires RowReachable(rank, filings, before) && NothingWritten(before) && HoldUpTo(ids, rows, n, before)
    ensures RowReachable(rank, filings, s) && NothingWritten(s) && HoldUpTo(ids, rows, n + 1, s)
  {
    NextIsFree(ids, rows, n, before);
    s := RunToOnlyLock(rank, filings, before, n, ids[n], rows[n]);
    HoldsOneMore(ids, rows, n, before, s);
  }

  /** A stored filing taken up again under the same key. */
  lemma RunToOnlyLock(rank: Ranking, filings: Workload, s: State, txn: nat, id: int, row: Row) returns (s': State)
    requires RowReachable(rank, filings, s) && NothingWritten(s)
    requires (id, row) in filings && txn !in s.txns && forall u | u in s.txns :: s.txns[u].id != id
    requires PreviousKey(s, id) == Some(ChainKey(id, row)) && Free(s, ChainKey(id, row))
    ensures RowReachable(rank, filings, s') && NothingWritten(s')
    ensures var key := ChainKey(id, row);
            s' == s.(txns := s.txns[txn := Txn(id, row, Some(key), Stored, {key}, map[])])
  {
    var key := ChainKey(id, row);
    var s1 := RunToStored(rank, filings, s, txn, id, row);
    assert s1.txns[txn] == Txn(id, row, Some(key), Stored, {}, map[]);
    s' := RunToNextLock(rank, filings, s1, txn);
    assert {} + {key} == {key};
    assert s'.txns == s.txns[txn := Txn(id, row, Some(key), Stored, {key}, map[])];
  }

  lemma HoldsOneMore(ids: seq<int>, rows: seq<Row>, n: nat, before: State, s: State)
    requires n < |ids| == |rows| && HoldUpTo(ids, rows, n, before) && s.base == before.base
    requires s.txns == before.txns[n := Holder(ids, rows, n)]
    ensures HoldUpTo(ids, rows, n + 1, s)
  {
  }

  lemma NextIsFree(ids: seq<int>, rows: seq<Row>, n: nat, s: State)
    requires n < |ids| == |rows| && (forall i, j | 0 <= i < j < |ids| :: ids[i] != ids[j])
    requires HoldUpTo(ids, rows, n, s)
    ensures Free(s, After(ids, n)) && forall t | t in s.txns :: t != n && s.txns[t].id != ids[n]
  {
    forall t | t in s.txns
      ensures After(ids, n) !in s.txns[t].locks && s.txns[t].id != ids[n]
    {
      assert s.txns[t] == Holder(ids, rows, t);
    }
  }

  /** Each filing's recompute needs the row of the one it names, which cannot be attached. */
  lemma HolderWaits(filings: Workload, ids: seq<int>, rows: seq<Row>, s: State, i: nat)
    requires SimpleCircle(filings, ids, rows) && HoldUpTo(ids, rows, |ids|, s) && i < |ids|
    ensures WaitsForRow(s, i, NextIndex(|ids|, i))
  {
    var j := NextIndex(|ids|, i);
    var k := NextIndex(|ids|, j);
    HeldAt(filings, ids, rows, s, i);
    HeldAt(filings, ids, rows, s, j);
    HeldAt(filings, ids, rows, s, k);
    WaitsForNamed(s, i, j, ids[k]);
  }

  lemma HeldAt(filings: Workload, ids: seq<int>, rows: seq<Row>, s: State, i: nat)
    requires SimpleCircle(filings, ids, rows) && HoldUpTo(ids, rows, |ids|, s) && i < |ids|
    ensures i in s.txns && s.txns[i] == Holder(ids, rows, i)
    ensures ids[i] in s.base && s.base[ids[i]] == rows[i] && ChainKey(ids[i], rows[i]) == After(ids, i) != ids[i]
  {
    var j := NextIndex(|ids|, i);
    assert if i < j then ids[i] != ids[j] else ids[j] != ids[i];
  }

  lemma WaitsForNamed(s: State, i: nat, j: nat, c: int)
    requires i in s.txns && j in s.txns && i != j
    requires var t := s.txns[i];
             t.id in s.base && s.base[t.id] == t.row && t.phase.Stored? && NextLock(t).None? && NewKey(t) == s.txns[j].id
    requires var b := s.txns[j].id; b in s.base && b != s.txns[i].id && ChainKey(b, s.base[b]) == c != b
    requires c in s.base && ChainKey(c, s.base[c]) != c
    ensures WaitsForRow(s, i, j)
  {
    var b := s.txns[j].id;
    assert View(s, s.txns[i]) == s.base;
    NamedIsMember(s.base, b, c);
    assert b in RowsNeeded(s, s.txns[i]) && b in RowsHeld(s, s.txns[j]);
  }

  lemma NamedIsMember(view: Base, a: int, b: int)
    requires a in view && b in view && a != b && ChainKey(a, view[a]) == b && ChainKey(b, view[b]) != b
    ensures a in Members(view, a)
  {
    assert OriginalOf(view, a) == a;
  }

  lemma NameCircleCloses(rank: Ranking, filings: Workload, path: seq<int>) returns (s: State, waits: seq<nat>)
    requires NameCircle(filings, path)
    ensures RowReachable(rank, filings, s) && WaitCircle(s, waits)
  {
    var ids, rows := CircleHasSimple(filings, path);
    s := CircleIsHeld(rank, filings, ids, rows, |ids|);
    waits := HoldersWait(filings, ids, rows, s);
  }

  lemma HoldersWait(filings: Workload, ids: seq<int>, rows: seq<Row>, s: State) returns (waits: seq<nat>)
    requires SimpleCircle(filings, ids, rows) && HoldUpTo(ids, rows, |ids|, s)
    ensures WaitCircle(s, waits)
  {
    forall i: nat | i < |ids|
      ensures WaitsForNext(s, |ids|, i)
    {
      HolderWaits(filings, ids, rows, s, i);
    }
    waits := CircleOf(s, |ids|);
  }

  predicate WaitsForNext(s: State, n: nat, i: nat)
    requires i < n
  {
    WaitsForRow(s, i, NextIndex(n, i))
  }

  lemma CircleOf(s: State, n: nat) returns (waits: seq<nat>)
    requires n > 0 && forall i: nat | i < n :: WaitsForNext(s, n, i)
    ensures WaitCircle(s, waits)
  {
    waits := seq(n + 1, i requires 0 <= i < n + 1 => if i < n then i else 0);
    forall i | 0 < i < |waits|
      ensures Waits(s, waits[i - 1], waits[i])
    {
      assert WaitsForNext(s, n, i - 1);
    }
  }

  // ----- Exactly when ingests can deadlock -----

  ghost predicate Deadlocks(rank: Ranking, filings: Workload) {
    exists s, path :: RowReachable(rank, filings, s) && WaitCircle(s, path)
  }

  /** A circle that a statement stopped half-way could be in, row locks obeyed or not. */
  ghost predicate MayDeadlock(rank: Ranking, filings: Workload) {
    exists s, path :: Reachable(rank, filings, s) && MayWaitCircle(s, path)
  }

  /** Ingests of a set of filings can reach a circle of waits for chain locks and rows if and only
      if two of the filings have one chain key, or some of them name each other in a circle. Rows
      locked by a statement not yet finished make no difference. */
  lemma DeadlockExactly(rank: Ranking, filings: Workload)
    ensures Deadlocks(rank, filings) <==> CanClose(filings)
    ensures MayDeadlock(rank, filings) <==> CanClose(filings)
  {
    if SharesKey(filings) {
      var a, ra, b, rb :| (a, ra) in filings && (b, rb) in filings && a != b && ChainKey(a, ra) == ChainKey(b, rb);
      var s := SharedKeyCloses(rank, filings, a, ra, b, rb);
      assert WaitCircle(s, [0, 1, 0]);
    } else if path :| NameCircle(filings, path) {
      var s, waits := NameCircleCloses(rank, filings, path);
      assert WaitCircle(s, waits);
    }
    if Deadlocks(rank, filings) {
      var s, path :| RowReachable(rank, filings, s) && WaitCircle(s, path);
      RowReachableIsReachable(rank, filings, s);
      CircleMayBe(s, path);
    }
    if MayDeadlock(rank, filings) {
      var s, path :| Reachable(rank, filings, s) && MayWaitCircle(s, path);
      CircleNeedsNames(rank, filings, s, path);
    }
  }

  lemma CircleMayBe(s: State, path: seq<nat>)
    requires WaitCircle(s, path)
    ensures MayWaitCircle(s, path)
  {
    forall i | 0 < i < |path|
      ensures MayWait(s, path[i - 1], path[i])
    {
      assert Waits(s, path[i - 1], path[i]);
    }
  }
}
