/**
 Ingests running at the same time, as transactions of a READ COMMITTED database: each statement
 sees what is committed when it starts, plus the transaction's own writes, and the writes appear
 when the transaction commits. Chain locks are held to the end of the transaction.

 Two filings are never in flight under one id (the row is locked by `FOR UPDATE`; two first inserts
 of one id are excluded). Derived columns written by two transactions take the values of the one
 that commits last.

 `CoherentExactly` says for which sets of filings the derived columns are right in every reachable
 state; `SomeoneCanProceed` and `WaitsClimb` that waiting for chain locks never deadlocks.
 */
module ConcurrentIngest {
  import opened Wrappers
  import opened Chains

  /** How far a transaction has got, statement by statement. */
  datatype Phase = Selected | Stored | ResolvedNew | ResolvedBoth

  datatype Txn = Txn(id: int, row: Row, previous: Option<int>, phase: Phase,
                     locks: set<int>, writes: map<int, Derived>)

  datatype State = State(base: Base, derived: map<int, Derived>, txns: map<nat, Txn>)

  datatype Action =
    | Select(txn: nat, id: int, row: Row)
    | Store(txn: nat)
    | TakeLock(txn: nat)
    | ResolveNew(txn: nat)
    | ResolveOld(txn: nat)
    | Commit(txn: nat)
    | Abort(txn: nat)

  /** The filings that may be ingested, in any of their versions. */
  type Workload = set<(int, Row)>

  function NewKey(t: Txn): int {
    ChainKey(t.id, t.row)
  }

  /** The key of the chain the filing leaves, when it leaves one. */
  function OldKey(t: Txn): Option<int> {
    if t.previous.Some? && t.previous.value != NewKey(t) then t.previous else None
  }

  function Needed(t: Txn): set<int> {
    if OldKey(t).Some? then {NewKey(t), OldKey(t).value} else {NewKey(t)}
  }

  function Min(a: int, b: int): int {
    if a < b then a else b
  }

  function Max(a: int, b: int): int {
    if a < b then b else a
  }

  /** The lock asked for next: the smaller key first, then the larger. */
  function NextLock(t: Txn): Option<int> {
    var key := NewKey(t);
    match OldKey(t)
    case None => if key in t.locks then None else Some(key)
    case Some(oldKey) =>
      if Min(key, oldKey) !in t.locks then Some(Min(key, oldKey))
      else if Max(key, oldKey) !in t.locks then Some(Max(key, oldKey))
      else None
  }

  predicate Waiting(t: Txn) {
    t.phase.Stored? && NextLock(t).Some?
  }

  predicate Free(s: State, key: int) {
    forall t | t in s.txns :: key !in s.txns[t].locks
  }

  /** What the transaction's statements see once it has stored its row. */
  function View(s: State, t: Txn): Base {
    s.base[t.id := t.row]
  }

  predicate Enabled(filings: Workload, s: State, a: Action) {
    match a
    case Select(txn, id, row) =>
      txn !in s.txns && (id, row) in filings && forall u | u in s.txns :: s.txns[u].id != id
    case Store(txn) => txn in s.txns && s.txns[txn].phase.Selected?
    case TakeLock(txn) =>
      txn in s.txns && Waiting(s.txns[txn]) && Free(s, NextLock(s.txns[txn]).value)
    case ResolveNew(txn) => txn in s.txns && s.txns[txn].phase.Stored? && NextLock(s.txns[txn]).None?
    case ResolveOld(txn) => txn in s.txns && s.txns[txn].phase.ResolvedNew?
    case Commit(txn) => txn in s.txns && s.txns[txn].phase.ResolvedBoth?
    case Abort(txn) => txn in s.txns
  }

  function Next(rank: Ranking, filings: Workload, s: State, a: Action): State
    requires Enabled(filings, s, a)
  {
    match a
    case Select(txn, id, row) =>
      var previous := if id in s.base then Some(ChainKey(id, s.base[id])) else None;
      s.(txns := s.txns[txn := Txn(id, row, previous, Selected, {}, map[])])
    case Store(txn) =>
      s.(txns := s.txns[txn := s.txns[txn].(phase := Stored)])
    case TakeLock(txn) =>
      var t := s.txns[txn];
      s.(txns := s.txns[txn := t.(locks := t.locks + {NextLock(t).value})])
    case ResolveNew(txn) =>
      var t := s.txns[txn];
      s.(txns := s.txns[txn := t.(phase := ResolvedNew,
                                  writes := ResolveOne(rank, View(s, t), t.writes, NewKey(t)))])
    case ResolveOld(txn) =>
      var t := s.txns[txn];
      var writes := if OldKey(t).Some? then ResolveOne(rank, View(s, t), t.writes, OldKey(t).value) else t.writes;
      s.(txns := s.txns[txn := t.(phase := ResolvedBoth, writes := writes)])
    case Commit(txn) =>
      var t := s.txns[txn];
      State(View(s, t), s.derived + t.writes, s.txns - {txn})
    case Abort(txn) => s.(txns := s.txns - {txn})
  }

  const EMPTY := State(map[], map[], map[])

  ghost predicate Step(rank: Ranking, filings: Workload, s: State, s': State) {
    exists a: Action :: Enabled(filings, s, a) && s' == Next(rank, filings, s, a)
  }

  /** A run from the empty tables. */
  ghost predicate Run(rank: Ranking, filings: Workload, run: seq<State>) {
    && |run| > 0 && run[0] == EMPTY
    && forall i | 0 < i < |run| :: Step(rank, filings, run[i - 1], run[i])
  }

  ghost predicate Reachable(rank: Ranking, filings: Workload, s: State) {
    exists run: seq<State> :: Run(rank, filings, run) && run[|run| - 1] == s
  }

  // ----- What is always true, whatever is ingested -----

  ghost predicate RowsComeFrom(filings: Workload, s: State) {
    && (forall id | id in s.base :: (id, s.base[id]) in filings)
    && (forall t | t in s.txns :: (s.txns[t].id, s.txns[t].row) in filings)
  }

  /** One transaction per filing, which knows the key its stored row has. */
  ghost predicate RowsAreLocked(s: State) {
    && (forall t, u | t in s.txns && u in s.txns && t != u :: s.txns[t].id != s.txns[u].id)
    && (forall t | t in s.txns ::
          s.txns[t].previous ==
          (if s.txns[t].id in s.base then Some(ChainKey(s.txns[t].id, s.base[s.txns[t].id])) else None))
  }

  /** Chain locks: taken in ascending order, exclusive, and all held once resolving begins. */
  ghost predicate ChainsAreLocked(s: State) {
    && (forall t, u | t in s.txns && u in s.txns && t != u :: s.txns[t].locks !! s.txns[u].locks)
    && (forall t | t in s.txns :: LocksInOrder(s.txns[t]))
  }

  predicate LocksInOrder(t: Txn) {
    && t.locks <= Needed(t)
    && (t.phase.Selected? ==> t.locks == {} && t.writes == map[])
    && (t.phase.Stored? ==> t.writes == map[])
    && (t.phase.ResolvedNew? || t.phase.ResolvedBoth? ==> t.locks == Needed(t))
    && (NextLock(t).Some? ==> forall k | k in t.locks :: k < NextLock(t).value)
  }

  ghost predicate Orderly(filings: Workload, s: State) {
    RowsComeFrom(filings, s) && RowsAreLocked(s) && ChainsAreLocked(s)
  }

  lemma TakenInOrder(t: Txn)
    requires LocksInOrder(t) && Waiting(t)
    ensures LocksInOrder(t.(locks := t.locks + {NextLock(t).value}))
  {
  }

  lemma RowsStep(rank: Ranking, filings: Workload, s: State, a: Action)
    requires RowsComeFrom(filings, s) && RowsAreLocked(s) && Enabled(filings, s, a)
    ensures RowsComeFrom(filings, Next(rank, filings, s, a))
    ensures RowsAreLocked(Next(rank, filings, s, a))
  {
  }

  lemma LocksStep(rank: Ranking, filings: Workload, s: State, a: Action)
    requires ChainsAreLocked(s) && Enabled(filings, s, a)
    ensures ChainsAreLocked(Next(rank, filings, s, a))
  {
    var s' := Next(rank, filings, s, a);
    forall t | t in s'.txns
      ensures LocksInOrder(s'.txns[t])
    {
      if a.TakeLock? && a.txn == t {
        TakenInOrder(s.txns[t]);
      } else if a.ResolveNew? && a.txn == t {
        assert LocksInOrder(s.txns[t]);
      } else if t in s.txns {
        assert LocksInOrder(s.txns[t]);
      }
    }
  }

  lemma {:induction false} RunIsOrderly(rank: Ranking, filings: Workload, run: seq<State>, i: nat)
    requires Run(rank, filings, run) && i < |run|
    ensures Orderly(filings, run[i])
  {
    if i > 0 {
      RunIsOrderly(rank, filings, run, i - 1);
      assert Step(rank, filings, run[i - 1], run[i]);
      var a :| Enabled(filings, run[i - 1], a) && run[i] == Next(rank, filings, run[i - 1], a);
      RowsStep(rank, filings, run[i - 1], a);
      LocksStep(rank, filings, run[i - 1], a);
    }
  }

  lemma ReachableIsOrderly(rank: Ranking, filings: Workload, s: State)
    requires Reachable(rank, filings, s)
    ensures Orderly(filings, s)
  {
    var run: seq<State> :| Run(rank, filings, run) && run[|run| - 1] == s;
    RunIsOrderly(rank, filings, run, |run| - 1);
  }

  // ----- No deadlock among chain locks -----

  predicate WaitsFor(s: State, t: nat, u: nat) {
    && t in s.txns && u in s.txns && t != u
    && Waiting(s.txns[t]) && NextLock(s.txns[t]).value in s.txns[u].locks
  }

  /** Along the wait-for graph the awaited lock grows, so it has no cycle. */
  lemma WaitsClimb(filings: Workload, s: State, t: nat, u: nat)
    requires Orderly(filings, s) && WaitsFor(s, t, u) && Waiting(s.txns[u])
    ensures NextLock(s.txns[t]).value < NextLock(s.txns[u]).value
  {
    assert LocksInOrder(s.txns[u]);
  }

  /** A path of the wait-for graph. */
  predicate WaitPath(s: State, path: seq<nat>) {
    forall i | 0 < i < |path| :: WaitsFor(s, path[i - 1], path[i])
  }

  lemma {:induction false} NoWaitCycle(rank: Ranking, filings: Workload, s: State, path: seq<nat>)
    requires Reachable(rank, filings, s)
    requires |path| > 1 && WaitPath(s, path)
    ensures path[0] != path[|path| - 1]
  {
    ReachableIsOrderly(rank, filings, s);
    assert WaitsFor(s, path[|path| - 2], path[|path| - 1]);
    WaitPathClimbs(filings, s, path, |path| - 2);
    if Waiting(s.txns[path[|path| - 1]]) {
      WaitsClimb(filings, s, path[|path| - 2], path[|path| - 1]);
    }
  }

  lemma {:induction false} WaitPathClimbs(filings: Workload, s: State, path: seq<nat>, i: nat)
    requires Orderly(filings, s) && WaitPath(s, path) && i + 1 < |path|
    ensures WaitsFor(s, path[0], path[1]) && WaitsFor(s, path[i], path[i + 1])
    ensures NextLock(s.txns[path[0]]).value <= NextLock(s.txns[path[i]]).value
  {
    assert WaitsFor(s, path[0], path[1]) && WaitsFor(s, path[i], path[i + 1]);
    if i > 0 {
      WaitPathClimbs(filings, s, path, i - 1);
      WaitsClimb(filings, s, path[i - 1], path[i]);
    }
  }

  /** Among transactions that are all waiting, one waits for a transaction outside them or for
      nobody: a set of transactions never waits only for itself. */
  lemma {:induction false} SomeoneCanProceed(rank: Ranking, filings: Workload, s: State, blocked: set<nat>)
    returns (t: nat)
    requires Reachable(rank, filings, s)
    requires blocked != {} && blocked <= s.txns.Keys
    requires forall b | b in blocked :: Waiting(s.txns[b])
    ensures t in blocked && forall u | u in blocked :: !WaitsFor(s, t, u)
  {
    ReachableIsOrderly(rank, filings, s);
    t := HighestWaiter(s, blocked);
    forall u | u in blocked
      ensures !WaitsFor(s, t, u)
    {
      if WaitsFor(s, t, u) {
        WaitsClimb(filings, s, t, u);
      }
    }
  }

  lemma {:induction false} HighestWaiter(s: State, blocked: set<nat>) returns (t: nat)
    requires blocked != {} && blocked <= s.txns.Keys
    requires forall b | b in blocked :: Waiting(s.txns[b])
    ensures t in blocked && Waiting(s.txns[t])
    ensures forall b | b in blocked ::
              Waiting(s.txns[b]) && NextLock(s.txns[b]).value <= NextLock(s.txns[t]).value
    decreases |blocked|
  {
    assert (forall b :: b !in blocked) ==> blocked == {};
    var some :| some in blocked;
    var rest := blocked - {some};
    if rest == {} {
      t := some;
      assert blocked == {some};
    } else {
      t := HighestWaiter(s, rest);
      if NextLock(s.txns[t]).value < NextLock(s.txns[some]).value {
        t := some;
      }
      assert forall b | b in blocked :: b == some || b in rest;
    }
  }

  /** Work never gets stuck: while anything is in flight, some transaction can take its next step. */
  lemma NeverStuck(rank: Ranking, filings: Workload, s: State) returns (a: Action)
    requires Reachable(rank, filings, s) && s.txns.Keys != {}
    ensures Enabled(filings, s, a) && !a.Select? && !a.Abort?
  {
    ReachableIsOrderly(rank, filings, s);
    var blocked := set t | t in s.txns && Waiting(s.txns[t]);
    var t: nat;
    if blocked == {} {
      assert (forall u :: u !in s.txns.Keys) ==> s.txns.Keys == {};
      t :| t in s.txns;
      assert t !in blocked;
    } else {
      t := SomeoneCanProceed(rank, filings, s, blocked);
      if !Free(s, NextLock(s.txns[t]).value) {
        var u :| u in s.txns && NextLock(s.txns[t]).value in s.txns[u].locks;
        assert u != t;
        assert WaitsFor(s, t, u);
        assert u !in blocked;
        t := u;
      }
    }
    a := match s.txns[t].phase
      case Selected => Store(t)
      case Stored => if NextLock(s.txns[t]).Some? then TakeLock(t) else ResolveNew(t)
      case ResolvedNew => ResolveOld(t)
      case ResolvedBoth => Commit(t);
  }
}
