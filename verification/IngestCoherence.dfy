/**
 When the derived columns are right in every state concurrent ingests can reach.

 The recompute of a chain also rewrites the filing its key names when that filing is itself an
 amendment that could not be attached. That row belongs to another key, whose lock is not held.
 So the derived columns stay right for every interleaving exactly when no filing that amends an
 amendment of an original is ever ingested (`CoherentExactly`).
 */
module IngestCoherence {
  import opened Wrappers
  import opened Chains
  import opened ConcurrentIngest

  /** `b` amends `k`, `k` amends `x`, and `x` is an original; three different filings. */
  predicate AmendsAmendment(b: int, rb: Row, k: int, rk: Row, x: int, rx: Row) {
    && b != k && k != x && b != x
    && rb.isAmendment && rb.amends == Some(k)
    && rk.isAmendment && rk.amends == Some(x)
    && !rx.isAmendment
  }

  ghost predicate HeadersNameOriginals(filings: Workload) {
    forall b, rb, k, rk, x, rx |
      (b, rb) in filings && (k, rk) in filings && (x, rx) in filings :: !AmendsAmendment(b, rb, k, rk, x, rx)
  }

  /** A lone amendment is ranked alike whatever its header says. */
  ghost predicate RanksLoneAlike(rank: Ranking) {
    forall id: int, row: Row, row': Row | row.isAmendment && row'.isAmendment ::
      rank(map[id := row], id, id) == rank(map[id := row'], id, id)
  }

  ghost predicate WrittenRowIsRight(rank: Ranking, view: Base, t: Txn, g: int)
    requires g in t.writes
  {
    && g in view && t.writes[g] == Derive(rank, view, g)
    && (ChainKey(g, view[g]) in t.locks || (g in t.locks && g != t.id))
  }

  /** What a transaction is about to write is right for what it would commit now. */
  ghost predicate WritesAreRight(rank: Ranking, view: Base, t: Txn) {
    && (forall g | g in t.writes :: WrittenRowIsRight(rank, view, t, g))
    && (t.phase.ResolvedNew? || t.phase.ResolvedBoth? ==> Group(view, NewKey(t)) <= t.writes.Keys)
    && (t.phase.ResolvedBoth? && OldKey(t).Some? ==> Group(view, OldKey(t).value) <= t.writes.Keys)
  }

  ghost predicate Right(rank: Ranking, s: State) {
    && Coherent(rank, s.base, s.derived)
    && forall t | t in s.txns :: WritesAreRight(rank, View(s, s.txns[t]), s.txns[t])
  }

  lemma LoneChain(base: Base, id: int)
    requires id in base && base[id].isAmendment && OriginalOf(base, id) == id
    ensures ChainOf(base, id) == map[id := base[id]]
  {
  }

  /** A row written outside the locked keys is a lone amendment, now and later. */
  lemma ForeignIsLone(filings: Workload, s: State, txn: nat, g: int)
    requires Orderly(filings, s) && HeadersNameOriginals(filings)
    requires txn in s.txns && g in s.txns[txn].locks && g != s.txns[txn].id
    requires s.txns[txn].locks == Needed(s.txns[txn])
    requires g in View(s, s.txns[txn]) && ChainKey(g, View(s, s.txns[txn])[g]) !in s.txns[txn].locks
    ensures View(s, s.txns[txn])[g].isAmendment && OriginalOf(View(s, s.txns[txn]), g) == g
  {
    var t := s.txns[txn];
    var view := View(s, t);
    var x := ChainKey(g, view[g]);
    if Attachable(view, x) {
      var rb := if NewKey(t) == g then t.row else s.base[t.id];
      assert (t.id, rb) in filings && (g, s.base[g]) in filings && (x, s.base[x]) in filings;
      assert AmendsAmendment(t.id, rb, g, s.base[g], x, s.base[x]);
      assert false;
    }
  }

  lemma AllLocksHeld(t: Txn)
    requires LocksInOrder(t) && NextLock(t).None?
    ensures t.locks == Needed(t)
  {
  }

  /** One resolve statement adds only right values. */
  lemma ResolveIsRight(rank: Ranking, view: Base, t: Txn, key: int, g: int)
    requires t.locks == Needed(t) && key in Needed(t) && t.id in view && view[t.id] == t.row
    requires forall h | h in t.writes :: WrittenRowIsRight(rank, view, t, h)
    requires g in ResolveOne(rank, view, t.writes, key)
    ensures WrittenRowIsRight(rank, view, t.(writes := ResolveOne(rank, view, t.writes, key)), g)
  {
    MembersAreWritten(rank, view, key);
    GroupIsResolved(view, key);
    if g in Members(view, key) {
      UpdateIsExact(rank, view, key, g);
    }
  }

  lemma OwnResolveIsRight(rank: Ranking, view: Base, t: Txn, key: int)
    requires t.locks == Needed(t) && key in Needed(t) && t.id in view && view[t.id] == t.row
    requires forall g | g in t.writes :: WrittenRowIsRight(rank, view, t, g)
    ensures forall g | g in ResolveOne(rank, view, t.writes, key) ::
              WrittenRowIsRight(rank, view, t.(writes := ResolveOne(rank, view, t.writes, key)), g)
    ensures Group(view, key) <= ResolveOne(rank, view, t.writes, key).Keys
  {
    forall g | g in ResolveOne(rank, view, t.writes, key)
      ensures WrittenRowIsRight(rank, view, t.(writes := ResolveOne(rank, view, t.writes, key)), g)
    {
      ResolveIsRight(rank, view, t, key, g);
    }
    MembersAreWritten(rank, view, key);
    GroupIsResolved(view, key);
  }

  /** A lone amendment keeps its columns. */
  lemma LoneKeepsColumns(rank: Ranking, view: Base, view': Base, t: Txn, g: int)
    requires RanksLoneAlike(rank) && g in t.writes && WrittenRowIsRight(rank, view, t, g)
    requires view[g].isAmendment && OriginalOf(view, g) == g && ChainKey(g, view[g]) !in t.locks
    requires g in view' && view'[g].isAmendment && OriginalOf(view', g) == g
    ensures WrittenRowIsRight(rank, view', t, g)
  {
    LoneChain(view, g);
    LoneChain(view', g);
  }

  /** A commit by `u` changes nothing that another transaction `t` has prepared. */
  lemma OthersCommitKeepsRow(rank: Ranking, filings: Workload, s: State, u: nat, txn: nat, g: int)
    requires Orderly(filings, s) && Enabled(filings, s, Commit(u)) && Right(rank, s)
    requires HeadersNameOriginals(filings) && RanksLoneAlike(rank)
    requires txn in s.txns && txn != u && g in s.txns[txn].writes
    ensures var s' := Next(rank, filings, s, Commit(u));
            WrittenRowIsRight(rank, View(s', s.txns[txn]), s.txns[txn], g)
  {
    var t, other := s.txns[txn], s.txns[u];
    var view := View(s, t);
    CommitView(rank, filings, s, u, txn);
    assert WritesAreRight(rank, view, t) && WrittenRowIsRight(rank, view, t, g);
    assert t.phase.ResolvedNew? || t.phase.ResolvedBoth?;
    if ChainKey(g, view[g]) in t.locks {
      OnlyTwoGroupsChange(rank, view, other.id, other.row, g);
    } else {
      var s' := Next(rank, filings, s, Commit(u));
      ForeignIsLone(filings, s, txn, g);
      CommitIsOrderly(rank, filings, s, u);
      ForeignIsLone(filings, s', txn, g);
      LoneKeepsColumns(rank, view, View(s', t), t, g);
    }
  }

  lemma CommitIsOrderly(rank: Ranking, filings: Workload, s: State, u: nat)
    requires Orderly(filings, s) && Enabled(filings, s, Commit(u))
    ensures Orderly(filings, Next(rank, filings, s, Commit(u)))
  {
    RowsStep(rank, filings, s, Commit(u));
    LocksStep(rank, filings, s, Commit(u));
  }

  lemma CommitView(rank: Ranking, filings: Workload, s: State, u: nat, txn: nat)
    requires Orderly(filings, s) && Enabled(filings, s, Commit(u)) && txn in s.txns && txn != u
    ensures var t, other := s.txns[txn], s.txns[u];
            && View(Next(rank, filings, s, Commit(u)), t) == View(s, t)[other.id := other.row]
            && t.locks !! other.locks && LocksInOrder(t) && LocksInOrder(other)
            && ChainKey(other.id, other.row) in other.locks
  {
    var t, other := s.txns[txn], s.txns[u];
    assert t.id != other.id && t.locks !! other.locks && LocksInOrder(t) && LocksInOrder(other);
  }

  lemma OthersCommitKeeps(rank: Ranking, filings: Workload, s: State, u: nat, txn: nat)
    requires Orderly(filings, s) && Enabled(filings, s, Commit(u)) && Right(rank, s)
    requires HeadersNameOriginals(filings) && RanksLoneAlike(rank)
    requires txn in s.txns && txn != u
    ensures var s' := Next(rank, filings, s, Commit(u));
            WritesAreRight(rank, View(s', s.txns[txn]), s.txns[txn])
  {
    var t, other := s.txns[txn], s.txns[u];
    forall g | g in t.writes
      ensures WrittenRowIsRight(rank, View(Next(rank, filings, s, Commit(u)), t), t, g)
    {
      OthersCommitKeepsRow(rank, filings, s, u, txn, g);
    }
    CommitView(rank, filings, s, u, txn);
    GroupsStayWritten(rank, View(s, t), other, t);
  }

  lemma GroupsStayWritten(rank: Ranking, view: Base, other: Txn, t: Txn)
    requires WritesAreRight(rank, view, t) && LocksInOrder(t) && LocksInOrder(other) && t.locks !! other.locks
    requires ChainKey(other.id, other.row) in other.locks
    ensures t.phase.ResolvedNew? || t.phase.ResolvedBoth? ==> Group(view[other.id := other.row], NewKey(t)) <= t.writes.Keys
    ensures t.phase.ResolvedBoth? && OldKey(t).Some? ==>
              Group(view[other.id := other.row], OldKey(t).value) <= t.writes.Keys
  {
    GroupKept(view, other.id, other.row, NewKey(t), t.locks, other.locks);
    if OldKey(t).Some? {
      GroupKept(view, other.id, other.row, OldKey(t).value, t.locks, other.locks);
    }
  }

  lemma GroupKept(view: Base, id: int, row: Row, key: int, mine: set<int>, theirs: set<int>)
    requires mine !! theirs && ChainKey(id, row) in theirs
    ensures key in mine ==> Group(view[id := row], key) <= Group(view, key)
  {
  }

  lemma CommitIsCoherentAt(rank: Ranking, filings: Workload, s: State, u: nat, g: int)
    requires Orderly(filings, s) && Enabled(filings, s, Commit(u)) && Right(rank, s)
    requires g in View(s, s.txns[u])
    ensures g in (s.derived + s.txns[u].writes)
    ensures (s.derived + s.txns[u].writes)[g] == Derive(rank, View(s, s.txns[u]), g)
  {
    var t := s.txns[u];
    var view := View(s, t);
    assert WritesAreRight(rank, view, t);
    if g in t.writes {
      assert WrittenRowIsRight(rank, view, t, g);
    } else {
      assert t.id in Group(view, NewKey(t));
      OnlyTwoGroupsChange(rank, s.base, t.id, t.row, g);
    }
  }

  lemma CommitIsCoherent(rank: Ranking, filings: Workload, s: State, u: nat)
    requires Orderly(filings, s) && Enabled(filings, s, Commit(u)) && Right(rank, s)
    ensures Coherent(rank, View(s, s.txns[u]), s.derived + s.txns[u].writes)
  {
    var t := s.txns[u];
    forall g | g in t.writes
      ensures g in View(s, t)
    {
      assert WritesAreRight(rank, View(s, t), t) && WrittenRowIsRight(rank, View(s, t), t, g);
    }
    forall g | g in View(s, t)
      ensures g in (s.derived + t.writes) && (s.derived + t.writes)[g] == Derive(rank, View(s, t), g)
    {
      CommitIsCoherentAt(rank, filings, s, u, g);
    }
    assert s.derived + t.writes == DeriveAll(rank, View(s, t));
  }

  /** A statement of one transaction other than a commit. */
  lemma StatementKeeps(rank: Ranking, filings: Workload, s: State, a: Action, txn: nat)
    requires Orderly(filings, s) && Enabled(filings, s, a) && !a.Commit?
    requires txn in s.txns && WritesAreRight(rank, View(s, s.txns[txn]), s.txns[txn])
    requires txn in Next(rank, filings, s, a).txns
    ensures var s' := Next(rank, filings, s, a);
            WritesAreRight(rank, View(s', s'.txns[txn]), s'.txns[txn])
  {
    var t := s.txns[txn];
    assert LocksInOrder(t);
    if a.ResolveNew? && a.txn == txn {
      AllLocksHeld(t);
      OwnResolveIsRight(rank, View(s, t), t, NewKey(t));
    } else if a.ResolveOld? && a.txn == txn && OldKey(t).Some? {
      OwnResolveIsRight(rank, View(s, t), t, OldKey(t).value);
    }
  }

  lemma RightStep(rank: Ranking, filings: Workload, s: State, a: Action)
    requires Orderly(filings, s) && Enabled(filings, s, a) && Right(rank, s)
    requires HeadersNameOriginals(filings) && RanksLoneAlike(rank)
    ensures Right(rank, Next(rank, filings, s, a))
  {
    var s' := Next(rank, filings, s, a);
    if a.Commit? {
      CommitIsCoherent(rank, filings, s, a.txn);
    }
    forall txn | txn in s'.txns
      ensures WritesAreRight(rank, View(s', s'.txns[txn]), s'.txns[txn])
    {
      if a.Commit? {
        OthersCommitKeeps(rank, filings, s, a.txn, txn);
      } else if txn in s.txns {
        StatementKeeps(rank, filings, s, a, txn);
      }
    }
  }

  lemma {:induction false} RunIsRight(rank: Ranking, filings: Workload, run: seq<State>, i: nat)
    requires HeadersNameOriginals(filings) && RanksLoneAlike(rank)
    requires Run(rank, filings, run) && i < |run|
    ensures Right(rank, run[i])
  {
    if i == 0 {
      assert DeriveAll(rank, map[]) == map[];
    } else {
      RunIsRight(rank, filings, run, i - 1);
      RunIsOrderly(rank, filings, run, i - 1);
      assert Step(rank, filings, run[i - 1], run[i]);
      var a :| Enabled(filings, run[i - 1], a) && run[i] == Next(rank, filings, run[i - 1], a);
      RightStep(rank, filings, run[i - 1], a);
    }
  }

  /** Derived columns are never observably stale, when headers name originals. */
  lemma ReachableIsCoherent(rank: Ranking, filings: Workload, s: State)
    requires HeadersNameOriginals(filings) && RanksLoneAlike(rank)
    requires Reachable(rank, filings, s)
    ensures Coherent(rank, s.base, s.derived)
  {
    var run: seq<State> :| Run(rank, filings, run) && run[|run| - 1] == s;
    RunIsRight(rank, filings, run, |run| - 1);
  }
}
