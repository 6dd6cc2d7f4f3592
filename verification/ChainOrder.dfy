/**
 How the resolver ranks the filings of one chain: the original first, then by amendment number
 (a missing number first), then by filing id.
 */
module ChainOrder {
  import opened Wrappers
  import opened Chains

  /** Amendment numbers, with a missing number first. */
  predicate NumberBefore(a: Option<int>, b: Option<int>) {
    match (a, b)
    case (None, Some(_)) => true
    case (Some(x), Some(y)) => x < y
    case _ => false
  }

  /** The original first, then by amendment number, then by filing id. */
  predicate Precedes(chain: Base, original: int, a: int, b: int)
    requires a in chain && b in chain
  {
    if (a == original) != (b == original) then a == original
    else if chain[a].amendmentNumber != chain[b].amendmentNumber then
      NumberBefore(chain[a].amendmentNumber, chain[b].amendmentNumber)
    else a < b
  }

  ghost predicate IsFirst(chain: Base, original: int, ids: set<int>, id: int)
    requires ids <= chain.Keys
  {
    id in ids && forall other | other in ids && other != id :: Precedes(chain, original, id, other)
  }

  lemma Inhabitant(ids: set<int>) returns (some: int)
    requires ids != {}
    ensures some in ids
  {
    assert (forall x :: x !in ids) ==> ids == {};
    some :| some in ids;
  }

  lemma {:induction false} FirstExists(chain: Base, original: int, ids: set<int>) returns (first: int)
    requires ids <= chain.Keys && ids != {}
    ensures IsFirst(chain, original, ids, first)
  {
    var some := Inhabitant(ids);
    if ids == {some} {
      first := some;
    } else {
      var rest := FirstExists(chain, original, ids - {some});
      first := if Precedes(chain, original, some, rest) then some else rest;
      forall other | other in ids && other != first
        ensures Precedes(chain, original, first, other)
      {
        if first == some && other != rest {
          assert Precedes(chain, original, rest, other);
        }
      }
    }
  }

  /** `ids` in chain order. */
  ghost function Ordered(chain: Base, original: int, ids: set<int>): (s: seq<int>)
    requires ids <= chain.Keys
    ensures |s| == |ids|
    ensures forall id :: id in s <==> id in ids
    decreases |ids|
  {
    if ids == {} then []
    else
      assert exists first :: IsFirst(chain, original, ids, first) by {
        var first := FirstExists(chain, original, ids);
      }
      var first :| IsFirst(chain, original, ids, first);
      var rest := ids - {first};
      [first] + Ordered(chain, original, rest)
  }

  ghost function UpTo(chain: Base, original: int, id: int): (ids: set<int>)
    requires id in chain
    ensures id in ids && ids <= chain.Keys
  {
    set other | other in chain && (other == id || Precedes(chain, original, other, id))
  }

  ghost function LastOf(chain: Base, original: int): (last: int)
    requires chain.Keys != {}
    ensures last in chain
  {
    var all := Ordered(chain, original, chain.Keys);
    all[|all| - 1]
  }

  /** The derived columns of `id` within its chain. */
  ghost function DeriveIn(chain: Base, original: int, id: int): (d: Derived)
    requires id in chain
  {
    var upTo := Ordered(chain, original, UpTo(chain, original, id));
    var before := Ordered(chain, original, UpTo(chain, original, id) - {id});
    Derived(|before|, upTo, LastOf(chain, original), if before == [] then id else before[|before| - 1],
            chain[id].isAmendment && original == id)
  }

  /** The resolver's ranking. */
  ghost function Resolver(): Ranking {
    (chain: Base, original: int, id: int) =>
      if id in chain then DeriveIn(chain, original, id) else Derived(0, [], id, id, false)
  }

  /** Of the filings of a chain exactly one is the most recent, and all of them say which. */
  lemma OneMostRecent(base: Base, original: int)
    requires original in base && OriginalOf(base, original) == original
    ensures exists latest :: latest in ChainOf(base, original) && IsOnlyMostRecent(base, original, latest)
  {
    var chain := ChainOf(base, original);
    assert original in chain.Keys;
    var latest := LastOf(chain, original);
    forall id | id in chain
      ensures Derive(Resolver(), base, id).latest == latest
    {
      LatestIsLast(base, id);
    }
    assert IsOnlyMostRecent(base, original, latest);
  }

  ghost predicate IsOnlyMostRecent(base: Base, original: int, latest: int) {
    forall id | id in ChainOf(base, original) ::
      && Derive(Resolver(), base, id).latest == latest
      && (IsMostRecent(base, id) <==> id == latest)
  }

  /** The `most_recent` column. */
  ghost predicate IsMostRecent(base: Base, id: int)
    requires id in base
  {
    Derive(Resolver(), base, id).latest == id
  }

  lemma LatestIsLast(base: Base, id: int)
    requires id in base
    ensures var original := OriginalOf(base, id);
            id in ChainOf(base, original) && Derive(Resolver(), base, id).latest == LastOf(ChainOf(base, original), original)
  {
    assert id in ChainOf(base, OriginalOf(base, id)).Keys;
  }

  lemma {:induction false} OrderedIsSorted(chain: Base, original: int, ids: set<int>, i: nat, j: nat)
    requires ids <= chain.Keys && i < j < |ids|
    ensures var s := Ordered(chain, original, ids);
            s[i] in chain && s[j] in chain && Precedes(chain, original, s[i], s[j])
    decreases |ids|
  {
    var first := OrderedUnfolds(chain, original, ids);
    var later := Ordered(chain, original, ids - {first});
    if i == 0 {
      FirstPrecedesLater(chain, original, ids, first, later[j - 1]);
    } else {
      OrderedIsSorted(chain, original, ids - {first}, i - 1, j - 1);
    }
  }

  lemma FirstPrecedesLater(chain: Base, original: int, ids: set<int>, first: int, other: int)
    requires ids <= chain.Keys && IsFirst(chain, original, ids, first)
    requires other in Ordered(chain, original, ids - {first})
    ensures first in chain && other in chain && Precedes(chain, original, first, other)
  {
  }

  lemma OrderedUnfolds(chain: Base, original: int, ids: set<int>) returns (first: int)
    requires ids <= chain.Keys && ids != {}
    ensures IsFirst(chain, original, ids, first)
    ensures Ordered(chain, original, ids) == [first] + Ordered(chain, original, ids - {first})
  {
    var s := Ordered(chain, original, ids);
    first := s[0];
    assert first in s;
  }

  /** The most recent filing comes after every other filing of its chain. */
  lemma MostRecentIsLast(base: Base, id: int)
    requires id in base
    ensures var chain := ChainOf(base, OriginalOf(base, id));
            var latest := Derive(Resolver(), base, id).latest;
            latest in chain &&
            forall other | other in chain && other != latest ::
              Precedes(chain, OriginalOf(base, id), other, latest)
  {
    var original := OriginalOf(base, id);
    var chain := ChainOf(base, original);
    LatestIsLast(base, id);
    assert id in chain.Keys;
    LastIsLast(chain, original);
  }

  lemma LastIsLast(chain: Base, original: int)
    requires chain.Keys != {}
    ensures forall other | other in chain && other != LastOf(chain, original) ::
              Precedes(chain, original, other, LastOf(chain, original))
  {
    var all := Ordered(chain, original, chain.Keys);
    forall other | other in chain && other != LastOf(chain, original)
      ensures Precedes(chain, original, other, LastOf(chain, original))
    {
      assert other in all;
      var i :| 0 <= i < |all| && all[i] == other;
      OrderedIsSorted(chain, original, chain.Keys, i, |all| - 1);
    }
  }

  /** An amendment that cannot be attached is a chain of its own, marked unresolved. */
  lemma LoneAmendment(base: Base, id: int)
    requires id in base && base[id].isAmendment && OriginalOf(base, id) == id
    ensures Derive(Resolver(), base, id) == Derived(0, [id], id, id, true)
  {
    var chain := ChainOf(base, id);
    assert chain.Keys == {id};
    assert UpTo(chain, id, id) == {id};
    Singleton(chain, id, id);
    assert UpTo(chain, id, id) - {id} == {};
  }

  lemma Singleton(chain: Base, original: int, id: int)
    requires id in chain
    ensures Ordered(chain, original, {id}) == [id]
  {
    assert Ordered(chain, original, {id})[0] == id by {
      assert Ordered(chain, original, {id})[0] in Ordered(chain, original, {id});
    }
  }

  /** A filing is unresolved exactly when it is an amendment whose header names nothing, itself, a
      filing that is not stored, or another amendment. */
  lemma UnresolvedExactly(base: Base, id: int)
    requires id in base
    ensures Derive(Resolver(), base, id).unresolved <==>
            && base[id].isAmendment
            && match base[id].amends
               case None => true
               case Some(x) => x == id || x !in base || base[x].isAmendment
  {
  }

  // ----- The columns of one filing -----

  lemma StartsWithFirst(chain: Base, original: int, ids: set<int>, id: int)
    requires ids <= chain.Keys && IsFirst(chain, original, ids, id)
    ensures Ordered(chain, original, ids) == [id] + Ordered(chain, original, ids - {id})
  {
    var first := OrderedUnfolds(chain, original, ids);
    OnlyFirst(chain, original, ids, first, id);
  }

  lemma OnlyFirst(chain: Base, original: int, ids: set<int>, a: int, b: int)
    requires ids <= chain.Keys && IsFirst(chain, original, ids, a) && IsFirst(chain, original, ids, b)
    ensures a == b
  {
  }

  /** Whoever comes after all others comes last. */
  lemma {:induction false} LastInOrder(chain: Base, original: int, rest: set<int>, id: int)
    requires id in chain && id !in rest && rest <= chain.Keys
    requires forall other | other in rest :: Precedes(chain, original, other, id)
    ensures Ordered(chain, original, rest + {id}) == Ordered(chain, original, rest) + [id]
    decreases |rest|
  {
    if rest == {} {
      assert rest + {id} == {id};
      Singleton(chain, original, id);
    } else {
      var first := FirstExists(chain, original, rest);
      var later := rest - {first};
      LastInOrder(chain, original, later, id);
      StartsWithFirst(chain, original, rest, first);
      FirstOfMore(chain, original, rest, id, first);
      Shifts(first, Ordered(chain, original, later), id);
    }
  }

  lemma Shifts(first: int, s: seq<int>, last: int)
    ensures [first] + (s + [last]) == ([first] + s) + [last]
  {
  }

  lemma FirstOfMore(chain: Base, original: int, rest: set<int>, id: int, first: int)
    requires id in chain && id !in rest && rest <= chain.Keys && IsFirst(chain, original, rest, first)
    requires forall other | other in rest :: Precedes(chain, original, other, id)
    ensures Ordered(chain, original, rest + {id}) == [first] + Ordered(chain, original, rest - {first} + {id})
  {
    assert IsFirst(chain, original, rest + {id}, first);
    StartsWithFirst(chain, original, rest + {id}, first);
    assert rest + {id} - {first} == rest - {first} + {id};
  }

  ghost predicate IsInOrder(chain: Base, original: int, s: seq<int>) {
    && (forall i | 0 <= i < |s| :: s[i] in chain)
    && forall i, j | 0 <= i < j < |s| :: Precedes(chain, original, s[i], s[j])
  }

  lemma OrderedIsInOrder(chain: Base, original: int, ids: set<int>)
    requires ids <= chain.Keys
    ensures IsInOrder(chain, original, Ordered(chain, original, ids))
  {
    var all := Ordered(chain, original, ids);
    forall i | 0 <= i < |all|
      ensures all[i] in chain
    {
      assert all[i] in all;
    }
    forall i, j | 0 <= i < j < |all|
      ensures Precedes(chain, original, all[i], all[j])
    {
      OrderedIsSorted(chain, original, ids, i, j);
    }
  }

  lemma ColumnsIn(chain: Base, original: int, id: int)
    requires id in chain
    ensures var d := DeriveIn(chain, original, id);
            && |d.chain| == d.version + 1 && d.chain[d.version] == id
            && IsInOrder(chain, original, d.chain)
            && (forall other :: other in d.chain <==>
                  other in chain && (other == id || Precedes(chain, original, other, id)))
            && d.previous == if d.version == 0 then id else d.chain[d.version - 1]
  {
    var upTo := UpTo(chain, original, id);
    OrderedUpTo(chain, original, id);
    OrderedIsInOrder(chain, original, upTo);
    assert forall other :: other in upTo <==> other in chain && (other == id || Precedes(chain, original, other, id));
  }

  lemma OrderedUpTo(chain: Base, original: int, id: int)
    requires id in chain
    ensures var upTo := UpTo(chain, original, id);
            Ordered(chain, original, upTo) == Ordered(chain, original, upTo - {id}) + [id]
  {
    var upTo := UpTo(chain, original, id);
    LastInOrder(chain, original, upTo - {id}, id);
    assert upTo - {id} + {id} == upTo;
  }

  lemma DeriveIsIn(base: Base, id: int)
    requires id in base
    ensures var original := OriginalOf(base, id);
            id in ChainOf(base, original)
            && Derive(Resolver(), base, id) == DeriveIn(ChainOf(base, original), original, id)
  {
    assert id in ChainOf(base, OriginalOf(base, id));
  }

  /** The columns of a filing: `amendment_chain` lists, in order, the filings of its chain up to and
      including itself; `amendment_version` counts those before it; the previous one is the last of
      them, or the filing itself when it is the first. */
  lemma ColumnsOf(base: Base, id: int)
    requires id in base
    ensures var original := OriginalOf(base, id);
            var chain := ChainOf(base, original);
            var d := Derive(Resolver(), base, id);
            && id in chain && |d.chain| == d.version + 1 && d.chain[d.version] == id
            && IsInOrder(chain, original, d.chain)
            && (forall other :: other in d.chain <==>
                  other in chain && (other == id || Precedes(chain, original, other, id)))
            && d.previous == if d.version == 0 then id else d.chain[d.version - 1]
  {
    DeriveIsIn(base, id);
    ColumnsIn(ChainOf(base, OriginalOf(base, id)), OriginalOf(base, id), id);
  }

  lemma StartsAtOriginal(chain: Base, x: int, s: seq<int>)
    requires x in chain && IsInOrder(chain, x, s) && x in s
    ensures s[0] == x
  {
    var i :| 0 <= i < |s| && s[i] == x;
    if i > 0 {
      assert Precedes(chain, x, s[0], s[i]);
    }
  }

  /** Storing the original an amendment names attaches it: it is in the original's chain, after it,
      and no longer unresolved, as it was while the original was missing. */
  lemma LateOriginalAttaches(base: Base, id: int, x: int, row: Row)
    requires id in base && base[id].isAmendment && base[id].amends == Some(x) && x != id
    requires x !in base && !row.isAmendment
    ensures Derive(Resolver(), base, id).unresolved
    ensures var d := Derive(Resolver(), base[x := row], id);
            !d.unresolved && d.version > 0 && d.chain[0] == x && d.latest in ChainOf(base[x := row], x)
  {
    UnresolvedExactly(base, id);
    Attached(base[x := row], id, x);
  }

  lemma Attached(base: Base, id: int, x: int)
    requires id in base && x in base && OriginalOf(base, id) == x && x != id && !base[x].isAmendment
    ensures var d := Derive(Resolver(), base, id);
            !d.unresolved && d.version > 0 && d.chain[0] == x && d.latest in ChainOf(base, x)
  {
    var chain := ChainOf(base, x);
    var d := Derive(Resolver(), base, id);
    assert OriginalOf(base, x) == x && x in chain;
    DeriveIsIn(base, id);
    ColumnsOf(base, id);
    assert Precedes(chain, x, x, id) && x in d.chain;
    StartsAtOriginal(chain, x, d.chain);
    MostRecentIsLast(base, id);
  }

  // ----- The order, said of the columns -----

  /** `a` is listed in the chain column of `b` and not the other way round, has the lower version and
      is not the most recent. */
  ghost predicate IsListedBefore(base: Base, a: int, b: int)
    requires a in base && b in base
  {
    var da, db := Derive(Resolver(), base, a), Derive(Resolver(), base, b);
    a in db.chain && b !in da.chain && da.version < db.version && da.latest != a && db.latest != a
  }

  lemma BeforeIsListedBefore(base: Base, a: int, b: int)
    requires a in base && b in base && a != b && OriginalOf(base, a) == OriginalOf(base, b)
    requires var original := OriginalOf(base, a);
             var chain := ChainOf(base, original);
             a in chain && b in chain && Precedes(chain, original, a, b)
    ensures IsListedBefore(base, a, b)
  {
    var original := OriginalOf(base, a);
    var chain := ChainOf(base, original);
    DeriveIsIn(base, a);
    DeriveIsIn(base, b);
    BeforeInChain(chain, original, a, b);
  }

  lemma BeforeInChain(chain: Base, original: int, a: int, b: int)
    requires a in chain && b in chain && a != b && Precedes(chain, original, a, b)
    ensures var da, db := DeriveIn(chain, original, a), DeriveIn(chain, original, b);
            a in db.chain && b !in da.chain && da.version < db.version && da.latest != a && db.latest != a
  {
    FewerBefore(chain, original, a, b);
    LastIsLast(chain, original);
  }

  lemma FewerBefore(chain: Base, original: int, a: int, b: int)
    requires a in chain && b in chain && a != b && Precedes(chain, original, a, b)
    ensures |UpTo(chain, original, a) - {a}| < |UpTo(chain, original, b) - {b}|
  {
    var before, later := UpTo(chain, original, a) - {a}, UpTo(chain, original, b) - {b};
    assert a in later && before <= later - {a};
    FewerInSubset(before, later - {a});
  }

  lemma FewerInSubset(a: set<int>, b: set<int>)
    requires a <= b
    ensures |a| <= |b|
  {
    assert b == a + (b - a);
    assert |a + (b - a)| == |a| + |b - a|;
  }

  /** Of two amendments of one chain the one without a number comes first; of two numbers the
      smaller; of equal or missing numbers the smaller filing id. */
  lemma AmendmentsInOrder(base: Base, a: int, b: int)
    requires a in base && b in base && OriginalOf(base, a) == OriginalOf(base, b)
    requires a != OriginalOf(base, a) && b != OriginalOf(base, b)
    ensures var numberA, numberB := base[a].amendmentNumber, base[b].amendmentNumber;
            && (numberA.None? && numberB.Some? ==> IsListedBefore(base, a, b))
            && (numberA.Some? && numberB.Some? && numberA.value < numberB.value ==> IsListedBefore(base, a, b))
            && (numberA == numberB && a < b ==> IsListedBefore(base, a, b))
  {
    var original := OriginalOf(base, a);
    var chain := ChainOf(base, original);
    assert a in chain && b in chain && chain[a] == base[a] && chain[b] == base[b];
    if a != b && Precedes(chain, original, a, b) {
      BeforeIsListedBefore(base, a, b);
    }
  }

  /** Every chain starts with its original, and only the original has version 0. */
  lemma OriginalComesFirst(base: Base, id: int)
    requires id in base
    ensures var original := OriginalOf(base, id);
            var d := Derive(Resolver(), base, id);
            d.chain[..1] == [original] && (d.version == 0 <==> id == original)
  {
    var original := OriginalOf(base, id);
    var chain := ChainOf(base, original);
    var d := Derive(Resolver(), base, id);
    ColumnsOf(base, id);
    assert original in chain && (id == original || Precedes(chain, original, original, id));
    StartsAtOriginal(chain, original, d.chain);
  }

  /** Whether, of two amendments, the number of `latest` says it is the later: any number says so of
      a filing without one; without a number only the ids are left. */
  predicate IsOutranked(base: Base, other: int, latest: int)
    requires other in base && latest in base
  {
    var n, m := base[latest].amendmentNumber, base[other].amendmentNumber;
    if n.None? then m.None? && other < latest
    else m.None? || m.value < n.value || (m.value == n.value && other < latest)
  }

  /** The most recent filing is the original only when it is alone; otherwise the amendment that
      outranks all others, so one without a number only when no amendment has one. */
  lemma MostRecentExactly(base: Base, id: int, latest: int)
    requires id in base && latest in base && OriginalOf(base, latest) == OriginalOf(base, id)
    ensures var original := OriginalOf(base, id);
            Derive(Resolver(), base, id).latest == latest <==>
            forall other | other in base && OriginalOf(base, other) == original && other != original && other != latest ::
              latest != original && IsOutranked(base, other, latest)
  {
    var original := OriginalOf(base, id);
    var chain := ChainOf(base, original);
    var last := Derive(Resolver(), base, id).latest;
    MostRecentIsLast(base, id);
    assert latest in chain && last in chain && original in chain;
    if last == latest {
      forall other | other in base && OriginalOf(base, other) == original && other != original && other != latest
        ensures latest != original && IsOutranked(base, other, latest)
      {
        assert other in chain && Precedes(chain, original, other, latest);
      }
    } else {
      assert Precedes(chain, original, latest, last);
      assert OriginalOf(base, last) == original && last != original && last != latest;
      assert !(latest != original && IsOutranked(base, last, latest));
    }
  }
}
