/**
 Whole runs of the watcher: polls, failed polls, restarts, runs that only mark, and crashes, in the
 middle of a poll or of what it appends to the list.
 */
module WatchRuns {
  import opened Wrappers
  import opened SeenList
  import opened Watch

  datatype Event =
    | Poll(items: seq<FeedItem>, wanted: Filter)
    | PollFailed
    | Restart
    | Crash(items: seq<FeedItem>, wanted: Filter, done: nat)
    | MarkSeen(items: seq<FeedItem>)
    | CutPoll(items: seq<FeedItem>, wanted: Filter, written: nat)
    | CutMark(items: seq<FeedItem>, written: nat)

  const START: State := State({}, "", [])

  function Step(s: State, e: Event): State {
    match e
    case Poll(items, wanted) => AfterPoll(s, items, wanted)
    case PollFailed => s
    case Restart => s.(seen := ReadSeen(s.list))
    case Crash(items, wanted, done) => AfterCrash(s, items, wanted, done)
    case MarkSeen(items) => AfterMark(s, items)
    case CutPoll(items, wanted, written) => AfterCutPoll(s, items, wanted, written)
    case CutMark(items, written) => AfterCutMark(s, items, written)
  }

  function Run(events: seq<Event>): State {
    if events == [] then START else Step(Run(events[..|events| - 1]), events[|events| - 1])
  }

  /** Whatever ended the process, the watcher started after it remembers what the list on disk says. */
  lemma StartsFromList(s: State, e: Event)
    requires !e.Poll? && !e.PollFailed?
    ensures Step(s, e).seen == ReadSeen(Step(s, e).list)
  {
  }

  // ----- Counting -----

  function Count(ids: seq<nat>, id: nat): nat {
    if ids == [] then 0 else Count(ids[..|ids| - 1], id) + if ids[|ids| - 1] == id then 1 else 0
  }

  /** How many of the items have the id and are wanted. */
  function CountWanted(items: seq<FeedItem>, wanted: Filter, id: nat): nat {
    if items == [] then 0
    else CountWanted(items[..|items| - 1], wanted, id)
         + if items[|items| - 1].id == id && wanted(items[|items| - 1]) then 1 else 0
  }

  lemma {:induction false} CountBoth(a: seq<nat>, b: seq<nat>, id: nat)
    ensures Count(a + b, id) == Count(a, id) + Count(b, id)
    decreases |b|
  {
    if b == [] {
      assert a + b == a;
    } else {
      assert (a + b)[..|a + b| - 1] == a + b[..|b| - 1];
      CountBoth(a, b[..|b| - 1], id);
    }
  }

  lemma {:induction false} CountIsWanted(items: seq<FeedItem>, wanted: Filter, id: nat)
    ensures Count(WantedIds(items, wanted), id) == CountWanted(items, wanted, id)
    decreases |items|
  {
    if items != [] {
      var n := |items| - 1;
      CountIsWanted(items[..n], wanted, id);
      CountBoth(WantedIds(items[..n], wanted), if wanted(items[n]) then [items[n].id] else [], id);
      assert [items[n].id][..0] == [];
    }
  }

  lemma {:induction false} CountInsert(items: seq<FeedItem>, item: FeedItem, wanted: Filter, id: nat)
    ensures CountWanted(InsertById(items, item), wanted, id)
            == CountWanted(items, wanted, id) + if item.id == id && wanted(item) then 1 else 0
    decreases |items|
  {
    if items == [] || item.id < items[0].id {
      CountJoined([item], items, wanted, id);
      assert [item][..0] == [];
    } else {
      CountInsert(items[1..], item, wanted, id);
      CountJoined([items[0]], InsertById(items[1..], item), wanted, id);
      CountJoined([items[0]], items[1..], wanted, id);
      assert [items[0]] + items[1..] == items;
    }
  }

  lemma {:induction false} CountJoined(a: seq<FeedItem>, b: seq<FeedItem>, wanted: Filter, id: nat)
    ensures CountWanted(a + b, wanted, id) == CountWanted(a, wanted, id) + CountWanted(b, wanted, id)
    decreases |b|
  {
    if b == [] {
      assert a + b == a;
    } else {
      assert (a + b)[..|a + b| - 1] == a + b[..|b| - 1];
      CountJoined(a, b[..|b| - 1], wanted, id);
    }
  }

  lemma {:induction false} CountSorted(items: seq<FeedItem>, wanted: Filter, id: nat)
    ensures CountWanted(SortById(items), wanted, id) == CountWanted(items, wanted, id)
    decreases |items|
  {
    if items != [] {
      var n := |items| - 1;
      CountSorted(items[..n], wanted, id);
      CountInsert(SortById(items[..n]), items[n], wanted, id);
    }
  }

  lemma {:induction false} CountNew(items: seq<FeedItem>, seen: set<nat>, wanted: Filter, id: nat)
    ensures CountWanted(NewItems(items, seen), wanted, id) == if id in seen then 0 else CountWanted(items, wanted, id)
    decreases |items|
  {
    if items != [] {
      var n := |items| - 1;
      CountNew(items[..n], seen, wanted, id);
      CountJoined(NewItems(items[..n], seen), if items[n].id in seen then [] else [items[n]], wanted, id);
      assert [items[n]][..0] == [];
    }
  }

  /** A poll processes an id as often as the feed has it wanted, if it was not seen. */
  lemma PollCounts(s: State, items: seq<FeedItem>, wanted: Filter, id: nat)
    ensures Count(WantedIds(Arrivals(s, items), wanted), id) == if id in s.seen then 0 else CountWanted(items, wanted, id)
  {
    CountIsWanted(Arrivals(s, items), wanted, id);
    CountSorted(NewItems(items, s.seen), wanted, id);
    CountNew(items, s.seen, wanted, id);
  }

  // ----- The list -----

  function IdsOf(items: seq<FeedItem>): set<nat> {
    IdSet(Ids(items))
  }

  lemma {:induction false} NewIds(items: seq<FeedItem>, seen: set<nat>)
    ensures IdsOf(NewItems(items, seen)) == IdsOf(items) - seen
    decreases |items|
  {
    if items != [] {
      var n := |items| - 1;
      NewIds(items[..n], seen);
      IdsOfBoth(items[..n], [items[n]]);
      assert items == items[..n] + [items[n]];
      IdsOfBoth(NewItems(items[..n], seen), if items[n].id in seen then [] else [items[n]]);
      IdsOfOne(items[n]);
    }
  }

  lemma IdsOfOne(item: FeedItem)
    ensures IdsOf([item]) == {item.id as nat} && IdsOf([]) == {}
  {
    assert Ids([item])[0] == item.id;
  }

  lemma IdsOfBoth(a: seq<FeedItem>, b: seq<FeedItem>)
    ensures IdsOf(a + b) == IdsOf(a) + IdsOf(b)
  {
    var ids := Ids(a + b);
    forall id
      ensures id in IdsOf(a + b) <==> id in IdsOf(a) || id in IdsOf(b)
    {
      if id in IdsOf(a) {
        var i :| 0 <= i < |a| && Ids(a)[i] == id;
        assert ids[i] == id;
      }
      if id in IdsOf(b) {
        var i :| 0 <= i < |b| && Ids(b)[i] == id;
        assert ids[|a| + i] == id;
      }
      if id in IdsOf(a + b) {
        var i :| 0 <= i < |ids| && ids[i] == id;
        assert if i < |a| then Ids(a)[i] == id else Ids(b)[i - |a|] == id;
      }
    }
  }

  lemma SameIds(a: seq<FeedItem>, b: seq<FeedItem>)
    requires multiset(a) == multiset(b)
    ensures IdsOf(a) == IdsOf(b)
  {
    forall id
      ensures id in IdsOf(a) ==> id in IdsOf(b)
      ensures id in IdsOf(b) ==> id in IdsOf(a)
    {
      if id in IdsOf(a) {
        var i :| 0 <= i < |a| && Ids(a)[i] == id;
        assert a[i] in multiset(b);
        var j :| 0 <= j < |b| && b[j] == a[i];
        assert Ids(b)[j] == id;
      }
      if id in IdsOf(b) {
        var j :| 0 <= j < |b| && Ids(b)[j] == id;
        assert b[j] in multiset(a);
        var i :| 0 <= i < |a| && a[i] == b[j];
        assert Ids(a)[i] == id;
      }
    }
  }

  lemma ArrivalIds(s: State, items: seq<FeedItem>)
    ensures IdsOf(Arrivals(s, items)) == IdsOf(items) - s.seen
  {
    SortSorts(NewItems(items, s.seen));
    SameIds(Arrivals(s, items), NewItems(items, s.seen));
    NewIds(items, s.seen);
  }

  /** What an event's append is of. */
  function AppendedIds(s: State, e: Event): seq<Id> {
    match e
    case Poll(items, _) => Ids(Arrivals(s, items))
    case CutPoll(items, _, _) => Ids(Arrivals(s, items))
    case MarkSeen(items) => Ids(NewItems(items, s.seen))
    case CutMark(items, _) => Ids(NewItems(items, s.seen))
    case _ => []
  }

  predicate IsCut(e: Event) {
    e.CutPoll? || e.CutMark?
  }

  /** The ids an event records: of a whole append all its items', of one cut short those whose lines
      were written. */
  function RecordedBy(s: State, e: Event): set<nat> {
    if e.Poll? || e.MarkSeen? then IdsOf(e.items)
    else if IsCut(e) then IdSet(WholeIds(AppendedIds(s, e), e.written))
    else {}
  }

  function Recorded(events: seq<Event>): set<nat> {
    if events == [] then {}
    else Recorded(events[..|events| - 1]) + RecordedBy(Run(events[..|events| - 1]), events[|events| - 1])
  }

  /** If the append was cut, then between two lines. */
  predicate CutIsWhole(s: State, e: Event) {
    IsCut(e) ==> CutTail(AppendedIds(s, e), e.written) == ""
  }

  predicate CutsAreWhole(events: seq<Event>) {
    events == [] || (CutsAreWhole(events[..|events| - 1]) && CutIsWhole(Run(events[..|events| - 1]), events[|events| - 1]))
  }

  /** In every run whose cut appends were cut between lines, the list on disk holds exactly the ids
      recorded: those of polls and marking runs that ended, and those whose lines were written. What
      the watcher remembers is the list. */
  lemma {:induction false} ListIsRecorded(events: seq<Event>)
    requires CutsAreWhole(events)
    ensures ListIs(Run(events), Recorded(events))
    decreases |events|
  {
    if events == [] {
      BlankIsNoId();
    } else {
      var n := |events| - 1;
      ListIsRecorded(events[..n]);
      ListFollows(Run(events[..n]), events[n]);
    }
  }

  ghost predicate ListIs(s: State, ids: set<nat>) {
    IsEnded(s.list) && ReadSeen(s.list) == ids && s.seen == ids
  }

  lemma ListFollows(s: State, e: Event)
    requires ListIs(s, s.seen) && CutIsWhole(s, e)
    ensures ListIs(Step(s, e), s.seen + RecordedBy(s, e))
  {
    if e.Poll? {
      ArrivalIds(s, e.items);
      AppendAdds(s.list, AppendedIds(s, e));
    } else if e.MarkSeen? {
      NewIds(e.items, s.seen);
      AppendAdds(s.list, AppendedIds(s, e));
    } else if IsCut(e) {
      var whole := WholeIds(AppendedIds(s, e), e.written);
      AppendAdds(s.list, whole);
      assert IdLines(whole) + "" == IdLines(whole);
    }
  }

  // ----- An append cut inside a line -----

  lemma {:induction false} CountAt(items: seq<FeedItem>, wanted: Filter, i: nat)
    requires i < |items| && wanted(items[i])
    ensures CountWanted(items, wanted, items[i].id) >= 1
    decreases |items|
  {
    if i < |items| - 1 {
      CountAt(items[..|items| - 1], wanted, i);
    }
  }

  lemma CountTwice(items: seq<FeedItem>, wanted: Filter, i: nat, j: nat)
    requires i < j < |items| && wanted(items[i]) && wanted(items[j]) && items[i].id == items[j].id
    ensures CountWanted(items, wanted, items[i].id) >= 2
  {
    CountAt(items[..j], wanted, i);
    CountAt(items[j..], wanted, 0);
    CountJoined(items[..j], items[j..], wanted, items[i].id);
    assert items[..j] + items[j..] == items;
  }

  /** Items each of whose ids the feed has once, and that were not seen. */
  lemma CountsSayNew(items: seq<FeedItem>, feed: seq<FeedItem>, seen: set<nat>)
    requires DistinctIds(feed)
    requires forall id :: CountWanted(items, _ => true, id) == if id in seen then 0 else CountWanted(feed, _ => true, id)
    ensures AreNew(Ids(items), seen)
  {
    var all: Filter := _ => true;
    forall i | 0 <= i < |items|
      ensures Ids(items)[i] !in seen
    {
      CountAt(items, all, i);
    }
    forall i, j | 0 <= i < j < |items|
      ensures Ids(items)[i] != Ids(items)[j]
    {
      if items[i].id == items[j].id {
        CountTwice(items, all, i, j);
        DistinctCount(feed, all, items[i].id);
      }
    }
  }

  lemma AppendedAreNew(s: State, e: Event)
    requires (e.Poll? || e.MarkSeen?) && DistinctIds(e.items)
    ensures AreNew(AppendedIds(s, e), s.seen)
  {
    var all: Filter := _ => true;
    var unseen := NewItems(e.items, s.seen);
    forall id
      ensures CountWanted(unseen, all, id) == if id in s.seen then 0 else CountWanted(e.items, all, id)
      ensures CountWanted(SortById(unseen), all, id) == CountWanted(unseen, all, id)
    {
      CountNew(e.items, s.seen, all, id);
      CountSorted(unseen, all, id);
    }
    CountsSayNew(unseen, e.items, s.seen);
    CountsSayNew(SortById(unseen), e.items, s.seen);
  }

  lemma AppendsItsIds(s: State, e: Event)
    requires e.Poll? || e.MarkSeen?
    ensures Step(s, e).list == s.list + IdLines(AppendedIds(s, e))
    ensures IdSet(AppendedIds(s, e)) == IdsOf(e.items) - s.seen
  {
    if e.Poll? {
      ArrivalIds(s, e.items);
    } else {
      NewIds(e.items, s.seen);
    }
  }

  lemma AfterCut(s: State, cut: Event)
    requires ListIs(s, s.seen) && IsCut(cut)
    ensures var ids := AppendedIds(s, cut);
            var text := s.list + IdLines(WholeIds(ids, cut.written));
            && Step(s, cut).list == text + CutTail(ids, cut.written) && Step(s, cut).seen == ReadSeen(Step(s, cut).list)
            && IsEnded(text) && ReadSeen(text) == s.seen + RecordedBy(s, cut)
  {
    AppendAdds(s.list, WholeIds(AppendedIds(s, cut), cut.written));
    var ids := AppendedIds(s, cut);
    assert s.list + (IdLines(WholeIds(ids, cut.written)) + CutTail(ids, cut.written))
        == s.list + IdLines(WholeIds(ids, cut.written)) + CutTail(ids, cut.written);
  }

  /** What a poll or marking run after a cut append leaves. */
  lemma NextAfterCut(s: State, cut: Event, next: Event)
    requires ListIs(s, s.seen) && IsCut(cut) && 0 !in IdSet(AppendedIds(s, cut))
    requires (next.Poll? || next.MarkSeen?) && DistinctIds(next.items) && AppendedIds(Step(s, cut), next) != []
    ensures var s1 := Step(s, cut);
            var s2 := Step(s1, next);
            var first := AppendedIds(s1, next)[0];
            && (ReadSeen(s2.list) == s.seen + RecordedBy(s, cut) + IdsOf(next.items) <==> CutIsWhole(s, cut))
            && (!CutIsWhole(s, cut) ==> first in IdsOf(next.items) && first !in s1.seen && first !in ReadSeen(s2.list))
  {
    var s1 := Step(s, cut);
    var ids, tail := AppendedIds(s1, next), CutTail(AppendedIds(s, cut), cut.written);
    var text := s.list + IdLines(WholeIds(AppendedIds(s, cut), cut.written));
    AfterCut(s, cut);
    AppendedAreNew(s1, next);
    AppendsItsIds(s1, next);
    if tail != "" {
      CutTailIsPositive(AppendedIds(s, cut), cut.written);
    }
    AppendAfterTail(text, tail, ids, IdsOf(next.items));
  }

  lemma RunOne(events: seq<Event>, e: Event)
    ensures Run(events + [e]) == Step(Run(events), e)
    ensures Recorded(events + [e]) == Recorded(events) + RecordedBy(Run(events), e)
  {
    assert (events + [e])[..|events|] == events;
  }

  /** A cut is survived exactly when it fell between two lines: only then does the next poll or
      marking run that has something new leave a list of all the ids recorded. Otherwise the first
      of its ids is remembered until the watcher is started again, and then forgotten. */
  lemma SurvivesCutExactly(events: seq<Event>, cut: Event, next: Event)
    requires CutsAreWhole(events) && IsCut(cut) && 0 !in IdsOf(cut.items)
    requires (next.Poll? || next.MarkSeen?) && DistinctIds(next.items)
    requires AppendedIds(Run(events + [cut]), next) != []
    ensures var after := events + [cut] + [next];
            && (ReadSeen(Run(after).list) == Recorded(after) <==> CutIsWhole(Run(events), cut))
            && (!CutIsWhole(Run(events), cut) ==>
                  var first := AppendedIds(Run(events + [cut]), next)[0];
                  && first in Recorded(after) && first !in Run(events + [cut]).seen
                  && first !in Run(after + [Restart]).seen && (next.Poll? ==> first in Run(after).seen))
  {
    var s := Run(events);
    ListIsRecorded(events);
    RunOne(events, cut);
    RunOne(events + [cut], next);
    RunOne(events + [cut] + [next], Restart);
    if cut.CutPoll? {
      ArrivalIds(s, cut.items);
    } else {
      NewIds(cut.items, s.seen);
    }
    NextAfterCut(s, cut, next);
    var ids := AppendedIds(Step(s, cut), next);
    assert ids[0] in IdSet(ids);
  }

  // ----- Nothing is processed twice -----

  predicate DistinctIds(items: seq<FeedItem>) {
    forall i, j | 0 <= i < j < |items| :: items[i].id != items[j].id
  }

  ghost predicate FeedsAreDistinct(events: seq<Event>) {
    forall i | 0 <= i < |events| && Processes(events[i]) :: DistinctIds(events[i].items)
  }

  predicate Processes(e: Event) {
    e.Poll? || e.Crash? || e.CutPoll?
  }

  lemma {:induction false} DistinctCount(items: seq<FeedItem>, wanted: Filter, id: nat)
    requires DistinctIds(items)
    ensures CountWanted(items, wanted, id) <= 1
    ensures CountWanted(items, wanted, id) == 1 <==> exists i | 0 <= i < |items| :: items[i].id == id && wanted(items[i])
    decreases |items|
  {
    if items != [] {
      var n := |items| - 1;
      DistinctCount(items[..n], wanted, id);
      assert forall i | 0 <= i < n :: items[..n][i] == items[i];
    }
  }

  /** What one event processes. */
  function Added(s: State, e: Event): seq<nat> {
    StepAppends(s, e);
    Step(s, e).processed[|s.processed|..]
  }

  lemma StepAppends(s: State, e: Event)
    ensures s.processed <= Step(s, e).processed
  {
  }

  /** After the event the id is not remembered, though it was before, or the event processed it. */
  predicate Slips(s: State, e: Event, id: nat) {
    (id in s.seen || Count(Added(s, e), id) > 0) && id !in Step(s, e).seen
  }

  function SlipCount(events: seq<Event>, id: nat): nat {
    if events == [] then 0
    else
      SlipCount(events[..|events| - 1], id)
      + if Slips(Run(events[..|events| - 1]), events[|events| - 1], id) then 1 else 0
  }

  lemma {:induction false} PrefixCount(items: seq<FeedItem>, wanted: Filter, done: nat, id: nat)
    requires done <= |items|
    ensures Count(WantedIds(items[..done], wanted), id) <= Count(WantedIds(items, wanted), id)
  {
    CountIsWanted(items[..done], wanted, id);
    CountIsWanted(items, wanted, id);
    CountJoined(items[..done], items[done..], wanted, id);
    assert items[..done] + items[done..] == items;
  }

  /** An event processes an id at most once, and only if it is not remembered. */
  lemma AddsAtMostOnce(s: State, e: Event, id: nat)
    requires Processes(e) ==> DistinctIds(e.items)
    ensures Count(Added(s, e), id) <= if id in s.seen then 0 else 1
  {
    StepAppends(s, e);
    if Processes(e) {
      var arrivals := Arrivals(s, e.items);
      PollCounts(s, e.items, e.wanted, id);
      DistinctCount(e.items, e.wanted, id);
      if e.Crash? {
        var done := if e.done <= |arrivals| then e.done else |arrivals|;
        PrefixCount(arrivals, e.wanted, done, id);
        assert arrivals[..|arrivals|] == arrivals;
        assert Added(s, e) == WantedIds(arrivals[..done], e.wanted);
      } else {
        assert Added(s, e) == WantedIds(arrivals, e.wanted);
      }
    } else {
      assert Added(s, e) == [];
    }
  }

  /** In every run, whatever crashed and wherever an append was cut, an id is processed at most once
      more than it slipped the watcher's memory. */
  lemma {:induction false} OncePlusSlips(events: seq<Event>, id: nat)
    requires FeedsAreDistinct(events)
    ensures Count(Run(events).processed, id) <= SlipCount(events, id) + if id in Run(events).seen then 1 else 0
    decreases |events|
  {
    if events != [] {
      var n := |events| - 1;
      OncePlusSlips(events[..n], id);
      var s, e := Run(events[..n]), events[n];
      StepAppends(s, e);
      CountBoth(s.processed, Added(s, e), id);
      assert Step(s, e).processed == s.processed + Added(s, e);
      AddsAtMostOnce(s, e, id);
    }
  }

  /** As long as appends are cut between lines only, an id slips exactly when the process dies between
      processing it and writing its line. */
  lemma SlipsAreCrashes(events: seq<Event>, e: Event, id: nat)
    requires CutsAreWhole(events) && CutIsWhole(Run(events), e)
    ensures Slips(Run(events), e, id) <==>
            && Count(Added(Run(events), e), id) > 0 && id !in Run(events).seen
            && (e.Crash? || (e.CutPoll? && id !in RecordedBy(Run(events), e)))
  {
    var s := Run(events);
    ListIsRecorded(events);
    ListFollows(s, e);
    StepAppends(s, e);
    if e.Poll? && Count(Added(s, e), id) > 0 {
      AddedIsInFeed(s, e, id);
    } else if !Processes(e) {
      assert Added(s, e) == [];
    }
  }

  lemma AddedIsInFeed(s: State, e: Event, id: nat)
    requires e.Poll? && Count(Added(s, e), id) > 0
    ensures id in IdsOf(e.items)
  {
    StepAppends(s, e);
    assert Added(s, e) == WantedIds(Arrivals(s, e.items), e.wanted);
    PollCounts(s, e.items, e.wanted, id);
    CountInFeed(e.items, e.wanted, id);
  }

  lemma {:induction false} CountInFeed(items: seq<FeedItem>, wanted: Filter, id: nat)
    requires CountWanted(items, wanted, id) > 0
    ensures id in IdsOf(items)
    decreases |items|
  {
    var n := |items| - 1;
    if items[n].id == id {
      assert Ids(items)[n] == id;
    } else {
      CountInFeed(items[..n], wanted, id);
      var i :| 0 <= i < n && Ids(items[..n])[i] == id;
      assert Ids(items)[i] == id;
    }
  }

  // ----- Without crashes, exactly once -----

  ghost predicate NoCrash(events: seq<Event>) {
    forall i | 0 <= i < |events| :: !events[i].Crash? && !IsCut(events[i])
  }

  lemma {:induction false} NoCrashNoCut(events: seq<Event>)
    requires NoCrash(events)
    ensures CutsAreWhole(events)
    decreases |events|
  {
    if events != [] {
      NoCrashNoCut(events[..|events| - 1]);
    }
  }

  /** Whether the first poll or marking run that had the id was a poll that wanted it. */
  ghost predicate FirstWanted(events: seq<Event>, id: nat) {
    exists k | 0 <= k < |events| :: WantsNew(events[..k], events[k], id)
  }

  ghost predicate WantsNew(before: seq<Event>, e: Event, id: nat) {
    e.Poll? && id !in Recorded(before) && Wants(e, id)
  }

  ghost predicate Wants(e: Event, id: nat)
    requires e.Poll?
  {
    exists i | 0 <= i < |e.items| :: e.items[i].id == id && e.wanted(e.items[i])
  }

  /** Without crashes an id is processed exactly once if the first poll that had it wanted it, and
      never otherwise: a later change of filters does not bring it back. */
  lemma {:induction false} ExactlyOnce(events: seq<Event>, id: nat)
    requires FeedsAreDistinct(events) && NoCrash(events)
    ensures Count(Run(events).processed, id) == if FirstWanted(events, id) then 1 else 0
    ensures FirstWanted(events, id) ==> id in Recorded(events)
    decreases |events|
  {
    if events != [] {
      var n := |events| - 1;
      var before, e := events[..n], events[n];
      ExactlyOnce(before, id);
      NoCrashNoCut(before);
      ListIsRecorded(before);
      var s := Run(before);
      FirstWantedGrows(events, id);
      if e.Poll? {
        CountBoth(s.processed, WantedIds(Arrivals(s, e.items), e.wanted), id);
        PollCounts(s, e.items, e.wanted, id);
        DistinctCount(e.items, e.wanted, id);
        if Wants(e, id) {
          var i :| 0 <= i < |e.items| && e.items[i].id == id && e.wanted(e.items[i]);
          assert Ids(e.items)[i] == id;
        }
      }
    }
  }

  lemma FirstWantedGrows(events: seq<Event>, id: nat)
    requires events != []
    ensures var n := |events| - 1;
            FirstWanted(events, id) <==> FirstWanted(events[..n], id) || WantsNew(events[..n], events[n], id)
  {
    var n := |events| - 1;
    forall k | 0 <= k < n
      ensures events[..n][..k] == events[..k] && events[..n][k] == events[k]
    {
    }
    if FirstWanted(events[..n], id) {
      var k :| 0 <= k < n && WantsNew(events[..n][..k], events[..n][k], id);
      assert WantsNew(events[..k], events[k], id);
    }
    if FirstWanted(events, id) {
      var k :| 0 <= k < |events| && WantsNew(events[..k], events[k], id);
      assert k < n ==> WantsNew(events[..n][..k], events[..n][k], id);
    }
  }
}
