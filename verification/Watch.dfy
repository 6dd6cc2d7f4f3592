/**
 The feed watcher: each poll takes the ids not seen before, oldest first, processes the wanted
 ones, and then adds all of them to the list of seen ids.
 */
module Watch {
  import opened Wrappers
  import opened Text
  import opened SeenList

  datatype FeedItem = FeedItem(id: Id, formType: string, committee: Option<string>)

  type Filter = FeedItem -> bool

  /** What the watcher remembers, its list on disk, and the ids it has processed so far. */
  datatype State = State(seen: set<nat>, list: string, processed: seq<nat>)

  function NewItems(items: seq<FeedItem>, seen: set<nat>): seq<FeedItem> {
    if items == [] then []
    else NewItems(items[..|items| - 1], seen) + if items[|items| - 1].id in seen then [] else [items[|items| - 1]]
  }

  /** Into sorted items, after those with the same id. */
  function InsertById(items: seq<FeedItem>, item: FeedItem): seq<FeedItem> {
    if items == [] || item.id < items[0].id then [item] + items else [items[0]] + InsertById(items[1..], item)
  }

  function SortById(items: seq<FeedItem>): seq<FeedItem> {
    if items == [] then [] else InsertById(SortById(items[..|items| - 1]), items[|items| - 1])
  }

  function Ids(items: seq<FeedItem>): (ids: seq<Id>)
    ensures |ids| == |items|
  {
    seq(|items|, i requires 0 <= i < |items| => items[i].id)
  }

  function WantedIds(items: seq<FeedItem>, wanted: Filter): seq<nat> {
    if items == [] then []
    else WantedIds(items[..|items| - 1], wanted) + if wanted(items[|items| - 1]) then [items[|items| - 1].id] else []
  }

  /** The new items of a poll, oldest first. */
  function Arrivals(s: State, items: seq<FeedItem>): seq<FeedItem> {
    SortById(NewItems(items, s.seen))
  }

  /** A poll that runs to its end. */
  function AfterPoll(s: State, items: seq<FeedItem>, wanted: Filter): State {
    var arrivals := Arrivals(s, items);
    State(s.seen + IdSet(Ids(arrivals)), s.list + IdLines(Ids(arrivals)), s.processed + WantedIds(arrivals, wanted))
  }

  /** The process died after processing `done` of the new items, and was started again. */
  function AfterCrash(s: State, items: seq<FeedItem>, wanted: Filter, done: nat): State {
    var arrivals := Arrivals(s, items);
    var reached := if done <= |arrivals| then arrivals[..done] else arrivals;
    State(ReadSeen(s.list), s.list, s.processed + WantedIds(reached, wanted))
  }

  /** A run that only marks what the feed has, and the watcher started after it. */
  function AfterMark(s: State, items: seq<FeedItem>): State {
    var list := s.list + IdLines(Ids(NewItems(items, s.seen)));
    State(ReadSeen(list), list, s.processed)
  }

  /** The process died in the middle of a poll's append, and was started again. */
  function AfterCutPoll(s: State, items: seq<FeedItem>, wanted: Filter, written: nat): State {
    var arrivals := Arrivals(s, items);
    var list := s.list + CutText(Ids(arrivals), written);
    State(ReadSeen(list), list, s.processed + WantedIds(arrivals, wanted))
  }

  function AfterCutMark(s: State, items: seq<FeedItem>, written: nat): State {
    var list := s.list + CutText(Ids(NewItems(items, s.seen)), written);
    State(ReadSeen(list), list, s.processed)
  }

  class Watcher {
    var seen: set<nat>
    var list: string
    var processed: seq<nat>

    /** Starts from a list on disk. */
    constructor (list: string)
      ensures seen == ReadSeen(list) && this.list == list && processed == []
    {
      this.list, processed, seen := list, [], ReadSeen(list);
    }

    method Poll(items: seq<FeedItem>, wanted: Filter)
      modifies this
      ensures State(seen, list, processed) == AfterPoll(old(State(seen, list, processed)), items, wanted)
    {
      var unseen := [];
      for i := 0 to |items|
        invariant unseen == NewItems(items[..i], seen)
      {
        assert items[..i + 1][..i] == items[..i];
        if items[i].id !in seen {
          unseen := unseen + [items[i]];
        }
      }
      assert items[..|items|] == items;
      var arrivals := SortById(unseen);
      ProcessWanted(arrivals, wanted);
      list := list + IdLines(Ids(arrivals));
      seen := seen + IdSet(Ids(arrivals));
    }

    method ProcessWanted(arrivals: seq<FeedItem>, wanted: Filter)
      modifies this`processed
      ensures processed == old(processed) + WantedIds(arrivals, wanted)
    {
      for i := 0 to |arrivals|
        invariant processed == old(processed) + WantedIds(arrivals[..i], wanted)
      {
        assert arrivals[..i + 1][..i] == arrivals[..i];
        if wanted(arrivals[i]) {
          processed := processed + [arrivals[i].id];
        }
      }
      assert arrivals[..|arrivals|] == arrivals;
    }
  }

  // ----- Sorting -----

  predicate IsSortedById(items: seq<FeedItem>) {
    forall i, j | 0 <= i < j < |items| :: items[i].id <= items[j].id
  }

  lemma {:induction false} InsertKeepsItems(items: seq<FeedItem>, item: FeedItem)
    ensures multiset(InsertById(items, item)) == multiset(items) + multiset{item}
    decreases |items|
  {
    if items != [] && item.id >= items[0].id {
      InsertKeepsItems(items[1..], item);
      assert items == [items[0]] + items[1..];
    } else {
      assert InsertById(items, item) == [item] + items;
    }
  }

  lemma {:induction false} InsertSorts(items: seq<FeedItem>, item: FeedItem)
    requires IsSortedById(items)
    ensures IsSortedById(InsertById(items, item))
    ensures InsertById(items, item)[0].id == item.id || (items != [] && InsertById(items, item)[0].id == items[0].id)
    decreases |items|
  {
    if items != [] && item.id >= items[0].id {
      InsertSorts(items[1..], item);
      SmallestFirst(items[0], InsertById(items[1..], item));
    } else {
      assert InsertById(items, item) == [item] + items;
    }
  }

  lemma SmallestFirst(item: FeedItem, items: seq<FeedItem>)
    requires IsSortedById(items) && items != [] && item.id <= items[0].id
    ensures IsSortedById([item] + items)
  {
  }

  lemma {:induction false} SortSorts(items: seq<FeedItem>)
    ensures IsSortedById(SortById(items)) && multiset(SortById(items)) == multiset(items)
    decreases |items|
  {
    if items != [] {
      var n := |items| - 1;
      SortSorts(items[..n]);
      InsertSorts(SortById(items[..n]), items[n]);
      InsertKeepsItems(SortById(items[..n]), items[n]);
      assert items == items[..n] + [items[n]];
    }
  }

  predicate IsSorted(ids: seq<nat>) {
    forall i, j | 0 <= i < j < |ids| :: ids[i] <= ids[j]
  }

  lemma {:induction false} WantedStaySorted(items: seq<FeedItem>, wanted: Filter)
    requires IsSortedById(items)
    ensures IsSorted(WantedIds(items, wanted))
    ensures items != [] ==> forall i | 0 <= i < |WantedIds(items, wanted)| :: WantedIds(items, wanted)[i] <= items[|items| - 1].id
    decreases |items|
  {
    if items != [] {
      WantedStaySorted(items[..|items| - 1], wanted);
    }
  }

  /** Each poll processes its ids in ascending order, so an amendment after its original. */
  lemma PollsAscend(s: State, items: seq<FeedItem>, wanted: Filter)
    ensures IsSorted(AfterPoll(s, items, wanted).processed[|s.processed|..])
  {
    var arrivals := Arrivals(s, items);
    SortSorts(NewItems(items, s.seen));
    WantedStaySorted(arrivals, wanted);
    assert AfterPoll(s, items, wanted).processed[|s.processed|..] == WantedIds(arrivals, wanted);
  }
}
