/**
 What a run of loads leaves: failures change nothing, cycles do not disturb each other, skipping
 an unchanged file gives the same rows as loading it, and exactly when the last is so.
 */
module ReloadRuns {
  import opened Wrappers
  import opened Cycles
  import opened Limits
  import opened Reload

  function Run(calls: seq<Call>): State {
    if calls == [] then State(map[], []) else LoadStep(Run(calls[..|calls| - 1]), calls[|calls| - 1]).0
  }

  // ----- One call -----

  /** A call that does not load leaves rows and log as they were. */
  lemma FailureChangesNothing(s: State, call: Call)
    ensures !LoadStep(s, call).1.Loaded? <==> LoadStep(s, call).0 == s
  {
    if LoadStep(s, call).1.Loaded? {
      assert |LoadStep(s, call).0.log| == |s.log| + 1;
    }
  }

  lemma OtherCyclesAreUntouched(s: State, call: Call, other: Cycle)
    requires other != call.cycle
    ensures RowsOf(LoadStep(s, call).0.rows, other) == RowsOf(s.rows, other)
    ensures LastFullLoad(LoadStep(s, call).0.log, other) == LastFullLoad(s.log, other)
  {
    if LoadStep(s, call).1.Loaded? {
      assert (s.log + [Recorded(call)])[..|s.log|] == s.log;
    }
  }

  lemma SkippedNow(s: State, call: Call)
    ensures LoadStep(s, call).1.Skipped? <==>
            && call.ifChanged && call.fromUrl
            && LastFullLoad(s.log, call.cycle).Some?
            && var prev, now := LastFullLoad(s.log, call.cycle).value, call.head;
               || (now.etag.Some? && prev.etag.Some? && now.etag.value == prev.etag.value)
               || ((now.etag.None? || prev.etag.None?)
                   && now.lastModified.Some? && prev.lastModified.Some? && now.lastModified.value == prev.lastModified.value)
  {
  }

  /** Confirmation is asked for exactly when a call that is not skipped would replace more rows than
      its threshold without it; so as many rows as the threshold are replaced unasked. */
  lemma RefusedExactly(s: State, call: Call)
    ensures var outcome, existing := LoadStep(s, call).1, |RowsOf(s.rows, call.cycle)|;
            && (outcome.ConfirmationRequired? <==>
                  !outcome.Skipped? && call.mode == Replace && !call.confirmed && call.threshold < existing)
            && (outcome.ConfirmationRequired? ==> outcome.existing == existing)
  {
  }

  /** A call that is neither skipped nor refused loads exactly when there is a file and the database
      takes it. Its counts balance the cycle's rows; appending keeps the rows there were, replacing
      none of them; the file's rows come last, and the log gets one entry, which says what was done. */
  lemma LoadBalances(s: State, call: Call)
    ensures var (s', outcome) := LoadStep(s, call);
            && (outcome.Loaded? <==>
                  !outcome.Skipped? && !outcome.ConfirmationRequired? && call.got.Some? && call.copies)
            && (outcome.Loaded? ==>
                  var before, after := RowsOf(s.rows, call.cycle), RowsOf(s'.rows, call.cycle);
                  && |after| == |before| - outcome.replaced + outcome.loaded
                  && outcome.replaced == (if call.mode == Append then 0 else |before|)
                  && (call.mode == Append ==> before <= after)
                  && after[|after| - outcome.loaded..] <= call.got.value.rows
                  && outcome.loaded == Taken(|call.got.value.rows|, call.limit)
                  && s'.log == s.log + [LoadRow(call.cycle, call.mode, outcome.loaded, call.limit,
                                                if call.fromUrl then call.got.value.meta else RemoteMeta(None, None))])
  {
    if LoadStep(s, call).1.Loaded? {
      LoadLeaves(s, call);
      var before, staged := RowsOf(s.rows, call.cycle), Capped(call.got.value.rows, call.limit);
      assert (before + staged)[|before + staged| - |staged|..] == staged;
      assert staged[0..] == staged;
    }
  }

  /** How many of a file's rows a limit takes; a limit of 0 takes one. */
  function Taken(rows: nat, limit: Option<nat>): nat {
    if limit == None || rows <= limit.value then rows else if limit.value == 0 then 1 else limit.value
  }

  // ----- Runs -----

  /** The calls of a run that loaded. */
  function OnlyLoads(calls: seq<Call>): seq<Call> {
    if calls == [] then []
    else
      var before, last := calls[..|calls| - 1], calls[|calls| - 1];
      OnlyLoads(before) + if LoadStep(Run(before), last).1.Loaded? then [last] else []
  }

  /** Leaving out of a run every call that was skipped, refused or failed changes nothing. */
  lemma {:induction false} OnlyLoadsMatter(calls: seq<Call>)
    ensures Run(OnlyLoads(calls)) == Run(calls)
    decreases |calls|
  {
    if calls != [] {
      var n := |calls| - 1;
      OnlyLoadsMatter(calls[..n]);
      FailureChangesNothing(Run(calls[..n]), calls[n]);
      if LoadStep(Run(calls[..n]), calls[n]).1.Loaded? {
        assert (OnlyLoads(calls[..n]) + [calls[n]])[..|OnlyLoads(calls[..n])|] == OnlyLoads(calls[..n]);
      } else {
        assert OnlyLoads(calls) == OnlyLoads(calls[..n]);
      }
    }
  }

  lemma OneCallKeepsRows(s: State, call: Call, cycle: Cycle)
    requires !call.confirmed && |RowsOf(s.rows, cycle)| > call.threshold
    ensures RowsOf(s.rows, cycle) <= RowsOf(LoadStep(s, call).0.rows, cycle)
  {
  }

  /** Without confirmation no run deletes a row of a cycle that has more rows than every call's
      threshold, however many calls it takes: the cycle only ever gets more rows. */
  lemma {:induction false} UnconfirmedRunsKeepRows(calls: seq<Call>, from: nat, cycle: Cycle)
    requires from <= |calls|
    requires forall i | from <= i < |calls| :: !calls[i].confirmed && calls[i].threshold < |RowsOf(Run(calls[..from]).rows, cycle)|
    ensures RowsOf(Run(calls[..from]).rows, cycle) <= RowsOf(Run(calls).rows, cycle)
    decreases |calls|
  {
    if from < |calls| {
      var n := |calls| - 1;
      assert calls[..n][..from] == calls[..from];
      UnconfirmedRunsKeepRows(calls[..n], from, cycle);
      OneCallKeepsRows(Run(calls[..n]), calls[n], cycle);
    } else {
      assert calls[..from] == calls;
    }
  }

  // ----- A cycle's rows from its committed loads -----

  /** The calls of a run that loaded rows of the cycle. */
  function Loads(calls: seq<Call>, cycle: Cycle): seq<Call> {
    if calls == [] then []
    else
      var before, last := calls[..|calls| - 1], calls[|calls| - 1];
      if last.cycle == cycle && LoadStep(Run(before), last).1.Loaded? then Loads(before, cycle) + [last]
      else Loads(before, cycle)
  }

  /** What loading one after the other leaves in an empty table. */
  function RowsAfter(loads: seq<Call>): seq<Fields> {
    if loads == [] then []
    else
      var last := loads[|loads| - 1];
      var staged := if last.got.Some? then Capped(last.got.value.rows, last.limit) else [];
      if last.mode == Replace then staged else RowsAfter(loads[..|loads| - 1]) + staged
  }

  function LastFull(loads: seq<Call>): Option<Call> {
    if loads == [] then None
    else
      var last := loads[|loads| - 1];
      if last.limit.None? then Some(last) else LastFull(loads[..|loads| - 1])
  }

  /** After any run whatever, a cycle's rows are those of its committed loads, and the skip test
      looks at the last full one of them. */
  lemma {:induction false} RowsAreOfLoads(calls: seq<Call>, cycle: Cycle)
    ensures RowsOf(Run(calls).rows, cycle) == RowsAfter(Loads(calls, cycle))
    ensures forall i | 0 <= i < |Loads(calls, cycle)| :: Loads(calls, cycle)[i].got.Some?
    ensures var full := LastFull(Loads(calls, cycle));
            LastFullLoad(Run(calls).log, cycle)
            == if full.Some? && full.value.got.Some? then Some(Recorded(full.value).meta) else None
    ensures LastFull(Loads(calls, cycle)).Some? ==> LastFull(Loads(calls, cycle)).value.got.Some?
  {
    if calls != [] {
      var before, last := calls[..|calls| - 1], calls[|calls| - 1];
      RowsAreOfLoads(before, cycle);
      var s := Run(before);
      if last.cycle != cycle {
        OtherCyclesAreUntouched(s, last, cycle);
      } else if LoadStep(s, last).1.Loaded? {
        LoadLeaves(s, last);
        OneMoreLoad(Loads(before, cycle), last);
      }
    }
  }

  /** After any run a call is skipped exactly when it asks for that, by URL, and the last full load the
      cycle had was of a URL and gave the ETag the server gives now, or, when one of the two gave none,
      its modification time. */
  lemma SkippedExactly(calls: seq<Call>, call: Call)
    ensures LoadStep(Run(calls), call).1.Skipped? <==>
            var full, now := LastFull(Loads(calls, call.cycle)), call.head;
            && call.ifChanged && call.fromUrl && full.Some? && full.value.got.Some? && full.value.fromUrl
            && var was := full.value.got.value.meta;
               if now.etag.Some? && was.etag.Some? then now.etag.value == was.etag.value
               else now.lastModified.Some? && was.lastModified.Some? && now.lastModified.value == was.lastModified.value
  {
    RowsAreOfLoads(calls, call.cycle);
    SkippedNow(Run(calls), call);
  }

  lemma LoadLeaves(s: State, call: Call)
    requires LoadStep(s, call).1.Loaded?
    ensures call.got.Some?
    ensures var staged := Capped(call.got.value.rows, call.limit);
            RowsOf(LoadStep(s, call).0.rows, call.cycle)
            == if call.mode == Replace then staged else RowsOf(s.rows, call.cycle) + staged
    ensures LastFullLoad(LoadStep(s, call).0.log, call.cycle)
            == if call.limit.None? then Some(Recorded(call).meta) else LastFullLoad(s.log, call.cycle)
  {
    assert (s.log + [Recorded(call)])[..|s.log|] == s.log;
    assert [] + Capped(call.got.value.rows, call.limit) == Capped(call.got.value.rows, call.limit);
  }

  lemma OneMoreLoad(loads: seq<Call>, call: Call)
    requires call.got.Some?
    ensures var staged := Capped(call.got.value.rows, call.limit);
            RowsAfter(loads + [call]) == if call.mode == Replace then staged else RowsAfter(loads) + staged
    ensures LastFull(loads + [call]) == if call.limit.None? then Some(call) else LastFull(loads)
  {
    assert (loads + [call])[..|loads|] == loads;
  }

  // ----- Exactly when a skip is right -----

  /** How a load was asked for. */
  datatype Shape = Shape(mode: Mode, limit: Option<nat>)

  function ShapeOf(call: Call): Shape {
    Shape(call.mode, call.limit)
  }

  ghost predicate HasShapes(loads: seq<Call>, shapes: seq<Shape>) {
    |loads| == |shapes| && forall i | 0 <= i < |loads| :: ShapeOf(loads[i]) == shapes[i] && loads[i].got.Some? && loads[i].fromUrl
  }

  /** Two files with one ETag have the same rows; so have two with one modification time when an
      ETag is missing. */
  predicate HeadersTell(a: File, b: File) {
    && (a.meta.etag.Some? && a.meta.etag == b.meta.etag ==> a.rows == b.rows)
    && (a.meta.etag.None? || b.meta.etag.None? ==>
          a.meta.lastModified.Some? && a.meta.lastModified == b.meta.lastModified ==> a.rows == b.rows)
  }

  /** The server's headers determine the file's rows. */
  ghost predicate Determined(loads: seq<Call>, current: File) {
    forall i | 0 <= i < |loads| && loads[i].got.Some? :: HeadersTell(current, loads[i].got.value)
  }

  /** Whether the skip test, after these loads, holds only if the table has the current file's rows. */
  ghost predicate SkipIsRight(loads: seq<Call>, current: File) {
    var full := LastFull(loads);
    full.Some? && full.value.got.Some? && Matches(current.meta, Recorded(full.value).meta) ==> RowsAfter(loads) == current.rows
  }

  /** The newest load had no limit, and replaced the rows or was the first. */
  predicate EndsFull(shapes: seq<Shape>) {
    && shapes != []
    && shapes[|shapes| - 1].limit.None?
    && (shapes[|shapes| - 1].mode == Replace || |shapes| == 1)
  }

  predicate HasFull(shapes: seq<Shape>) {
    exists i | 0 <= i < |shapes| :: shapes[i].limit.None?
  }

  ghost predicate AlwaysRight(shapes: seq<Shape>) {
    forall loads, current | HasShapes(loads, shapes) && Determined(loads, current) :: SkipIsRight(loads, current)
  }

  lemma EndsFullIsRight(loads: seq<Call>, shapes: seq<Shape>, current: File)
    requires HasShapes(loads, shapes) && Determined(loads, current) && EndsFull(shapes)
    ensures SkipIsRight(loads, current)
  {
    var last := loads[|loads| - 1];
    assert ShapeOf(last) == shapes[|loads| - 1];
    if last.mode == Append {
      assert loads[..0] == [];
      assert [] + last.got.value.rows == last.got.value.rows;
    }
  }

  /** The same file loaded each time, as asked. */
  function SameFile(shapes: seq<Shape>, file: File): (loads: seq<Call>)
    ensures |loads| == |shapes|
  {
    seq(|shapes|, i requires 0 <= i < |shapes| =>
      Call(1976, shapes[i].mode, shapes[i].limit, false, true, 0, true, NO_META, Some(file), true))
  }

  function RowsOfLength(n: nat): (rows: seq<Fields>)
    ensures |rows| == n
  {
    seq(n, _ => [])
  }

  /** The most rows that limited loads alone can leave. */
  function LimitedTotal(shapes: seq<Shape>): nat {
    if shapes == [] then 0
    else
      var rest, last := LimitedTotal(shapes[..|shapes| - 1]), shapes[|shapes| - 1];
      if last.limit.None? then rest else if last.limit.value == 0 then rest + 1 else rest + last.limit.value
  }

  /** Loads of one file too long for the limits: the table has as many rows as the file only after
      loads that end full. */
  lemma {:induction false} SameFileLengths(shapes: seq<Shape>, file: File)
    requires |file.rows| > LimitedTotal(shapes)
    ensures var rows := |RowsAfter(SameFile(shapes, file))|;
            && (shapes != [] ==> rows > 0)
            && (rows <= LimitedTotal(shapes) || rows > |file.rows| || (EndsFull(shapes) && rows == |file.rows|))
    ensures var full := LastFull(SameFile(shapes, file));
            full.Some? == HasFull(shapes) && (full.Some? ==> full.value.got == Some(file) && full.value.fromUrl)
    decreases |shapes|
  {
    if shapes != [] {
      var n := |shapes| - 1;
      SameFileLengths(shapes[..n], file);
      assert SameFile(shapes, file)[..n] == SameFile(shapes[..n], file);
      assert HasFull(shapes) <==> HasFull(shapes[..n]) || shapes[n].limit.None?;
    }
  }

  lemma NotEndsFullIsWrong(shapes: seq<Shape>)
    requires HasFull(shapes) && !EndsFull(shapes)
    ensures exists loads, current | HasShapes(loads, shapes) && Determined(loads, current) :: !SkipIsRight(loads, current)
  {
    var file := File(RowsOfLength(LimitedTotal(shapes) + 1), RemoteMeta(Some("v"), None));
    var loads := SameFile(shapes, file);
    SameFileLengths(shapes, file);
    assert HasShapes(loads, shapes) && Determined(loads, file);
    assert !SkipIsRight(loads, file);
  }

  /** The skip test is right for every content of the files loaded if and only if no load was full,
      or the newest load was full and replaced the rows or was the first. */
  lemma SkipsRightlyExactly(shapes: seq<Shape>)
    ensures AlwaysRight(shapes) <==> !HasFull(shapes) || EndsFull(shapes)
  {
    if EndsFull(shapes) {
      forall loads, current | HasShapes(loads, shapes) && Determined(loads, current)
        ensures SkipIsRight(loads, current)
      {
        EndsFullIsRight(loads, shapes, current);
      }
    } else if HasFull(shapes) {
      NotEndsFullIsWrong(shapes);
    } else {
      forall loads, current | HasShapes(loads, shapes) && Determined(loads, current)
        ensures SkipIsRight(loads, current)
      {
        NoFullLoad(loads, shapes);
      }
    }
  }

  lemma {:induction false} NoFullLoad(loads: seq<Call>, shapes: seq<Shape>)
    requires HasShapes(loads, shapes) && !HasFull(shapes)
    ensures LastFull(loads).None?
    decreases |loads|
  {
    if loads != [] {
      var n := |loads| - 1;
      assert ShapeOf(loads[n]) == shapes[n];
      assert HasFull(shapes[..n]) ==> HasFull(shapes);
      NoFullLoad(loads[..n], shapes[..n]);
    }
  }

  // ----- Skipping refines always loading -----

  function AlwaysLoading(calls: seq<Call>): (r: seq<Call>)
    ensures |r| == |calls|
  {
    seq(|calls|, i requires 0 <= i < |calls| => calls[i].(ifChanged := false))
  }

  /** Only full replacing loads; and the file does not change between a HEAD and its download. */
  ghost predicate FullReplacing(calls: seq<Call>) {
    forall i | 0 <= i < |calls| ::
      && calls[i].mode == Replace && calls[i].limit.None?
      && (calls[i].got.Some? && calls[i].ifChanged && calls[i].fromUrl ==>
            calls[i].head == NO_META || calls[i].head == calls[i].got.value.meta)
  }

  /** Equal validators mean equal content, over the files of a run. */
  ghost predicate ValidatorsDetermine(calls: seq<Call>) {
    forall i, j | 0 <= i < |calls| && 0 <= j < |calls| ::
      && calls[i].got.Some? && calls[j].got.Some? && calls[i].fromUrl && calls[j].fromUrl
      && calls[i].cycle == calls[j].cycle
      ==> HeadersTell(calls[i].got.value, calls[j].got.value)
  }

  lemma {:induction false} LoadsAreCalls(calls: seq<Call>, cycle: Cycle, k: nat)
    requires k < |Loads(calls, cycle)|
    ensures exists i | 0 <= i < |calls| :: calls[i] == Loads(calls, cycle)[k] && calls[i].cycle == cycle
    decreases |calls|
  {
    var n := |calls| - 1;
    if k < |Loads(calls[..n], cycle)| {
      LoadsAreCalls(calls[..n], cycle, k);
      var i :| 0 <= i < n && calls[..n][i] == Loads(calls[..n], cycle)[k] && calls[..n][i].cycle == cycle;
      assert calls[i] == Loads(calls, cycle)[k];
    } else {
      assert calls[n] == Loads(calls, cycle)[k];
    }
  }

  /** With only full replacing loads, a cycle has the rows of its latest successful load. */
  lemma LatestLoadWins(calls: seq<Call>, cycle: Cycle)
    requires FullReplacing(calls)
    ensures var loads := Loads(calls, cycle);
            if loads == [] then RowsOf(Run(calls).rows, cycle) == [] && LastFullLoad(Run(calls).log, cycle).None?
            else
              var last := loads[|loads| - 1];
              && last.got.Some? && (exists i | 0 <= i < |calls| :: calls[i] == last && calls[i].cycle == cycle)
              && RowsOf(Run(calls).rows, cycle) == last.got.value.rows
              && LastFullLoad(Run(calls).log, cycle) == Some(Recorded(last).meta)
  {
    RowsAreOfLoads(calls, cycle);
    var loads := Loads(calls, cycle);
    if loads != [] {
      LoadsAreCalls(calls, cycle, |loads| - 1);
      LastLoadOnly(loads);
    }
  }

  lemma LastLoadOnly(loads: seq<Call>)
    requires loads != []
    requires var last := loads[|loads| - 1]; last.mode == Replace && last.limit.None? && last.got.Some?
    ensures RowsAfter(loads) == loads[|loads| - 1].got.value.rows && LastFull(loads) == Some(loads[|loads| - 1])
  {
  }

  /** A skipped call would have loaded the rows already there. */
  lemma SkipIsIdle(calls: seq<Call>)
    requires calls != [] && FullReplacing(calls) && ValidatorsDetermine(calls)
    requires var n := |calls| - 1; Skips(Run(calls[..n]).log, calls[n]) && calls[n].got.Some?
    ensures var n := |calls| - 1; RowsOf(Run(calls[..n]).rows, calls[n].cycle) == calls[n].got.value.rows
    ensures var n := |calls| - 1; calls[n].cycle in Run(calls[..n]).rows
  {
    var n := |calls| - 1;
    var before, last := calls[..n], calls[n];
    LatestLoadWins(before, last.cycle);
    RowsKeys(before, last.cycle);
    var loads := Loads(before, last.cycle);
    var source := loads[|loads| - 1];
    var i :| 0 <= i < |before| && before[i] == source && before[i].cycle == last.cycle;
    assert calls[i] == source;
  }

  lemma {:induction false} RowsKeys(calls: seq<Call>, cycle: Cycle)
    ensures Loads(calls, cycle) != [] ==> cycle in Run(calls).rows
  {
    if calls != [] {
      RowsKeys(calls[..|calls| - 1], cycle);
    }
  }

  /** Over any run of full replacing loads, failures and refusals included, a run that skips
      unchanged files has the same rows as the run that never skips. */
  lemma {:induction false} SkippingIsAlwaysLoading(calls: seq<Call>)
    requires FullReplacing(calls) && ValidatorsDetermine(calls)
    ensures Run(calls).rows == Run(AlwaysLoading(calls)).rows
    decreases |calls|
  {
    if calls != [] {
      var n := |calls| - 1;
      var before, last := calls[..n], calls[n];
      assert AlwaysLoading(calls)[..n] == AlwaysLoading(before);
      SkippingIsAlwaysLoading(before);
      var s, t := Run(before), Run(AlwaysLoading(before));
      assert AlwaysLoading(calls)[n] == last.(ifChanged := false);
      if Skips(s.log, last) {
        if last.got.Some? {
          SkipIsIdle(calls);
        }
        LoadingAgainIsIdle(t, last.(ifChanged := false));
      } else {
        LoadingIsAlike(s, t, last);
      }
    }
  }

  /** Replacing a cycle's rows with the same rows changes none. */
  lemma LoadingAgainIsIdle(s: State, call: Call)
    requires call.mode == Replace && call.limit.None? && !call.ifChanged
    requires call.got.Some? ==> call.cycle in s.rows && s.rows[call.cycle] == call.got.value.rows
    ensures LoadStep(s, call).0.rows == s.rows
  {
    if call.got.Some? {
      assert [] + call.got.value.rows == call.got.value.rows;
      assert s.rows[call.cycle := call.got.value.rows] == s.rows;
    }
  }

  /** A call that does not skip does the same to the rows as one that never does. */
  lemma LoadingIsAlike(s: State, t: State, call: Call)
    requires s.rows == t.rows && !Skips(s.log, call)
    ensures LoadStep(s, call).0.rows == LoadStep(t, call.(ifChanged := false)).0.rows
  {
  }
}
