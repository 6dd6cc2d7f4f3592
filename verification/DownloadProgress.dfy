/**
 Progress of the download: while one version stays published and every interrupted attempt
 delivers a byte, the distance to the finished file falls, so finitely many attempts finish it.
 */
module DownloadProgress {
  import opened Wrappers
  import opened Download
  import opened DownloadRuns

  predicate NamedBySaved(d: Disk, v: Version) {
    IfRangeValue(Saved(d)).Some? && Names(IfRangeValue(Saved(d)).value, v)
  }

  /** A partial whose saved validator names `v` begins `v`; every reachable state has this. */
  ghost predicate Sound(d: Disk, v: Version) {
    d.partial.Some? && NamedBySaved(d, v) ==> d.partial.value <= v.content
  }

  lemma ReachableIsSound(s: Server, run: seq<World>, i: nat, v: Version)
    requires Trustworthy(s) && Run(s, run) && i < |run| && v in run[i].versions
    ensures Sound(run[i].disk, v)
  {
    NeverSplices(s, run, i);
    var w := run[i];
    if i > 0 {
      assert Step(s, run[i - 1], w);
    }
    if w.disk.partial.Some? && w.disk.partial.value != [] && NamedBySaved(w.disk, v) {
      var u :| u in w.versions && w.disk.partial.value <= u.content
               && Names(IfRangeValue(Saved(w.disk)).value, u);
      assert u.content == v.content;
    }
  }

  /** An answer that honours `Range`, names its version and, if cut short, brings a byte. */
  ghost predicate Delivers(v: Version, d: Disk, from: nat, r: RangeResponse) {
    && DrawnFrom(v, from, r)
    && r.etag == v.etag && r.lastModified == v.lastModified && r.total == Some(|v.content|)
    && (from > 0 && NamedBySaved(d, v) ==> r.start == from)
    && (r.start > 0 ==> NamedBySaved(d, v) || (v.etag.Some? && Saved(d).etag.Some?))
    && (r.dropped || r.start + |r.body| < |v.content| ==> r.body != [])
  }

  ghost predicate Cooperates(v: Version, d: Disk, first: Fetched, second: Fetched) {
    && (v.etag.Some? || v.lastModified.Some?)
    && first.Answer? && Delivers(v, d, ResumeFrom(d), first.response)
    && (TagChanged(Saved(d), first.response) ==> second.Answer? && Delivers(v, d, 0, second.response))
  }

  /** How far the partial is from the whole of `v`; the most if it has to be started again. */
  function Gap(d: Disk, v: Version): nat
    requires Sound(d, v)
  {
    if d.partial.Some? && NamedBySaved(d, v) then |v.content| - |d.partial.value| else |v.content| + 1
  }

  lemma EndingCompletes(ending: seq<FileOp>, d: Disk, v: Version)
    requires d.partial.Some? && d.partial.value <= v.content
    requires ending == [] || ending == [RenamePartial] || ending == [RemovePartial, RemoveMeta]
    ensures ending == [RenamePartial] && |d.partial.value| == |v.content| ==>
              PerformAll(ending, d).dest == Some(v.content)
  {
    if ending == [RenamePartial] && |d.partial.value| == |v.content| {
      assert d.partial.value == v.content[..|v.content|] == v.content;
      assert ending[1..] == [];
      assert PerformAll(ending, d) == Perform(RenamePartial, d);
    }
  }

  lemma RestartProgress(d: Disk, v: Version, r: RangeResponse, existing: nat)
    requires r.start == 0 && Delivers(v, d, 0, r) && (v.etag.Some? || v.lastModified.Some?)
    ensures var attempted := Receive(d, r, existing);
            var d' := PerformAll(attempted.ops, d);
            !attempted.outcome.PartialDiscarded? && !attempted.outcome.HttpRefused?
            && Sound(d', v)
            && (if attempted.outcome.Complete? then d'.dest == Some(v.content)
                else Gap(d', v) < |v.content|)
  {
    var remote := RemoteDump(r.total, r.etag, r.lastModified);
    var ending := ReceiveShape(d, r, existing);
    assert v.content[0..] == v.content;
    assert [TruncatePartial, WriteMeta(remote)] + [AppendPartial(r.body)] + ending
        == [TruncatePartial] + ([WriteMeta(remote)] + ([AppendPartial(r.body)] + ending));
    var d1 := Perform(TruncatePartial, d);
    var d2 := Perform(WriteMeta(remote), d1);
    var d3 := Perform(AppendPartial(r.body), d2);
    PerformAllAppend([TruncatePartial], [WriteMeta(remote)] + ([AppendPartial(r.body)] + ending), d);
    PerformAllAppend([WriteMeta(remote)], [AppendPartial(r.body)] + ending, d1);
    PerformAllAppend([AppendPartial(r.body)], ending, d2);
    assert d3.partial == Some(r.body) by { assert [] + r.body == r.body; }
    assert NamedBySaved(d3, v);
    assert PerformAll(Receive(d, r, existing).ops, d) == PerformAll(ending, d3);
    EndingCompletes(ending, d3, v);
  }

  lemma ResumeProgress(d: Disk, v: Version, r: RangeResponse)
    requires Sound(d, v) && r.start > 0 && Delivers(v, d, ResumeFrom(d), r) && !TagChanged(Saved(d), r)
    ensures NamedBySaved(d, v)
    ensures var attempted := Receive(d, r, ResumeFrom(d));
            var d' := PerformAll(attempted.ops, d);
            !attempted.outcome.PartialDiscarded? && !attempted.outcome.HttpRefused?
            && Sound(d', v)
            && (if attempted.outcome.Complete? then d'.dest == Some(v.content)
                else Gap(d', v) < Gap(d, v))
  {
    assert NamedBySaved(d, v);
    var ending := ReceiveShape(d, r, ResumeFrom(d));
    assert [] + [AppendPartial(r.body)] + ending == [AppendPartial(r.body)] + ending;
    PerformAllAppend([AppendPartial(r.body)], ending, d);
    var d1 := Perform(AppendPartial(r.body), d);
    assert d1.partial.value == d.partial.value + r.body <= v.content;
    assert PerformAll(Receive(d, r, ResumeFrom(d)).ops, d) == PerformAll(ending, d1);
    EndingCompletes(ending, d1, v);
  }

  /** One attempt finishes with exactly the published bytes or strictly narrows the gap; it is never
      refused and never has to discard an oversized partial. */
  lemma AttemptProgress(d: Disk, v: Version, first: Fetched, second: Fetched)
    requires Sound(d, v) && Cooperates(v, d, first, second)
    ensures var attempted := Attempt(d, first, second);
            var d' := PerformAll(attempted.ops, d);
            !attempted.outcome.PartialDiscarded? && !attempted.outcome.HttpRefused?
            && Sound(d', v)
            && (if attempted.outcome.Complete? then d'.dest == Some(v.content)
                else Gap(d', v) < Gap(d, v))
  {
    var r := first.response;
    if TagChanged(Saved(d), r) {
      var gone := d.(partial := None, meta := None);
      var again := second.response;
      var rest := Receive(gone, again, ResumeFrom(d));
      PerformAllAppend([RemovePartial, RemoveMeta], rest.ops, d);
      PerformTwo(RemovePartial, RemoveMeta, d);
      RestartProgress(gone, v, again, ResumeFrom(d));
      assert !NamedBySaved(d, v);
    } else if r.start == 0 {
      RestartProgress(d, v, r, ResumeFrom(d));
    } else {
      ResumeProgress(d, v, r);
    }
  }

  /** Attempts one after another until one completes. */
  function Persist(d: Disk, answers: seq<(Fetched, Fetched)>): (Disk, bool)
    decreases answers
  {
    if answers == [] then (d, false)
    else
      var attempted := Attempt(d, answers[0].0, answers[0].1);
      var d' := PerformAll(attempted.ops, d);
      if attempted.outcome.Complete? then (d', true) else Persist(d', answers[1..])
  }

  ghost predicate AllCooperate(v: Version, d: Disk, answers: seq<(Fetched, Fetched)>)
    decreases answers
  {
    answers == [] ||
    (Cooperates(v, d, answers[0].0, answers[0].1) &&
     AllCooperate(v, PerformAll(Attempt(d, answers[0].0, answers[0].1).ops, d), answers[1..]))
  }

  /** More attempts than the gap always reach the rename, whatever the state they start from. */
  lemma {:induction false} EnoughAttemptsFinish(v: Version, d: Disk, answers: seq<(Fetched, Fetched)>)
    requires Sound(d, v) && AllCooperate(v, d, answers)
    requires |answers| > Gap(d, v)
    decreases answers
    ensures Persist(d, answers).1 && Persist(d, answers).0.dest == Some(v.content)
  {
    AttemptProgress(d, v, answers[0].0, answers[0].1);
    var attempted := Attempt(d, answers[0].0, answers[0].1);
    if !attempted.outcome.Complete? {
      EnoughAttemptsFinish(v, PerformAll(attempted.ops, d), answers[1..]);
    }
  }
}
