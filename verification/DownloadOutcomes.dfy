/**
 What one attempt leaves on disk, for every outcome, whatever was there and whatever the server
 answered.
 */
module DownloadOutcomes {
  import opened Wrappers
  import opened Download

  /** A resumed answer that names another version than the sidecar. */
  predicate NamesAnother(d: Disk, r: RangeResponse) {
    r.start > 0 && r.etag.Some? && Saved(d).etag.Some? && r.etag.value != Saved(d).etag.value
  }

  /** The answer whose body is received, if there is one: the first, from byte 0 or from the end of the
      partial; or, if it names another version, the second, from byte 0. */
  function Used(d: Disk, first: Fetched, second: Fetched): Option<RangeResponse> {
    if first.FetchFailed? then None
    else if NamesAnother(d, first.response) then
      if second.Answer? && second.response.start == 0 then Some(second.response) else None
    else if first.response.start == 0 || first.response.start == ResumeFrom(d) then Some(first.response)
    else None
  }

  /** What the partial holds once the body is received. */
  function Whole(d: Disk, r: RangeResponse): Bytes {
    (if r.start > 0 && d.partial.Some? then d.partial.value else []) + r.body
  }

  function RemoteOf(r: RangeResponse): RemoteDump {
    RemoteDump(r.total, r.etag, r.lastModified)
  }

  /** A response that ended, and declared `total` bytes. */
  predicate EndsWith(r: RangeResponse, total: nat) {
    !r.dropped && r.total == Some(total)
  }

  /** The files after the body of `r`: kept to go on from, removed, or finished. */
  function Kept(d: Disk, r: RangeResponse): Disk {
    Disk(Some(Whole(d, r)), if r.start == 0 then Some(RemoteOf(r)) else d.meta, d.dest)
  }

  lemma BodyIsAppended(d: Disk, r: RangeResponse, existing: nat)
    requires r.start == 0 || (r.start == existing && d.meta.Some? && d.partial.Some?)
    ensures var received := (if r.start == 0 then [TruncatePartial] else [])
                            + (if r.start == 0 || d.meta.None? then [WriteMeta(RemoteOf(r))] else [])
                            + [AppendPartial(r.body)];
            PerformAll(received, d) == Kept(d, r)
  {
    var append := AppendPartial(r.body);
    if r.start == 0 {
      var opening := [TruncatePartial, WriteMeta(RemoteOf(r))];
      PerformTwo(TruncatePartial, WriteMeta(RemoteOf(r)), d);
      PerformAllAppend(opening, [append], d);
      assert [TruncatePartial] + [WriteMeta(RemoteOf(r))] == opening;
    } else {
      assert [] + [] + [append] == [append];
    }
    PerformOne(append, if r.start == 0 then Perform(WriteMeta(RemoteOf(r)), Perform(TruncatePartial, d)) else d);
  }

  lemma PerformOne(op: FileOp, d: Disk)
    ensures PerformAll([op], d) == Perform(op, d)
  {
    assert [op][1..] == [];
  }

  /** How each way of ending a response leaves the files and the outcome. */
  lemma ReceiveLeaves(d: Disk, r: RangeResponse, existing: nat)
    requires r.start == 0 || (r.start == existing && d.meta.Some? && d.partial.Some? && |d.partial.value| == existing)
    ensures var attempted, n := Receive(d, r, existing), |Whole(d, r)|;
            var d' := PerformAll(attempted.ops, d);
            if r.dropped then attempted.outcome == ConnectionDropped && d' == Kept(d, r)
            else if r.total.Some? && n < r.total.value then
              attempted.outcome == Incomplete(r.total.value, n) && d' == Kept(d, r)
            else if r.total.Some? && n > r.total.value then
              attempted.outcome == PartialDiscarded && d' == Disk(None, None, d.dest)
            else
              && attempted.outcome == Complete(RemoteDump(Some(n), r.etag, r.lastModified))
              && d' == Disk(None, Kept(d, r).meta, Some(Whole(d, r)))
  {
    BodyIsAppended(d, r, existing);
    var received := (if r.start == 0 then [TruncatePartial] else [])
                    + (if r.start == 0 || d.meta.None? then [WriteMeta(RemoteOf(r))] else [])
                    + [AppendPartial(r.body)];
    PerformAllAppend(received, [RemovePartial, RemoveMeta], d);
    PerformTwo(RemovePartial, RemoveMeta, Kept(d, r));
    PerformAllAppend(received, [RenamePartial], d);
    PerformOne(RenamePartial, Kept(d, r));
  }

  /** An attempt that has no answer to use: refused, and nothing lost but a partial of another
      version. */
  lemma RefusedExactly(d: Disk, first: Fetched, second: Fetched)
    ensures var attempted := Attempt(d, first, second);
            var d' := PerformAll(attempted.ops, d);
            && (attempted.outcome == HttpRefused <==> Used(d, first, second).None?)
            && (Used(d, first, second).None? ==>
                  d' == if first.Answer? && NamesAnother(d, first.response) then Disk(None, None, d.dest) else d)
  {
    PerformTwo(RemovePartial, RemoveMeta, d);
  }

  /** An attempt that has one leaves what that answer leaves; a version change only loses the partial
      it makes useless. */
  lemma AttemptLeaves(d: Disk, first: Fetched, second: Fetched)
    requires Used(d, first, second).Some?
    ensures var r := Used(d, first, second).value;
            var attempted, n := Attempt(d, first, second), |Whole(d, r)|;
            var d' := PerformAll(attempted.ops, d);
            if r.dropped then attempted.outcome == ConnectionDropped && d' == Kept(d, r)
            else if r.total.Some? && n < r.total.value then
              attempted.outcome == Incomplete(r.total.value, n) && d' == Kept(d, r)
            else if r.total.Some? && n > r.total.value then
              attempted.outcome == PartialDiscarded && d' == Disk(None, None, d.dest)
            else
              && attempted.outcome == Complete(RemoteDump(Some(n), r.etag, r.lastModified))
              && d' == Disk(None, Kept(d, r).meta, Some(Whole(d, r)))
  {
    var r := Used(d, first, second).value;
    if NamesAnother(d, first.response) {
      var gone := Disk(None, None, d.dest);
      PerformTwo(RemovePartial, RemoveMeta, d);
      PerformAllAppend([RemovePartial, RemoveMeta], Receive(gone, r, ResumeFrom(d)).ops, d);
      ReceiveLeaves(gone, r, ResumeFrom(d));
    } else {
      ReceiveLeaves(d, r, ResumeFrom(d));
    }
  }

  /** A partial is discarded exactly when the answer ended and declared fewer bytes than there then
      are. Partial and sidecar are gone, so the next attempt asks from byte 0. */
  lemma DiscardedExactly(d: Disk, first: Fetched, second: Fetched)
    ensures var attempted, used := Attempt(d, first, second), Used(d, first, second);
            var d' := PerformAll(attempted.ops, d);
            && (attempted.outcome == PartialDiscarded <==>
                  used.Some? && exists total: nat :: EndsWith(used.value, total) && total < |Whole(d, used.value)|)
            && (attempted.outcome == PartialDiscarded ==>
                  d'.partial == None && d'.meta == None && d'.dest == d.dest && ResumeFrom(d') == 0)
  {
    RefusedExactly(d, first, second);
    if Used(d, first, second).Some? {
      var r := Used(d, first, second).value;
      AttemptLeaves(d, first, second);
      assert r.total.Some? && !r.dropped ==> EndsWith(r, r.total.value);
    }
  }

  /** An attempt completes exactly when the answer ended and declared as many bytes as there then are,
      or no number; and only then does the finished file change, to the whole of them. */
  lemma CompletedExactly(d: Disk, first: Fetched, second: Fetched)
    ensures var attempted, used := Attempt(d, first, second), Used(d, first, second);
            var d' := PerformAll(attempted.ops, d);
            && (attempted.outcome.Complete? <==>
                  used.Some? && !used.value.dropped
                  && (used.value.total == None || used.value.total == Some(|Whole(d, used.value)|)))
            && d'.dest == (if attempted.outcome.Complete? then Some(Whole(d, used.value)) else d.dest)
            && (attempted.outcome.Complete? ==> attempted.outcome.remote.size == Some(|d'.dest.value|))
  {
    RefusedExactly(d, first, second);
    if Used(d, first, second).Some? {
      AttemptLeaves(d, first, second);
    }
  }

  /** An attempt cut short keeps all it received, and the next one asks for what comes after it, if the
      server sent anything to validate it by. */
  lemma CutShortResumes(d: Disk, first: Fetched, second: Fetched)
    requires Attempt(d, first, second).outcome.ConnectionDropped? || Attempt(d, first, second).outcome.Incomplete?
    ensures Used(d, first, second).Some?
    ensures var r := Used(d, first, second).value;
            var d' := PerformAll(Attempt(d, first, second).ops, d);
            && d'.partial == Some(Whole(d, r)) && d'.dest == d.dest
            && ResumeFrom(d') == if r.start > 0 || r.etag.Some? || r.lastModified.Some? then |Whole(d, r)| else 0
  {
    RefusedExactly(d, first, second);
    AttemptLeaves(d, first, second);
  }

  /** Evicting a dump leaves nothing of it. */
  lemma EvictedIsGone(d: Disk)
    ensures PerformAll(EVICTION, d) == Disk(None, None, None)
  {
    assert EVICTION[1..] == [RemovePartial, RemoveMeta];
    PerformTwo(RemovePartial, RemoveMeta, Perform(RemoveDest, d));
  }
}
