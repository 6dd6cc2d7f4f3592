/**
 One attempt of the resumable download: three files (`partial`, `meta`, `dest`) and the
 answers of a range server.

 `Attempt` lists the file operations an attempt performs, in order, so that a crash can be
 placed between any two of them (module `DownloadRuns`). `DumpCache.DownloadResumable` is the
 attempt itself, updating the three files step by step.
 */
module Download {
  import opened Wrappers

  /** What the server said about a dump file, as saved in the `meta` file. */
  datatype RemoteDump = RemoteDump(size: Option<nat>, etag: Option<string>, lastModified: Option<int>)

  /** The value of an `If-Range` header (RFC 9110, section 13.1.5). */
  datatype Validator = Tag(etag: string) | Date(instant: int)

  function IfRangeValue(saved: RemoteDump): Option<Validator> {
    match saved.etag
    case Some(tag) => Some(Tag(tag))
    case None =>
      match saved.lastModified
      case Some(t) => Some(Date(t))
      case None => None
  }

  /** A response body starting at byte `start`; `dropped` says the connection broke after `body`. */
  datatype RangeResponse = RangeResponse(
    start: nat, total: Option<nat>, etag: Option<string>, lastModified: Option<int>, body: Bytes, dropped: bool)

  /** Why a request gave no response to use. */
  datatype FetchError = NoConnection | NoContentRange | WrongStart(asked: nat, answered: nat) | BadStatus(code: nat)

  datatype Fetched = Answer(response: RangeResponse) | FetchFailed(error: FetchError)

  /** What came back over HTTP, before it is understood. */
  datatype HttpAnswer =
    | Whole(total: Option<nat>, etag: Option<string>, lastModified: Option<int>, body: Bytes, dropped: bool)
    | Partial(contentRange: Option<(nat, Option<nat>)>, etag: Option<string>, lastModified: Option<int>,
              body: Bytes, dropped: bool)
    | Unsatisfiable(total: Option<nat>, etag: Option<string>, lastModified: Option<int>)
    | OtherStatus(code: nat)

  /** The status codes 200, 206 and 416 of a request for the bytes from `from` on. */
  function Understand(from: nat, answer: HttpAnswer): (f: Fetched)
    ensures f.FetchFailed? <==>
            answer.OtherStatus? || (answer.Partial? && (answer.contentRange.None? || answer.contentRange.value.0 != from))
    ensures f.FetchFailed? ==>
              f.error == if answer.OtherStatus? then BadStatus(answer.code)
                         else if answer.contentRange.None? then NoContentRange
                         else WrongStart(from, answer.contentRange.value.0)
    ensures f.Answer? ==>
              && f.response.start == (if answer.Whole? then 0 else from)
              && f.response.body == (if answer.Unsatisfiable? then [] else answer.body)
              && f.response.total == (if answer.Partial? then answer.contentRange.value.1 else answer.total)
              && f.response.etag == answer.etag && f.response.lastModified == answer.lastModified
  {
    match answer
    case Whole(total, etag, lastModified, body, dropped) =>
      Answer(RangeResponse(0, total, etag, lastModified, body, dropped))
    case Partial(None, _, _, _, _) => FetchFailed(NoContentRange)
    case Partial(Some((start, total)), etag, lastModified, body, dropped) =>
      if start != from then FetchFailed(WrongStart(from, start))
      else Answer(RangeResponse(start, total, etag, lastModified, body, dropped))
    case Unsatisfiable(total, etag, lastModified) =>
      Answer(RangeResponse(from, total, etag, lastModified, [], false))
    case OtherStatus(code) => FetchFailed(BadStatus(code))
  }

  const NOTHING_SAVED := RemoteDump(None, None, None)

  /** The files of one dump in the cache directory. */
  datatype Disk = Disk(partial: Option<Bytes>, meta: Option<RemoteDump>, dest: Option<Bytes>)

  datatype FileOp =
    | TruncatePartial
    | WriteMeta(meta: RemoteDump)
    | AppendPartial(bytes: Bytes)
    | RemovePartial
    | RemoveMeta
    | RemoveDest
    | RenamePartial

  function Perform(op: FileOp, d: Disk): Disk {
    match op
    case TruncatePartial => d.(partial := Some([]))
    case WriteMeta(meta) => d.(meta := Some(meta))
    case AppendPartial(bytes) => d.(partial := Some((if d.partial.Some? then d.partial.value else []) + bytes))
    case RemovePartial => d.(partial := None)
    case RemoveMeta => d.(meta := None)
    case RemoveDest => d.(dest := None)
    case RenamePartial => if d.partial.Some? then d.(partial := None, dest := d.partial) else d
  }

  function PerformAll(ops: seq<FileOp>, d: Disk): Disk {
    if ops == [] then d else PerformAll(ops[1..], Perform(ops[0], d))
  }

  /** Removing a dump from the cache. */
  const EVICTION := [RemoveDest, RemovePartial, RemoveMeta]

  datatype Outcome =
    | Complete(remote: RemoteDump)
    | Incomplete(expected: nat, actual: nat)
    | ConnectionDropped
    | PartialDiscarded
    | HttpRefused

  function Saved(d: Disk): RemoteDump {
    match d.meta
    case Some(m) => m
    case None => NOTHING_SAVED
  }

  /** The byte a resumed request starts from: 0 unless the partial can be validated. */
  function ResumeFrom(d: Disk): nat {
    if d.partial.Some? && IfRangeValue(Saved(d)).Some? then |d.partial.value| else 0
  }

  /** A resumed answer whose ETag differs from the saved one. */
  predicate TagChanged(saved: RemoteDump, r: RangeResponse) {
    r.start > 0 && r.etag.Some? && saved.etag.Some? && r.etag != saved.etag
  }

  datatype Attempted = Attempted(ops: seq<FileOp>, outcome: Outcome)

  /** The part of an attempt after the response to use is settled. */
  function Receive(d: Disk, r: RangeResponse, existing: nat): Attempted {
    if r.start != 0 && r.start != existing then Attempted([], HttpRefused)
    else
      var remote := RemoteDump(r.total, r.etag, r.lastModified);
      var opening := if r.start == 0 then [TruncatePartial] else [];
      var recording := if r.start == 0 || d.meta.None? then [WriteMeta(remote)] else [];
      var actual := r.start + |r.body|;
      var received := opening + recording + [AppendPartial(r.body)];
      if r.dropped then Attempted(received, ConnectionDropped)
      else if r.total.Some? && actual < r.total.value then
        Attempted(received, Incomplete(r.total.value, actual))
      else if r.total.Some? && actual > r.total.value then
        Attempted(received + [RemovePartial, RemoveMeta], PartialDiscarded)
      else
        Attempted(received + [RenamePartial], Complete(remote.(size := Some(actual))))
  }

  /** A whole attempt; `second` is the answer to the fresh request made when the ETag changed. */
  function Attempt(d: Disk, first: Fetched, second: Fetched): Attempted {
    match first
    case FetchFailed(_) => Attempted([], HttpRefused)
    case Answer(r) =>
      if TagChanged(Saved(d), r) then
        var d' := d.(partial := None, meta := None);
        match second
        case FetchFailed(_) => Attempted([RemovePartial, RemoveMeta], HttpRefused)
        case Answer(again) =>
          if again.start != 0 then Attempted([RemovePartial, RemoveMeta], HttpRefused)
          else
            var rest := Receive(d', again, ResumeFrom(d));
            Attempted([RemovePartial, RemoveMeta] + rest.ops, rest.outcome)
      else Receive(d, r, ResumeFrom(d))
  }

  lemma {:induction false} PerformAllAppend(a: seq<FileOp>, b: seq<FileOp>, d: Disk)
    ensures PerformAll(a + b, d) == PerformAll(b, PerformAll(a, d))
  {
    if a == [] {
      assert a + b == b;
    } else {
      assert (a + b)[1..] == a[1..] + b;
      PerformAllAppend(a[1..], b, Perform(a[0], d));
    }
  }

  lemma PerformTwo(a: FileOp, b: FileOp, d: Disk)
    ensures PerformAll([a, b], d) == Perform(b, Perform(a, d))
  {
    assert [a, b][1..] == [b];
    assert PerformAll([b], Perform(a, d)) == Perform(b, Perform(a, d));
  }

  /** The three files, as an object the attempt updates in place. */
  class DumpCache {
    var partial: Option<Bytes>
    var meta: Option<RemoteDump>
    var dest: Option<Bytes>

    constructor ()
      ensures Contents() == Disk(None, None, None)
    {
      partial, meta, dest := None, None, None;
    }

    function Contents(): Disk
      reads this
    {
      Disk(partial, meta, dest)
    }

    /** Makes at most two requests; `first` and `second` are what they are answered with. */
    method DownloadResumable(first: Fetched, second: Fetched) returns (outcome: Outcome)
      modifies this
      ensures outcome == Attempt(old(Contents()), first, second).outcome
      ensures Contents() == PerformAll(Attempt(old(Contents()), first, second).ops, old(Contents()))
    {
      ghost var before := Contents();
      ghost var done: seq<FileOp> := [];
      var saved := if meta.Some? then meta.value else NOTHING_SAVED;
      var validator := IfRangeValue(saved);
      var existing := if partial.Some? && validator.Some? then |partial.value| else 0;
      if first.FetchFailed? {
        return HttpRefused;
      }
      var resp := first.response;
      if resp.start > 0 && resp.etag.Some? && saved.etag.Some? && resp.etag != saved.etag {
        partial := None;
        meta := None;
        done := [RemovePartial, RemoveMeta];
        PerformTwo(RemovePartial, RemoveMeta, before);
        if second.FetchFailed? || second.response.start != 0 {
          return HttpRefused;
        }
        resp := second.response;
      }
      ghost var middle := Contents();
      PerformAllAppend(done, Receive(middle, resp, existing).ops, before);
      outcome := ReceiveBody(resp, existing);
      assert done + Receive(middle, resp, existing).ops == Attempt(before, first, second).ops;
    }

    /** Opens the partial, records the headers, copies the body, checks the length. */
    method ReceiveBody(resp: RangeResponse, existing: nat) returns (outcome: Outcome)
      requires resp.start > 0 && resp.start == existing ==> partial.Some? && |partial.value| == existing
      modifies this
      ensures outcome == Receive(old(Contents()), resp, existing).outcome
      ensures Contents() == PerformAll(Receive(old(Contents()), resp, existing).ops, old(Contents()))
    {
      ghost var before := Contents();
      ghost var done: seq<FileOp> := [];
      if resp.start == 0 {
        partial := Some([]);
        done := [TruncatePartial];
      } else if resp.start != existing {
        return HttpRefused;
      }
      assert Contents() == PerformAll(done, before);
      var remote := RemoteDump(resp.total, resp.etag, resp.lastModified);
      if resp.start == 0 || meta.None? {
        PerformAllAppend(done, [WriteMeta(remote)], before);
        meta := Some(remote);
        done := done + [WriteMeta(remote)];
      }
      assert Contents() == PerformAll(done, before);
      PerformAllAppend(done, [AppendPartial(resp.body)], before);
      partial := Some(partial.value + resp.body);
      done := done + [AppendPartial(resp.body)];
      assert Contents() == PerformAll(done, before);
      if resp.dropped {
        return ConnectionDropped;
      }
      var actual := |partial.value|;
      if resp.total.Some? {
        var expected := resp.total.value;
        if actual < expected {
          return Incomplete(expected, actual);
        }
        if actual > expected {
          PerformAllAppend(done, [RemovePartial, RemoveMeta], before);
          PerformTwo(RemovePartial, RemoveMeta, Contents());
          partial := None;
          meta := None;
          return PartialDiscarded;
        }
      }
      PerformAllAppend(done, [RenamePartial], before);
      dest := partial;
      partial := None;
      return Complete(remote.(size := Some(actual)));
    }
  }
}
