/**
 Whole runs of the download protocol: attempts that may stop anywhere (crash, I/O error,
 dropped connection), a server whose file is replaced at any time, and cache eviction.

 The safety result is `NeverSplices`: two versions are never joined in the partial or in the
 finished file. `UnguardedResumeSplices` shows that what is asked of the server cannot be relaxed.
 */
module DownloadRuns {
  import opened Wrappers
  import opened Download

  /** One version of the file the server publishes, with the headers it sends for it. */
  datatype Version = Version(content: Bytes, etag: Option<string>, lastModified: Option<int>)

  /** A validator names a version by its ETag, or by its date. */
  predicate Names(validator: Validator, v: Version) {
    match validator
    case Tag(tag) => v.etag == Some(tag)
    case Date(t) => v.lastModified == Some(t)
  }

  /** Equal validators mean equal content. */
  ghost predicate ValidatorsDistinguish(versions: set<Version>) {
    forall v, w | v in versions && w in versions ::
      (v.etag.Some? && v.etag == w.etag) || (v.lastModified.Some? && v.lastModified == w.lastModified)
      ==> v.content == w.content
  }

  /** What is assumed of the server over a whole run. */
  datatype Server = Server(honoursIfRange: bool, tagsEveryResponse: bool, declaresTotals: bool)

  predicate Trustworthy(s: Server) {
    s.honoursIfRange || s.tagsEveryResponse
  }

  /** `r` is an answer drawn from version `v`, cut short anywhere. */
  ghost predicate DrawnFrom(v: Version, from: nat, r: RangeResponse) {
    && (r.start == 0 || r.start == from)
    && (r.etag == None || r.etag == v.etag)
    && (r.lastModified == None || r.lastModified == v.lastModified)
    && (r.total == None || r.total == Some(|v.content|))
    && (if r.start <= |v.content| then r.body <= v.content[r.start..] else r.body == [])
  }

  ghost predicate Sends(s: Server, v: Version, from: nat, ifRange: Option<Validator>, r: RangeResponse) {
    && DrawnFrom(v, from, r)
    && (s.honoursIfRange && r.start > 0 && ifRange.Some? ==> Names(ifRange.value, v))
    && (s.tagsEveryResponse ==> v.etag.Some? && r.etag == v.etag)
    && (s.declaresTotals ==> r.total.Some?)
  }

  /** What one operation may leave behind when it does not finish. */
  ghost predicate Torn(op: FileOp, d: Disk, d': Disk) {
    match op
    case WriteMeta(_) => d' == d.(meta := d'.meta)
    case AppendPartial(bytes) => exists n: nat :: n <= |bytes| && d' == Perform(AppendPartial(bytes[..n]), d)
    case _ => false
  }

  /** `d'` is reached from `d` by some of `ops`: all of them, or fewer with the last one torn.
      A removal whose error is ignored may also do nothing. */
  ghost predicate Interrupted(ops: seq<FileOp>, d: Disk, d': Disk) {
    d' == d
    || (ops != []
        && (Torn(ops[0], d, d')
            || Interrupted(ops[1..], Perform(ops[0], d), d')
            || ((ops[0].RemovePartial? || ops[0].RemoveMeta?) && Interrupted(ops[1..], d, d'))))
  }

  lemma {:induction false} FinishedIsInterrupted(ops: seq<FileOp>, d: Disk)
    ensures Interrupted(ops, d, PerformAll(ops, d))
  {
    if ops != [] {
      FinishedIsInterrupted(ops[1..], Perform(ops[0], d));
    }
  }

  /** Every version ever published, and the files of the cache. */
  datatype World = World(versions: set<Version>, disk: Disk)

  ghost predicate AttemptWith(s: Server, w: World, w': World,
                              first: Fetched, v1: Version, second: Fetched, v2: Version) {
    && v1 in w'.versions && v2 in w'.versions
    && (first.Answer? ==> Sends(s, v1, ResumeFrom(w.disk), IfRangeValue(Saved(w.disk)), first.response))
    && (second.Answer? ==> Sends(s, v2, 0, None, second.response))
    && Interrupted(Attempt(w.disk, first, second).ops, w.disk, w'.disk)
  }

  ghost predicate Step(s: Server, w: World, w': World) {
    && w.versions <= w'.versions
    && ValidatorsDistinguish(w'.versions)
    && (|| w'.disk == w.disk
        || Interrupted(EVICTION, w.disk, w'.disk)
        || exists first, v1, second, v2 :: AttemptWith(s, w, w', first, v1, second, v2))
  }

  ghost predicate Run(s: Server, run: seq<World>) {
    && |run| > 0
    && run[0] == World({}, Disk(None, None, None))
    && forall i | 0 < i < |run| :: Step(s, run[i - 1], run[i])
  }

  /** The partial is a beginning of a version, which is the one the saved validator names. */
  ghost predicate PartialIsOneVersion(versions: set<Version>, partial: Bytes, saved: RemoteDump) {
    exists v | v in versions ::
      && partial <= v.content
      && (IfRangeValue(saved).Some? ==> Names(IfRangeValue(saved).value, v))
  }

  ghost predicate DestIsOneVersion(s: Server, versions: set<Version>, dest: Bytes) {
    exists v | v in versions :: dest <= v.content && (s.declaresTotals ==> dest == v.content)
  }

  ghost predicate Consistent(s: Server, versions: set<Version>, d: Disk) {
    && (d.partial.Some? && d.partial.value != [] ==>
          && PartialIsOneVersion(versions, d.partial.value, Saved(d))
          && (s.tagsEveryResponse && IfRangeValue(Saved(d)).Some? ==> Saved(d).etag.Some?))
    && (d.dest.Some? ==> DestIsOneVersion(s, versions, d.dest.value))
  }

  lemma ConsistentGrows(s: Server, versions: set<Version>, more: set<Version>, d: Disk)
    requires Consistent(s, versions, d) && versions <= more
    ensures Consistent(s, more, d)
  {
  }

  lemma EvictionKeeps(s: Server, versions: set<Version>, d: Disk, d': Disk)
    requires Consistent(s, versions, d)
    requires Interrupted(EVICTION, d, d')
    ensures Consistent(s, versions, d')
  {
    assert EVICTION[1..] == [RemovePartial, RemoveMeta];
    if d' != d {
      DiscardKeeps(s, versions, Perform(RemoveDest, d), d');
    }
  }

  /** Removing the partial, then the meta, in any state of completion. */
  lemma DiscardKeeps(s: Server, versions: set<Version>, d: Disk, d': Disk)
    requires Consistent(s, versions, d)
    requires Interrupted([RemovePartial, RemoveMeta], d, d')
    ensures Consistent(s, versions, d')
    ensures d'.dest == d.dest
  {
    var ops := [RemovePartial, RemoveMeta];
    assert ops[1..] == [RemoveMeta];
    LastRemoval(RemoveMeta, d, d');
    LastRemoval(RemoveMeta, Perform(RemovePartial, d), d');
  }

  lemma LastRemoval(op: FileOp, d: Disk, d': Disk)
    requires op.RemoveMeta?
    ensures Interrupted([op], d, d') ==> d' == d || d' == Perform(op, d)
  {
    assert [op][1..] == [];
    assert Interrupted([], d, d') ==> d' == d;
    assert Interrupted([], Perform(op, d), d') ==> d' == Perform(op, d);
  }

  /** The partial after the body has been appended to a beginning of `v`. */
  ghost predicate Holding(s: Server, versions: set<Version>, v: Version, d: Disk) {
    && Consistent(s, versions, d)
    && d.partial.Some? && d.partial.value <= v.content && v in versions
  }

  /** What follows the append: nothing, discarding the oversized partial, or the rename. */
  lemma EndingKeeps(s: Server, versions: set<Version>, v: Version, d: Disk, ending: seq<FileOp>, d': Disk)
    requires Holding(s, versions, v, d)
    requires ending == [] || ending == [RemovePartial, RemoveMeta]
             || (ending == [RenamePartial] && (s.declaresTotals ==> d.partial.value == v.content))
    requires Interrupted(ending, d, d')
    ensures Consistent(s, versions, d')
  {
    if ending == [RemovePartial, RemoveMeta] {
      DiscardKeeps(s, versions, d, d');
    } else if ending == [RenamePartial] {
      assert ending[1..] == [];
    }
  }

  lemma AppendKeeps(s: Server, versions: set<Version>, v: Version, d: Disk, body: Bytes,
                    ending: seq<FileOp>, d': Disk)
    requires Consistent(s, versions, d) && v in versions
    requires d.partial.Some? && |d.partial.value| <= |v.content| && d.partial.value <= v.content
    requires body <= v.content[|d.partial.value|..]
    requires IfRangeValue(Saved(d)).Some? ==> Names(IfRangeValue(Saved(d)).value, v)
    requires s.tagsEveryResponse && IfRangeValue(Saved(d)).Some? ==> Saved(d).etag.Some?
    requires ending == [] || ending == [RemovePartial, RemoveMeta]
             || (ending == [RenamePartial] && (s.declaresTotals ==> |d.partial.value + body| == |v.content|))
    requires Interrupted([AppendPartial(body)] + ending, d, d')
    ensures Consistent(s, versions, d')
  {
    if d' != d {
      var n := AppendInterrupted(body, ending, d, d');
      AppendHolds(s, versions, v, d, body[..n]);
      if n == |body| {
        assert body[..n] == body;
        EndingKeeps(s, versions, v, Perform(AppendPartial(body), d), ending, d');
      }
    }
  }

  /** An append and what follows it: cut short after `n` bytes, or whole with some of the rest done. */
  lemma AppendInterrupted(body: Bytes, ending: seq<FileOp>, d: Disk, d': Disk) returns (n: nat)
    requires Interrupted([AppendPartial(body)] + ending, d, d') && d' != d
    ensures n <= |body|
    ensures if n < |body| then d' == Perform(AppendPartial(body[..n]), d)
            else Interrupted(ending, Perform(AppendPartial(body), d), d')
  {
    var ops := [AppendPartial(body)] + ending;
    assert ops[1..] == ending;
    n := |body|;
    if Torn(ops[0], d, d') {
      n :| n <= |body| && d' == Perform(AppendPartial(body[..n]), d);
      assert body[..|body|] == body;
    }
  }

  lemma AppendHolds(s: Server, versions: set<Version>, v: Version, d: Disk, bytes: Bytes)
    requires Consistent(s, versions, d) && v in versions
    requires d.partial.Some? && d.partial.value <= v.content && bytes <= v.content[|d.partial.value|..]
    requires IfRangeValue(Saved(d)).Some? ==> Names(IfRangeValue(Saved(d)).value, v)
    requires s.tagsEveryResponse && IfRangeValue(Saved(d)).Some? ==> Saved(d).etag.Some?
    ensures Holding(s, versions, v, Perform(AppendPartial(bytes), d))
  {
    var appended := Perform(AppendPartial(bytes), d);
    assert appended.partial.value <= v.content;
    assert PartialIsOneVersion(versions, appended.partial.value, Saved(appended));
  }

  /** Truncate, record the headers, append: the order that makes every crash harmless. */
  lemma RestartKeeps(s: Server, versions: set<Version>, v: Version, d: Disk, r: RangeResponse,
                     ending: seq<FileOp>, d': Disk)
    requires Consistent(s, versions, d) && v in versions
    requires r.start == 0 && Sends(s, v, 0, None, r)
    requires ending == [] || ending == [RemovePartial, RemoveMeta]
             || (ending == [RenamePartial] && (s.declaresTotals ==> |r.body| == |v.content|))
    requires Interrupted([TruncatePartial, WriteMeta(RemoteDump(r.total, r.etag, r.lastModified)),
                          AppendPartial(r.body)] + ending, d, d')
    ensures Consistent(s, versions, d')
  {
    var remote := RemoteDump(r.total, r.etag, r.lastModified);
    var ops := [TruncatePartial, WriteMeta(remote), AppendPartial(r.body)] + ending;
    var truncated := Perform(TruncatePartial, d);
    assert ops[1..] == [WriteMeta(remote), AppendPartial(r.body)] + ending;
    if d' != d && d' != truncated {
      var rest := ops[1..];
      assert rest[1..] == [AppendPartial(r.body)] + ending;
      if Interrupted(rest[1..], Perform(WriteMeta(remote), truncated), d') {
        assert v.content[0..] == v.content;
        AppendKeeps(s, versions, v, Perform(WriteMeta(remote), truncated), r.body, ending, d');
      }
    }
  }

  lemma ReceiveShape(d: Disk, r: RangeResponse, existing: nat) returns (ending: seq<FileOp>)
    requires r.start == 0 || (r.start == existing && d.meta.Some?)
    ensures Receive(d, r, existing).ops ==
            (if r.start == 0 then [TruncatePartial, WriteMeta(RemoteDump(r.total, r.etag, r.lastModified))]
             else []) + [AppendPartial(r.body)] + ending
    ensures ending == [] || ending == [RemovePartial, RemoveMeta]
            || (ending == [RenamePartial] && (r.total.Some? ==> r.start + |r.body| == r.total.value))
  {
    var actual := r.start + |r.body|;
    if r.dropped || (r.total.Some? && actual < r.total.value) {
      ending := [];
    } else if r.total.Some? && actual > r.total.value {
      ending := [RemovePartial, RemoveMeta];
    } else {
      ending := [RenamePartial];
    }
  }

  lemma ReceiveFromStartKeeps(s: Server, versions: set<Version>, v: Version, d: Disk, r: RangeResponse,
                              existing: nat, d': Disk)
    requires Consistent(s, versions, d) && v in versions
    requires r.start == 0 && Sends(s, v, 0, None, r)
    requires Interrupted(Receive(d, r, existing).ops, d, d')
    ensures Consistent(s, versions, d')
  {
    var ending := ReceiveShape(d, r, existing);
    var remote := RemoteDump(r.total, r.etag, r.lastModified);
    assert [TruncatePartial, WriteMeta(remote)] + [AppendPartial(r.body)] + ending
        == [TruncatePartial, WriteMeta(remote), AppendPartial(r.body)] + ending;
    RestartKeeps(s, versions, v, d, r, ending, d');
  }

  /** A resumed body continues the version the saved validator names. */
  lemma ResumeKeeps(s: Server, versions: set<Version>, v: Version, d: Disk, r: RangeResponse, d': Disk)
    requires Consistent(s, versions, d) && v in versions && ValidatorsDistinguish(versions)
    requires Trustworthy(s)
    requires r.start > 0 && Sends(s, v, ResumeFrom(d), IfRangeValue(Saved(d)), r)
    requires !TagChanged(Saved(d), r)
    requires Interrupted(Receive(d, r, ResumeFrom(d)).ops, d, d')
    ensures Consistent(s, versions, d')
  {
    var validator := IfRangeValue(Saved(d)).value;
    var u :| u in versions && d.partial.value <= u.content && Names(validator, u);
    assert u.content == v.content;
    var ending := ReceiveShape(d, r, ResumeFrom(d));
    assert [] + [AppendPartial(r.body)] + ending == [AppendPartial(r.body)] + ending;
    AppendKeeps(s, versions, u, d, r.body, ending, d');
  }

  lemma AttemptKeeps(s: Server, w: World, w': World, first: Fetched, v1: Version, second: Fetched, v2: Version)
    requires Trustworthy(s)
    requires Consistent(s, w'.versions, w.disk) && ValidatorsDistinguish(w'.versions)
    requires AttemptWith(s, w, w', first, v1, second, v2)
    ensures Consistent(s, w'.versions, w'.disk)
  {
    var d, d' := w.disk, w'.disk;
    if first.Answer? {
      var r := first.response;
      if TagChanged(Saved(d), r) {
        if second.Answer? && second.response.start == 0 {
          var rest := Receive(d.(partial := None, meta := None), second.response, ResumeFrom(d)).ops;
          RestartAfterDiscard(s, w'.versions, v2, d, second.response, ResumeFrom(d), rest, d');
        } else {
          DiscardKeeps(s, w'.versions, d, d');
        }
      } else if r.start == 0 {
        assert Sends(s, v1, 0, None, r);
        ReceiveFromStartKeeps(s, w'.versions, v1, d, r, ResumeFrom(d), d');
      } else {
        ResumeKeeps(s, w'.versions, v1, d, r, d');
      }
    }
  }

  /** The restart after a changed ETag, whether or not the two removals took effect. */
  lemma RestartAfterDiscard(s: Server, versions: set<Version>, v: Version, d: Disk, r: RangeResponse,
                            existing: nat, rest: seq<FileOp>, d': Disk)
    requires Consistent(s, versions, d) && v in versions
    requires r.start == 0 && Sends(s, v, 0, None, r)
    requires rest == Receive(d.(partial := None, meta := None), r, existing).ops
    requires Interrupted([RemovePartial, RemoveMeta] + rest, d, d')
    ensures Consistent(s, versions, d')
  {
    var ops := [RemovePartial, RemoveMeta] + rest;
    assert ops[1..] == [RemoveMeta] + rest;
    assert ops[1..][1..] == rest;
    var gone := Perform(RemovePartial, d);
    var starts := {d, gone, Perform(RemoveMeta, d), Perform(RemoveMeta, gone)};
    if d' !in starts {
      var start :| start in starts && Interrupted(rest, start, d');
      assert rest == Receive(start, r, existing).ops;
      ReceiveFromStartKeeps(s, versions, v, start, r, existing, d');
    }
  }

  /** In every run of attempts, crashes, replacements and evictions, the partial begins one version
      (the one its saved validator names), and a finished file begins one version, and is that
      whole version when the server declares its totals. */
  lemma {:induction false} NeverSplices(s: Server, run: seq<World>, i: nat)
    requires Trustworthy(s) && Run(s, run) && i < |run|
    ensures Consistent(s, run[i].versions, run[i].disk)
  {
    if i > 0 {
      NeverSplices(s, run, i - 1);
      var w, w' := run[i - 1], run[i];
      assert Step(s, w, w');
      ConsistentGrows(s, w.versions, w'.versions, w.disk);
      if Interrupted(EVICTION, w.disk, w'.disk) {
        EvictionKeeps(s, w'.versions, w.disk, w'.disk);
      } else if w'.disk != w.disk {
        var first, v1, second, v2 :| AttemptWith(s, w, w', first, v1, second, v2);
        AttemptKeeps(s, w, w', first, v1, second, v2);
      }
    }
  }

  /** The assumption is exact. Whatever was saved, if a server that ignores `If-Range` resumes
      without both sides having an ETag to compare, there are two well-told-apart versions whose
      bytes end up joined in the finished file. */
  lemma UnguardedResumeSplices(saved: RemoteDump, tag: Option<string>)
    returns (older: Version, newer: Version, d: Disk, r: RangeResponse)
    requires IfRangeValue(saved).Some?
    requires !(tag.Some? && saved.etag.Some?)
    ensures ValidatorsDistinguish({older, newer})
    ensures Consistent(Server(true, false, true), {older}, d) && Saved(d) == saved
    ensures r.etag == tag && DrawnFrom(newer, ResumeFrom(d), r) && r.total == Some(|newer.content|)
    ensures var d' := PerformAll(Attempt(d, Answer(r), FetchFailed(NoConnection)).ops, d);
            d'.dest.Some? && d'.dest.value != older.content && d'.dest.value != newer.content
  {
    older := Version([0, 0], saved.etag, saved.lastModified);
    newer := Version([1, 1], tag, match saved.lastModified case Some(t) => Some(t + 1) case None => None);
    d := Disk(Some([0]), Some(saved), None);
    r := RangeResponse(1, Some(2), tag, None, [1], false);
    assert newer.content[1..] == [1];
    assert older.content[..1] == [0];
    var attempted := Attempt(d, Answer(r), FetchFailed(NoConnection));
    assert attempted.ops == [AppendPartial([1]), RenamePartial];
    PerformTwo(AppendPartial([1]), RenamePartial, d);
    assert [0] + [1] == [0, 1];
    assert PerformAll(attempted.ops, d).dest == Some([0, 1]);
  }
}
