/**
 Loading a bulk file into its table: one transaction that replaces or appends a cycle's rows and
 records the load, unless the server says nothing changed since the last full load.
 */
module Reload {
  import opened Wrappers
  import opened Cycles
  import opened Limits

  type Fields = seq<string>

  datatype Mode = Replace | Append

  /** What the server says about a file without sending it. */
  datatype RemoteMeta = RemoteMeta(etag: Option<string>, lastModified: Option<int>)

  /** A failed request, a server that says nothing, or a local file. */
  const NO_META := RemoteMeta(None, None)

  /** A file's rows once staged without a limit, and its headers. */
  datatype File = File(rows: seq<Fields>, meta: RemoteMeta)

  /** One call: `head` is the HEAD response, `got` the file the download or disk gives, if any,
      and `copies` whether the database takes the rows. */
  datatype Call = Call(cycle: Cycle, mode: Mode, limit: Option<nat>, ifChanged: bool, confirmed: bool, threshold: int,
                       fromUrl: bool, head: RemoteMeta, got: Option<File>, copies: bool)

  datatype LoadRow = LoadRow(cycle: Cycle, mode: Mode, rowCount: nat, rowLimit: Option<nat>, meta: RemoteMeta)

  /** The table's rows by cycle, and the log of loads, oldest first. */
  datatype State = State(rows: map<Cycle, seq<Fields>>, log: seq<LoadRow>)

  datatype Outcome = Skipped | ConfirmationRequired(existing: nat) | Failed | Loaded(loaded: nat, replaced: nat)

  /** Unchanged if the ETag matches, or, without two ETags, the modification time. */
  predicate Matches(now: RemoteMeta, prev: RemoteMeta) {
    if now.etag.Some? && prev.etag.Some? then now.etag == prev.etag
    else now.lastModified.Some? && now.lastModified == prev.lastModified
  }

  /** The headers of the newest load of the cycle that had no row limit, whatever its mode. */
  function LastFullLoad(log: seq<LoadRow>, cycle: Cycle): Option<RemoteMeta> {
    if log == [] then None
    else
      var last := log[|log| - 1];
      if last.cycle == cycle && last.rowLimit.None? then Some(last.meta) else LastFullLoad(log[..|log| - 1], cycle)
  }

  function RowsOf(rows: map<Cycle, seq<Fields>>, cycle: Cycle): seq<Fields> {
    if cycle in rows then rows[cycle] else []
  }

  predicate Skips(log: seq<LoadRow>, call: Call) {
    && call.ifChanged && call.fromUrl
    && LastFullLoad(log, call.cycle).Some?
    && Matches(call.head, LastFullLoad(log, call.cycle).value)
  }

  /** What the log remembers of a call that loads. */
  function Recorded(call: Call): LoadRow
    requires call.got.Some?
  {
    LoadRow(call.cycle, call.mode, |Capped(call.got.value.rows, call.limit)|, call.limit,
            if call.fromUrl then call.got.value.meta else NO_META)
  }

  /** The specification of one call. */
  function LoadStep(s: State, call: Call): (State, Outcome) {
    var existing := RowsOf(s.rows, call.cycle);
    if Skips(s.log, call) then (s, Skipped)
    else if call.mode == Replace && !call.confirmed && |existing| > call.threshold then (s, ConfirmationRequired(|existing|))
    else if call.got.None? || !call.copies then (s, Failed)
    else
      var staged := Capped(call.got.value.rows, call.limit);
      var kept := if call.mode == Replace then [] else existing;
      (State(s.rows[call.cycle := kept + staged], s.log + [Recorded(call)]),
       Loaded(|staged|, if call.mode == Replace then |existing| else 0))
  }

  class BulkTable {
    var rows: map<Cycle, seq<Fields>>
    var log: seq<LoadRow>

    constructor ()
      ensures rows == map[] && log == []
    {
      rows, log := map[], [];
    }

    method FindLastFullLoad(cycle: Cycle) returns (meta: Option<RemoteMeta>)
      ensures meta == LastFullLoad(log, cycle)
    {
      var i := |log|;
      assert log[..i] == log;
      while i > 0
        invariant 0 <= i <= |log| && LastFullLoad(log[..i], cycle) == LastFullLoad(log, cycle)
      {
        i := i - 1;
        assert log[..i + 1][..i] == log[..i];
        if log[i].cycle == cycle && log[i].rowLimit.None? {
          return Some(log[i].meta);
        }
      }
      return None;
    }

    /** Deletes a cycle's rows; the transaction may still be rolled back. */
    method DeleteCycle(cycle: Cycle) returns (deleted: nat)
      modifies this`rows
      ensures deleted == |RowsOf(old(rows), cycle)|
      ensures rows == old(rows)[cycle := []]
    {
      deleted := |RowsOf(rows, cycle)|;
      rows := rows[cycle := []];
    }

    method Load(call: Call) returns (outcome: Outcome)
      modifies this
      ensures (State(rows, log), outcome) == LoadStep(old(State(rows, log)), call)
    {
      if call.ifChanged && call.fromUrl {
        var prev := FindLastFullLoad(call.cycle);
        if prev.Some? && Matches(call.head, prev.value) {
          return Skipped;
        }
      }
      if call.mode == Replace && !call.confirmed {
        var existing := |RowsOf(rows, call.cycle)|;
        if existing > call.threshold {
          return ConfirmationRequired(existing);
        }
      }
      if call.got.None? {
        return Failed;
      }
      var staged := Capped(call.got.value.rows, call.limit);
      var begun := rows;
      var replaced := 0;
      if call.mode == Replace {
        replaced := DeleteCycle(call.cycle);
      }
      if !call.copies {
        rows := begun;
        return Failed;
      }
      assert call.mode == Replace ==> [] + staged == staged;
      assert rows[call.cycle := RowsOf(rows, call.cycle) + staged] == begun[call.cycle := RowsOf(rows, call.cycle) + staged];
      rows := rows[call.cycle := RowsOf(rows, call.cycle) + staged];
      log := log + [Recorded(call)];
      return Loaded(|staged|, replaced);
    }
  }
}
