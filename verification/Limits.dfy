/** What a row limit keeps. */
module Limits {
  import opened Wrappers

  /** A limit of zero still keeps one row. */
  function Capped<T>(rows: seq<T>, limit: Option<nat>): seq<T> {
    if limit.None? || |rows| <= limit.value then rows
    else if limit.value == 0 then rows[..1]
    else rows[..limit.value]
  }
}
