/** The values that flow through the RT pipeline: one record per retained input
    line, one message per reported error, one row per waypoint. */
module Records {
  import opened Numbers

  datatype Option<T> = None | Some(value: T)

  /** A classified input line (a `CodeRecord`). `line` is the 0-based index of
      the line among the retained lines. A waypoint's missing speed is NaN.
      A record for a line of the wrong shape carries no line index. */
  datatype Record =
    | Ignore(line: nat)
    | Start(line: nat)
    | End(line: nat)
    | Wp(line: nat, distKm: Num, speedKmh: Num)
    | Error

  /** What an error message says, without its wording. `line` is the 0-based
      index of the offending line; the message shows line + 1. */
  datatype Message =
    | CannotParseDistance(line: nat)
    | CannotParseSpeed(line: nat)
    | CannotParseText(line: nat)
    | AlreadyStarted(line: nat)
    | NotStarted(line: nat)

  /** One row of the output table (an `RTData`). */
  datatype Row = Row(distKm: Num, deltaKm: Num, distMls: Num, speedKmh: Num, time: Num)

  /** The message left on display after reporting ms in order, if any. */
  function LastOf(ms: seq<Message>): (r: Option<Message>)
    ensures r.None? <==> ms == []
    ensures r.Some? ==> r.value in ms
  {
    if ms == [] then None else Some(ms[|ms| - 1])
  }
}
