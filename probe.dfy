/** The binary reachability status and how a probe's outcome becomes one. */
module Probe {
  import opened Base

  datatype Status = Up | Down

  /**
   * `From<Result<O, E>> for Status`: any successful probe means the link is up,
   * any error (timeout, unreachable, permission) means it is down.
   */
  function FromResult<O, E>(res: Result<O, E>): (s: Status)
    ensures s == Up <==> res.Ok?
    ensures s == Down <==> res.Err?
  {
    match res
    case Ok(_) => Up
    case Err(_) => Down
  }

  /** The statuses a sequence of probe outcomes is read as, one per poll. */
  function Statuses<O, E>(probes: seq<Result<O, E>>): (ss: seq<Status>)
    ensures |ss| == |probes|
    ensures forall i | 0 <= i < |probes| :: (ss[i] == Up <==> probes[i].Ok?)
  {
    seq(|probes|, i requires 0 <= i < |probes| => FromResult(probes[i]))
  }
}
