/** The retention prune of `cleanup_old_logs`: request logs older than
    thirty days before the run are deleted, all others are kept. */
module Retention {
  import opened Common
  import opened Records

  const RETENTION_PERIOD: int := 30 * DAY

  /** The logs the prune keeps, in their original order: those stamped at
      or after `cutoff`. */
  function Retained(logs: seq<RequestLog>, cutoff: int): seq<RequestLog> {
    if logs == [] then []
    else
      var last := logs[|logs| - 1];
      Retained(logs[..|logs| - 1], cutoff) + if last.timestamp < cutoff then [] else [last]
  }

  /** The number of logs stamped strictly before `cutoff`. */
  function StaleCount(logs: seq<RequestLog>, cutoff: int): nat {
    Count(logs, (l: RequestLog) => l.timestamp < cutoff)
  }

  /** The prune keeps every copy of every log stamped at or after the
      cutoff (the boundary instant included) and none stamped before it. */
  lemma {:induction false} RetainedExact(logs: seq<RequestLog>, cutoff: int, l: RequestLog)
    ensures multiset(Retained(logs, cutoff))[l] == if cutoff <= l.timestamp then multiset(logs)[l] else 0
  {
    if logs != [] {
      var init, last := logs[..|logs| - 1], logs[|logs| - 1];
      assert logs == init + [last];
      RetainedExact(init, cutoff, l);
    }
  }

  /** What the prune keeps and what it reports as deleted add up to the
      log it started from. */
  lemma {:induction false} RetainedSize(logs: seq<RequestLog>, cutoff: int)
    ensures |Retained(logs, cutoff)| + StaleCount(logs, cutoff) == |logs|
  {
    if logs != [] {
      RetainedSize(logs[..|logs| - 1], cutoff);
    }
  }
}
