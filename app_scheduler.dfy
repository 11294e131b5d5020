/** The scheduler process: its registered cleanup, its bounded shutdown, and
    the helper that waits for a scheduled run. */
module AppScheduler {
  import opened Wrappers
  import opened Durations
  import opened Lifecycle

  /** The instant of the latest `Next` among the cron entries. */
  function LatestNext(entries: seq<int>): (t: int)
    requires |entries| > 0
    ensures t in entries
    ensures forall k :: 0 <= k < |entries| ==> entries[k] <= t
    decreases |entries|
  {
    if |entries| == 1 then entries[0]
    else
      var rest := LatestNext(entries[..|entries| - 1]);
      if entries[|entries| - 1] > rest then entries[|entries| - 1] else rest
  }

  /** The shutdown steps `Shutdown` takes before its close loop: stop the
      cron, then wait until the jobs drain or the deadline passes. */
  function StopSteps(drained: bool): seq<Event>
  {
    [CronStopped, if drained then JobsDrained else DeadlineReached]
  }

  class SchedulerApp {
    var closeFn: seq<CloseAction>
    /** The `Next` instants of the cron entries. */
    var entries: seq<int>

    /** `NewSchedulerApp` with its `init`: the database handle's `Close` is
        the one cleanup obligation registered. */
    constructor (dbClose: CloseAction, cronEntries: seq<int>)
      ensures closeFn == [dbClose]
      ensures entries == cronEntries
    {
      closeFn := [];
      entries := cronEntries;
      new;
      closeFn := closeFn + [dbClose];
    }

    /** Stop the cron, wait (`drained` tells which of the two waits ended
        first; both lead on), then run every close action in order and join
        the failures. */
    method Shutdown(drained: bool, journal: Journal) returns (err: Option<Error>)
      modifies journal
      ensures journal.events == old(journal.events) + StopSteps(drained) + Invocations(closeFn)
      ensures err == Join(Failures(closeFn))
    {
      journal.Record(CronStopped);
      if drained {
        journal.Record(JobsDrained);
      } else {
        journal.Record(DeadlineReached);
      }
      var errs := CollectCloseErrors(closeFn, [], journal);
      assert errs == Failures(closeFn);
      if |errs| > 0 {
        return Some(Joined(errs));
      }
      return None;
    }

    /** `WaitForNextRun`, with the clock reading `now` and the `timeout`: false
        without entries or when the latest `Next` is already past; otherwise
        true when that run plus one second comes before the timeout. */
    method WaitForNextRun(timeout: int, now: int) returns (fired: bool)
      ensures |entries| == 0 ==> !fired
      ensures fired <==> |entries| > 0 && now <= LatestNext(entries)
                         && LatestNext(entries) - now + Second < timeout
    {
      if |entries| == 0 {
        return false;
      }
      var nextRun := entries[0];
      for i := 0 to |entries|
        invariant nextRun in entries
        invariant forall k :: 0 <= k < i ==> entries[k] <= nextRun
      {
        if entries[i] > nextRun {
          nextRun := entries[i];
        }
      }
      assert nextRun == LatestNext(entries);
      var waitDuration := nextRun - now;
      if waitDuration < 0 {
        return false;
      }
      fired := waitDuration + Second < timeout;
    }
  }

  /** Shutdown reports no error exactly when every close action succeeded. */
  lemma ShutdownErrorIffSomeCloseFails(closeFn: seq<CloseAction>)
    ensures Join(Failures(closeFn)).None? <==> forall k :: 0 <= k < |closeFn| ==> closeFn[k].failure.None?
  {
    NoFailuresIffAllSucceed(closeFn);
  }
}
