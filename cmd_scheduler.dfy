/** The `scheduler` command: the release actions its PreRun registers and the
    composed shutdown it hands to the graceful-shutdown helper. */
module CmdScheduler {
  import opened Wrappers
  import opened Lifecycle
  import opened AppScheduler
  import Pprof

  /** `confy.Close` wrapped so that it always returns nil. */
  const ConfyClose := CloseAction("confy.Close", None)

  /** The three release actions, in the order PreRun registers them. */
  function ReleaseActions(closeLogging: CloseAction, unwatchLoader: CloseAction): (r: seq<CloseAction>)
    ensures |r| == 3 && r[0] == closeLogging && r[1] == unwatchLoader
    ensures r[2].failure.None?
  {
    [closeLogging, unwatchLoader, ConfyClose]
  }

  /** The confy release never contributes an error. */
  lemma {:induction false} ConfyCloseContributesNothing(closeLogging: CloseAction, unwatchLoader: CloseAction)
    ensures Failures(ReleaseActions(closeLogging, unwatchLoader)) == Failures([closeLogging, unwatchLoader])
  {
    var r := ReleaseActions(closeLogging, unwatchLoader);
    assert r[..2] == [closeLogging, unwatchLoader];
  }

  /** The errors of the composed shutdown: the scheduler's, then the release
      actions' in registration order. */
  function ComposedErrors(schedulerErr: Option<Error>, preRunClosed: seq<CloseAction>): seq<Error>
  {
    ErrorsOf(schedulerErr) + Failures(preRunClosed)
  }

  lemma ComposedShutdownErrorFree(app: seq<CloseAction>, preRunClosed: seq<CloseAction>)
    ensures Join(ComposedErrors(Join(Failures(app)), preRunClosed)).None?
            <==> (forall k :: 0 <= k < |app| ==> app[k].failure.None?)
                 && (forall k :: 0 <= k < |preRunClosed| ==> preRunClosed[k].failure.None?)
  {
    NoFailuresIffAllSucceed(app);
    NoFailuresIffAllSucceed(preRunClosed);
  }

  class SchedulerCommand {
    var preRunClosed: seq<CloseAction>

    constructor ()
      ensures preRunClosed == []
    {
      preRunClosed := [];
    }

    /** PreRun: start the diagnostics toggle for "scheduler", then register
        the logging close, the config unwatch and the confy close. */
    method PreRun(cfg: Pprof.ConfigSnapshot, closeLogging: CloseAction, unwatchLoader: CloseAction, journal: Journal)
      returns (pprof: Pprof.PprofServer)
      modifies this, journal
      ensures preRunClosed == old(preRunClosed) + ReleaseActions(closeLogging, unwatchLoader)
      ensures pprof.running == Pprof.GetPprofConfig("scheduler", cfg).enable
      ensures journal.events == old(journal.events)
                                + Pprof.StepEvents(Pprof.Stopped, Pprof.GetPprofConfig("scheduler", cfg))
      ensures fresh(pprof)
    {
      pprof := new Pprof.PprofServer.Start("scheduler", cfg, journal);
      preRunClosed := preRunClosed + [closeLogging];
      preRunClosed := preRunClosed + [unwatchLoader];
      preRunClosed := preRunClosed + [ConfyClose];
    }

    /** The function passed to the graceful-shutdown helper: the scheduler's
        shutdown first, then every release action, collecting all errors. */
    method Shutdown(scheduler: SchedulerApp, drained: bool, journal: Journal) returns (err: Option<Error>)
      modifies journal
      ensures journal.events == old(journal.events) + StopSteps(drained)
                                + Invocations(scheduler.closeFn) + Invocations(preRunClosed)
      ensures err == Join(ComposedErrors(Join(Failures(scheduler.closeFn)), preRunClosed))
    {
      var errs: seq<Error> := [];
      var schedulerErr := scheduler.Shutdown(drained, journal);
      if schedulerErr.Some? {
        errs := errs + [schedulerErr.value];
      }
      assert errs == ErrorsOf(schedulerErr);
      errs := CollectCloseErrors(preRunClosed, errs, journal);
      err := Join(errs);
    }
  }
}
