/** The gRPC API process: port fallback and its ordered teardown, which does
    not count an already-closed listener as a failure. */
module AppGrpcApi {
  import opened Wrappers
  import opened Lifecycle
  import AppRestApi

  /** What `listener.Close()` returns: nil, an error that `errors.Is`
      `net.ErrClosed`, or another error. */
  datatype ListenerCloseResult = ListenerClosed | ListenerAlreadyClosed | ListenerFailed(err: Error)

  /** The errors collected from the listener close. */
  function ListenerErrors(r: ListenerCloseResult): (errs: seq<Error>)
    ensures r.ListenerFailed? ==> errs == [r.err]
    ensures !r.ListenerFailed? ==> errs == []
  {
    if r.ListenerFailed? then [r.err] else []
  }

  lemma GrpcShutdownErrorFree(r: ListenerCloseResult, closeFn: seq<CloseAction>)
    ensures Join(ListenerErrors(r) + Failures(closeFn)).None?
            <==> !r.ListenerFailed? && forall k :: 0 <= k < |closeFn| ==> closeFn[k].failure.None?
  {
    NoFailuresIffAllSucceed(closeFn);
  }

  class GrpcApiApp {
    var port: int
    var closeFn: seq<CloseAction>

    /** `NewGrpcApiApp`: resolve the port, listen on it (bind failure is
        fatal and not modelled), and register the database handle's `Close`. */
    constructor (requestedPort: int, configuredPort: int, dbClose: CloseAction)
      ensures port == AppRestApi.ResolvePort(requestedPort, configuredPort)
      ensures closeFn == [dbClose]
    {
      port := AppRestApi.ResolvePort(requestedPort, configuredPort);
      closeFn := [];
      new;
      closeFn := closeFn + [dbClose];
    }

    /** Graceful stop, then listener close (its outcome is `listener`), then
        every close action in order; join what was collected. */
    method Shutdown(listener: ListenerCloseResult, journal: Journal) returns (err: Option<Error>)
      modifies journal
      ensures journal.events == old(journal.events) + [GracefulStop, ListenerClose] + Invocations(closeFn)
      ensures err == Join(ListenerErrors(listener) + Failures(closeFn))
    {
      var errs: seq<Error> := [];
      journal.Record(GracefulStop);
      journal.Record(ListenerClose);
      if listener.ListenerFailed? {
        errs := errs + [listener.err];
      }
      assert errs == ListenerErrors(listener);
      errs := CollectCloseErrors(closeFn, errs, journal);
      if |errs| > 0 {
        return Some(Joined(errs));
      }
      return None;
    }
  }
}
