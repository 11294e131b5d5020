/** The REST API process: port fallback, listen address and its
    error-collecting teardown. */
module AppRestApi {
  import opened Wrappers
  import opened Lifecycle
  import Pprof

  /** A requested port of 0 means "use the configured port". */
  function ResolvePort(requested: int, configured: int): (port: int)
    ensures requested == 0 ==> port == configured
    ensures requested != 0 ==> port == requested
  {
    if requested == 0 then configured else requested
  }

  /** Resolving twice against the same configuration changes nothing more. */
  lemma ResolvePortIdempotent(requested: int, configured: int)
    ensures ResolvePort(ResolvePort(requested, configured), configured) == ResolvePort(requested, configured)
  {
  }

  /** The errors `ShutdownAndClose` collects: the server's first, then the
      close actions' in registration order. */
  function ShutdownErrors(serverErr: Option<Error>, closeFn: seq<CloseAction>): seq<Error>
  {
    ErrorsOf(serverErr) + Failures(closeFn)
  }

  lemma ShutdownErrorsCases(serverErr: Option<Error>, closeFn: seq<CloseAction>)
    ensures |ShutdownErrors(serverErr, closeFn)| == 0
            <==> serverErr.None? && forall k :: 0 <= k < |closeFn| ==> closeFn[k].failure.None?
    ensures serverErr.Some? ==> ShutdownErrors(serverErr, closeFn)[0] == serverErr.value
    ensures ShutdownErrors(serverErr, closeFn)[|ErrorsOf(serverErr)|..] == Failures(closeFn)
  {
    NoFailuresIffAllSucceed(closeFn);
  }

  class RestApiApp {
    var port: int
    /** The HTTP server's `Addr`. */
    var addr: string
    var closeFn: seq<CloseAction>

    /** `NewRestApiApp` with its `init`, which registers the database
        handle's `Close`. */
    constructor (requestedPort: int, configuredPort: int, dbClose: CloseAction)
      ensures port == ResolvePort(requestedPort, configuredPort)
      ensures addr == Pprof.Address(port)
      ensures closeFn == [dbClose]
    {
      port := ResolvePort(requestedPort, configuredPort);
      closeFn := [];
      new;
      closeFn := closeFn + [dbClose];
      addr := Pprof.Address(port);
    }

    /** Shut the server down (its result is `serverErr`), then run every close
        action even if that failed, and join what was collected. */
    method ShutdownAndClose(serverErr: Option<Error>, journal: Journal) returns (err: Option<Error>)
      modifies journal
      ensures journal.events == old(journal.events) + [ServerShutdown] + Invocations(closeFn)
      ensures err == Join(ShutdownErrors(serverErr, closeFn))
    {
      var errs: seq<Error> := [];
      journal.Record(ServerShutdown);
      if serverErr.Some? {
        errs := errs + [serverErr.value];
      }
      assert errs == ErrorsOf(serverErr);
      errs := CollectCloseErrors(closeFn, errs, journal);
      if |errs| > 0 {
        return Some(Joined(errs));
      }
      return None;
    }
  }
}
