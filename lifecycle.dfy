/** What the process orchestrators share: Go errors and their `errors.Join`,
    registered close actions, and a journal of the side effects a shutdown
    performs, in the order it performs them. */
module Lifecycle {
  import opened Wrappers

  /** A Go error: a leaf failure, or the join of several. */
  datatype Error = Failed(msg: string) | Joined(errs: seq<Error>)

  /** `errors.Join` of non-nil errors: nil when there are none. */
  function Join(errs: seq<Error>): (r: Option<Error>)
    ensures r.None? <==> |errs| == 0
  {
    if |errs| == 0 then None else Some(Joined(errs))
  }

  /** The errors an optional error contributes to a collection. */
  function ErrorsOf(e: Option<Error>): (r: seq<Error>)
    ensures |r| == 0 <==> e.None?
  {
    if e.Some? then [e.value] else []
  }

  /** A registered `func() error`: its name, and the error it returns when
      invoked (None for nil). */
  datatype CloseAction = CloseAction(name: string, failure: Option<Error>)

  /** Observable steps of a shutdown or of the diagnostics toggle. */
  datatype Event =
    | Invoked(name: string)
    | CronStopped
    | JobsDrained
    | DeadlineReached
    | ServerShutdown
    | GracefulStop
    | ListenerClose
    | PprofListen(addr: string)
    | PprofShutdown(timeout: int)

  /** The journal entries produced by invoking `fns` one after another. */
  function Invocations(fns: seq<CloseAction>): (r: seq<Event>)
    ensures |r| == |fns|
    ensures forall k :: 0 <= k < |fns| ==> r[k] == Invoked(fns[k].name)
  {
    seq(|fns|, k requires 0 <= k < |fns| => Invoked(fns[k].name))
  }

  /** The non-nil results of `fns`, in invocation order. */
  function Failures(fns: seq<CloseAction>): seq<Error>
    decreases |fns|
  {
    if |fns| == 0 then []
    else Failures(fns[..|fns| - 1]) + ErrorsOf(fns[|fns| - 1].failure)
  }

  lemma {:induction false} FailuresAppend(a: seq<CloseAction>, b: seq<CloseAction>)
    ensures Failures(a + b) == Failures(a) + Failures(b)
    decreases |b|
  {
    if |b| == 0 {
      assert a + b == a;
    } else {
      var b' := b[..|b| - 1];
      assert (a + b)[..|a + b| - 1] == a + b';
      FailuresAppend(a, b');
    }
  }

  /** Nothing is collected exactly when every action succeeds. */
  lemma {:induction false} NoFailuresIffAllSucceed(fns: seq<CloseAction>)
    ensures |Failures(fns)| == 0 <==> forall k :: 0 <= k < |fns| ==> fns[k].failure.None?
    decreases |fns|
  {
    if |fns| > 0 {
      var init := fns[..|fns| - 1];
      NoFailuresIffAllSucceed(init);
      assert forall k :: 0 <= k < |init| ==> init[k] == fns[k];
    }
  }

  /** Every collected error is the failure of some action, and every failure
      is collected. */
  lemma {:induction false} FailuresAreCollected(fns: seq<CloseAction>, e: Error)
    ensures e in Failures(fns) <==> exists k :: 0 <= k < |fns| && fns[k].failure == Some(e)
    decreases |fns|
  {
    if |fns| > 0 {
      var init := fns[..|fns| - 1];
      FailuresAreCollected(init, e);
      assert forall k :: 0 <= k < |init| ==> init[k] == fns[k];
    }
  }

  /** The outside world's view of the process: every close action invoked and
      every server step taken, in order. */
  class Journal {
    var events: seq<Event>

    constructor ()
      ensures events == []
    {
      events := [];
    }

    method Record(e: Event)
      modifies this
      ensures events == old(events) + [e]
    {
      events := events + [e];
    }
  }

  /** Invokes one close action: it is journaled, and its error returned. */
  method Invoke(fn: CloseAction, journal: Journal) returns (err: Option<Error>)
    modifies journal
    ensures journal.events == old(journal.events) + [Invoked(fn.name)]
    ensures err == fn.failure
  {
    journal.Record(Invoked(fn.name));
    err := fn.failure;
  }

  /** The loop every orchestrator runs: invoke each close action once, in
      registration order, appending each failure to `errs` without stopping. */
  method CollectCloseErrors(closeFn: seq<CloseAction>, prior: seq<Error>, journal: Journal)
    returns (errs: seq<Error>)
    modifies journal
    ensures journal.events == old(journal.events) + Invocations(closeFn)
    ensures errs == prior + Failures(closeFn)
  {
    errs := prior;
    for i := 0 to |closeFn|
      invariant journal.events == old(journal.events) + Invocations(closeFn[..i])
      invariant errs == prior + Failures(closeFn[..i])
    {
      assert closeFn[..i + 1][..i] == closeFn[..i];
      var err := Invoke(closeFn[i], journal);
      if err.Some? {
        errs := errs + [err.value];
      }
      assert Invocations(closeFn[..i + 1]) == Invocations(closeFn[..i]) + [Invoked(closeFn[i].name)];
    }
    assert closeFn[..|closeFn|] == closeFn;
  }
}
