/** The diagnostics toggle: a profiling endpoint that is started and stopped,
    without a restart, as configuration-change notifications arrive. */
module Pprof {
  import opened Durations
  import opened Decimal
  import opened Lifecycle

  /** The per-command `Pprof` configuration; the zero value is disabled. */
  datatype PprofConfig = PprofConfig(enable: bool, port: int)

  const ZeroPprofConfig := PprofConfig(false, 0)

  /** The part of one configuration snapshot read here: one `Pprof` section
      per process kind. */
  datatype ConfigSnapshot = ConfigSnapshot(scheduler: PprofConfig, restApi: PprofConfig, grpcApi: PprofConfig)

  const ShutdownTimeout: int := 10 * Second

  /** The configuration section of the named command; an unknown name is
      logged and yields the zero configuration. */
  function GetPprofConfig(cmdName: string, cfg: ConfigSnapshot): (r: PprofConfig)
    ensures cmdName == "scheduler" ==> r == cfg.scheduler
    ensures cmdName == "restapi" ==> r == cfg.restApi
    ensures cmdName == "grpcapi" ==> r == cfg.grpcApi
    ensures cmdName != "scheduler" && cmdName != "restapi" && cmdName != "grpcapi" ==> !r.enable
  {
    match cmdName
    case "scheduler" => cfg.scheduler
    case "restapi" => cfg.restApi
    case "grpcapi" => cfg.grpcApi
    case _ => ZeroPprofConfig
  }

  /** `fmt.Sprintf(":%d", port)`. */
  function Address(port: int): string
  {
    ":" + Format(port)
  }

  lemma AddressDeterminesPort(p: int, q: int)
    ensures Address(p) == Address(q) ==> p == q
  {
    if Address(p) == Address(q) {
      assert Format(p) == Address(p)[1..] == Address(q)[1..] == Format(q);
      FormatInjective(p, q);
    }
  }

  /** The toggle's state: the `isRunning` flag and the server's `Addr`. */
  datatype ToggleState = ToggleState(running: bool, addr: string)

  /** Before anything is started: not running, empty address. */
  const Stopped := ToggleState(false, "")

  /** One notification: start when enabled and stopped, stop when disabled
      and running, otherwise leave everything as it is (a changed port on a
      running endpoint is not applied). */
  function Step(s: ToggleState, c: PprofConfig): (r: ToggleState)
    ensures r.running == c.enable
    ensures c.enable && !s.running ==> r.addr == Address(c.port)
    ensures !(c.enable && !s.running) ==> r.addr == s.addr
    ensures c.enable == s.running ==> r == s
  {
    if c.enable && !s.running then ToggleState(true, Address(c.port))
    else if !c.enable && s.running then ToggleState(false, s.addr)
    else s
  }

  /** What one notification does to the endpoint. */
  function StepEvents(s: ToggleState, c: PprofConfig): (r: seq<Event>)
    ensures c.enable == s.running <==> r == []
  {
    if c.enable && !s.running then [PprofListen(Address(c.port))]
    else if !c.enable && s.running then [PprofShutdown(ShutdownTimeout)]
    else []
  }

  /** The state after a sequence of configurations. */
  function Replay(s: ToggleState, cs: seq<PprofConfig>): ToggleState
    decreases |cs|
  {
    if |cs| == 0 then s else Step(Replay(s, cs[..|cs| - 1]), cs[|cs| - 1])
  }

  /** The endpoint actions taken over a sequence of configurations. */
  function Trace(s: ToggleState, cs: seq<PprofConfig>): seq<Event>
    decreases |cs|
  {
    if |cs| == 0 then []
    else Trace(s, cs[..|cs| - 1]) + StepEvents(Replay(s, cs[..|cs| - 1]), cs[|cs| - 1])
  }

  /** After any non-empty sequence of notifications the endpoint runs exactly
      when the last configuration enables it. */
  lemma ReplayFollowsLastConfig(s: ToggleState, cs: seq<PprofConfig>)
    requires |cs| > 0
    ensures Replay(s, cs).running == cs[|cs| - 1].enable
  {
  }

  /** Starts and stops alternate: the k-th action is a start exactly when k
      has the parity that makes it one, given the initial state, and the
      number of actions taken tells whether the state flipped. */
  predicate Alternates(evs: seq<Event>, startRunning: bool)
  {
    forall k :: 0 <= k < |evs| ==>
      (evs[k].PprofListen? || evs[k].PprofShutdown?)
      && (evs[k].PprofListen? <==> ((k % 2 == 0) != startRunning))
  }

  lemma {:induction false} TraceAlternates(s: ToggleState, cs: seq<PprofConfig>)
    ensures Alternates(Trace(s, cs), s.running)
    ensures (|Trace(s, cs)| % 2 == 0) <==> (Replay(s, cs).running == s.running)
    decreases |cs|
  {
    if |cs| > 0 {
      var init := cs[..|cs| - 1];
      TraceAlternates(s, init);
      var t: seq<Event> := Trace(s, init);
      var e: seq<Event> := StepEvents(Replay(s, init), cs[|cs| - 1]);
      var te: seq<Event> := t + e;
      assert Trace(s, cs) == te;
      forall k | 0 <= k < |te|
        ensures (te[k].PprofListen? || te[k].PprofShutdown?)
          && (te[k].PprofListen? <==> ((k % 2 == 0) != s.running))
      {
        if k < |t| {
          assert te[k] == t[k];
        }
      }
    }
  }

  /** Two consecutive actions are never both starts nor both stops. */
  lemma NoDoubleStart(s: ToggleState, cs: seq<PprofConfig>, k: nat)
    requires k + 1 < |Trace(s, cs)|
    ensures Trace(s, cs)[k].PprofListen? <==> Trace(s, cs)[k + 1].PprofShutdown?
  {
    TraceAlternates(s, cs);
  }

  /** The part of an `http.Server`'s life that matters to the toggle: once
      Shutdown has been called on it, ListenAndServe returns
      `ErrServerClosed` at once (which the toggle does not log). */
  datatype ServerLife = ServerLife(shutDown: bool, serving: bool)

  const NewServer := ServerLife(false, false)

  function ListenAndServe(srv: ServerLife): (r: ServerLife)
    ensures r.serving <==> !srv.shutDown
  {
    ServerLife(srv.shutDown, !srv.shutDown)
  }

  function ShutdownServer(srv: ServerLife): (r: ServerLife)
    ensures r.shutDown && !r.serving
  {
    ServerLife(true, false)
  }

  /** The toggle together with the server it drives. */
  datatype Endpoint = Endpoint(toggle: ToggleState, server: ServerLife)

  /** One notification as written: the same server value is started again
      after it has been shut down. */
  function StepReused(e: Endpoint, c: PprofConfig): (r: Endpoint)
    ensures r.toggle == Step(e.toggle, c)
  {
    if c.enable && !e.toggle.running then Endpoint(Step(e.toggle, c), ListenAndServe(e.server))
    else if !c.enable && e.toggle.running then Endpoint(Step(e.toggle, c), ShutdownServer(e.server))
    else Endpoint(Step(e.toggle, c), e.server)
  }

  function ReplayReused(e: Endpoint, cs: seq<PprofConfig>): Endpoint
    decreases |cs|
  {
    if |cs| == 0 then e else StepReused(ReplayReused(e, cs[..|cs| - 1]), cs[|cs| - 1])
  }

  /** As written: enabled at start, disabled, enabled again. The flag says
      running and the address is set, but nothing serves. */
  lemma ReusedServerStaysDown()
    ensures var on := PprofConfig(true, 6060);
      var off := PprofConfig(false, 6060);
      var e := ReplayReused(Endpoint(Stopped, NewServer), [on, off, on]);
      e.toggle == ToggleState(true, ":6060") && !e.server.serving
  {
    var on := PprofConfig(true, 6060);
    var off := PprofConfig(false, 6060);
    assert Format(6060) == "6060";
    assert Address(6060) == ":6060";
    assert [on, off, on][..2] == [on, off];
    assert [on, off][..1] == [on];
    assert [on][..0] == [];
    var e0 := Endpoint(Stopped, NewServer);
    assert ReplayReused(e0, []) == e0;
    assert StepReused(e0, on) == Endpoint(ToggleState(true, ":6060"), ServerLife(false, true));
    var e1 := ReplayReused(Endpoint(Stopped, NewServer), [on]);
    assert e1 == Endpoint(ToggleState(true, ":6060"), ServerLife(false, true));
    var e2 := ReplayReused(Endpoint(Stopped, NewServer), [on, off]);
    assert e2 == Endpoint(ToggleState(false, ":6060"), ServerLife(true, false));
  }

  /** As written: once the server has been shut down it never serves
      again, whatever notifications follow. */
  lemma {:induction false} ReusedServerNeverRecovers(e: Endpoint, cs: seq<PprofConfig>)
    requires e.server.shutDown && !e.server.serving
    ensures ReplayReused(e, cs).server.shutDown && !ReplayReused(e, cs).server.serving
    decreases |cs|
  {
    if |cs| > 0 {
      ReusedServerNeverRecovers(e, cs[..|cs| - 1]);
    }
  }

  /** The evidently intended step: each start listens on a new server. */
  function StepFresh(e: Endpoint, c: PprofConfig): (r: Endpoint)
    ensures r.toggle == Step(e.toggle, c)
  {
    if c.enable && !e.toggle.running then Endpoint(Step(e.toggle, c), ListenAndServe(NewServer))
    else if !c.enable && e.toggle.running then Endpoint(Step(e.toggle, c), ShutdownServer(e.server))
    else Endpoint(Step(e.toggle, c), e.server)
  }

  function ReplayFresh(e: Endpoint, cs: seq<PprofConfig>): Endpoint
    decreases |cs|
  {
    if |cs| == 0 then e else StepFresh(ReplayFresh(e, cs[..|cs| - 1]), cs[|cs| - 1])
  }

  /** With a new server per start, the endpoint serves exactly while the
      flag says it runs, after any sequence of notifications. */
  lemma {:induction false} FreshServerServesWhileRunning(e: Endpoint, cs: seq<PprofConfig>)
    requires e.server.serving == e.toggle.running
    ensures ReplayFresh(e, cs).server.serving == ReplayFresh(e, cs).toggle.running
    ensures ReplayFresh(e, cs).toggle == Replay(e.toggle, cs)
    decreases |cs|
  {
    if |cs| > 0 {
      FreshServerServesWhileRunning(e, cs[..|cs| - 1]);
    }
  }

  /** The toggle as the source keeps it: a flag and a server address. */
  class PprofServer {
    var running: bool
    var addr: string

    function State(): ToggleState
      reads this
    {
      ToggleState(running, addr)
    }

    /** The start-up check of `StartPprofServer`: the flag starts at zero,
        so the endpoint is started exactly when this command's configuration
        enables it. */
    constructor Start(cmdName: string, cfg: ConfigSnapshot, journal: Journal)
      modifies journal
      ensures State() == Step(Stopped, GetPprofConfig(cmdName, cfg))
      ensures running == GetPprofConfig(cmdName, cfg).enable
      ensures journal.events == old(journal.events) + StepEvents(Stopped, GetPprofConfig(cmdName, cfg))
    {
      var pprofConfig := GetPprofConfig(cmdName, cfg);
      var isRunning, serverAddr := false, "";
      if pprofConfig.enable && !isRunning {
        serverAddr := Address(pprofConfig.port);
        journal.Record(PprofListen(serverAddr));
        isRunning := true;
      }
      running, addr := isRunning, serverAddr;
    }

    /** The body of the subscription loop, for one notification. The error
        of the bounded shutdown is only logged: the flag is cleared anyway. */
    method OnNotification(cmdName: string, cfg: ConfigSnapshot, journal: Journal)
      modifies this, journal
      ensures State() == Step(old(State()), GetPprofConfig(cmdName, cfg))
      ensures journal.events == old(journal.events) + StepEvents(old(State()), GetPprofConfig(cmdName, cfg))
    {
      var pprofConfig := GetPprofConfig(cmdName, cfg);
      if pprofConfig.enable && !running {
        addr := Address(pprofConfig.port);
        journal.Record(PprofListen(addr));
        running := true;
      } else if !pprofConfig.enable && running {
        journal.Record(PprofShutdown(ShutdownTimeout));
        running := false;
      }
    }

    /** The `for range` loop over the subscription channel, for a finite
        run of notifications each carrying the configuration then current. */
    method Watch(cmdName: string, notifications: seq<ConfigSnapshot>, journal: Journal)
      modifies this, journal
      ensures State() == Replay(old(State()), ConfigsFor(cmdName, notifications))
      ensures journal.events == old(journal.events) + Trace(old(State()), ConfigsFor(cmdName, notifications))
    {
      ghost var s0 := State();
      ghost var cs := ConfigsFor(cmdName, notifications);
      for i := 0 to |notifications|
        invariant State() == Replay(s0, cs[..i])
        invariant journal.events == old(journal.events) + Trace(s0, cs[..i])
      {
        assert cs[..i + 1][..i] == cs[..i];
        OnNotification(cmdName, notifications[i], journal);
      }
      assert cs[..|notifications|] == cs;
    }
  }

  /** The configuration each notification makes this command read. */
  function ConfigsFor(cmdName: string, notifications: seq<ConfigSnapshot>): (r: seq<PprofConfig>)
    ensures |r| == |notifications|
    ensures forall k :: 0 <= k < |r| ==> r[k] == GetPprofConfig(cmdName, notifications[k])
  {
    seq(|notifications|, k requires 0 <= k < |notifications| => GetPprofConfig(cmdName, notifications[k]))
  }
}
