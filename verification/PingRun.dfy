/** The event loop of `runPingManager`, driving the manager's tables and the
    goroutines it starts through any schedule. */
module PingRun {
  import opened Types
  import opened Hosts
  import opened PingTables
  import opened PingProtocol
  import opened PingManagerCode

  /** A goroutine's probe returns. */
  method ProbeReturned(m: PingManager, worker: nat, online: bool)
    requires worker < |m.workers|
    modifies m`workers
    ensures m.View() == old(m.View()).(workers := old(m.workers)[worker := old(m.workers)[worker].(verdict := Some(online))])
  {
    m.workers := m.workers[worker := m.workers[worker].(verdict := Some(online))];
  }

  /** A goroutine puts its result into the channel and is done. */
  method SendResult(m: PingManager, worker: nat)
    requires worker < |m.workers| && m.workers[worker].verdict.Some?
    modifies m`workers, m`results
    ensures m.View() == Sent(old(m.View()), worker)
  {
    var x := m.workers[worker];
    m.results := m.results + [PingResult(x.id, x.ip, x.verdict.value)];
    m.workers := m.workers[..worker] + m.workers[worker + 1..];
  }

  /** One turn: of the loop, of a goroutine, or of whoever cancels the context. */
  method Take(m: PingManager, phase: Phase, ctxDone: bool, step: Step) returns (next: Phase, done: bool)
    requires m.Valid() && Enabled(Manager(phase, ctxDone, m.View()), step)
    modifies m, m.inFlight.Values
    ensures m.Valid() && fresh(m.inFlight.Values - old(m.inFlight.Values))
    ensures Manager(next, done, m.View()) == Apply(Manager(phase, ctxDone, old(m.View())), step)
  {
    next, done := phase, ctxDone;
    match step {
      case Tick(load, now, live) =>
        m.CheckHosts(load, now, live);
        next, done := Looping, ctxDone || (load.Some? && live < |load.value|);
      case ProbeReturns(worker, online) => ProbeReturned(m, worker, online);
      case Send(worker) => SendResult(m, worker);
      case Receive(stamp) => m.Receive(stamp);
      case Cancel => done := true;
      case BeginShutdown =>
        m.CancelFlights();
        next := Draining;
      case FinishShutdown => next := Stopped;
    }
  }

  /** Every schedule leaves the program where the step system says; with
      `RunKeepsInv`, every state the program reaches satisfies the invariant. */
  method RunPingManager(status: map<string, HostState>, steps: seq<Step>) returns (m: PingManager, phase: Phase, ctxDone: bool)
    requires Runs(Manager(Starting, false, Tables(None, map[], map[], [], [], status)), steps)
    ensures m.Valid()
    ensures Manager(phase, ctxDone, m.View())
      == After(Manager(Starting, false, Tables(None, map[], map[], [], [], status)), steps)
    ensures Inv(Manager(phase, ctxDone, m.View()))
  {
    ghost var start := Manager(Starting, false, Tables(None, map[], map[], [], [], status));
    m := new PingManager(status);
    phase, ctxDone := Starting, false;
    RunKeepsInv(start, steps);
    for i := 0 to |steps|
      invariant fresh(m) && m.Valid() && fresh(m.inFlight.Values)
      invariant Runs(Manager(phase, ctxDone, m.View()), steps[i..])
      invariant After(Manager(phase, ctxDone, m.View()), steps[i..]) == After(start, steps)
    {
      assert steps[i..][0] == steps[i] && steps[i..][1..] == steps[i + 1..];
      phase, ctxDone := Take(m, phase, ctxDone, steps[i]);
    }
  }
}
