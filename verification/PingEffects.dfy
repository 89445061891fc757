/** What each step does to the tables, in terms of the loaded list and the tables before:
    nothing here goes through the functions that the step system is built from. */
module PingEffects {
  import opened Types
  import opened Hosts
  import opened PingTables
  import opened PingProtocol
  import opened PingProperties
  import opened PingFairness

  lemma {:induction false} ConfiguredIsLast(hosts: seq<Host>, k: nat)
    requires k < |hosts| && forall j :: k < j < |hosts| ==> hosts[j].id != hosts[k].id
    ensures hosts[k].id in Configured(hosts) && Configured(hosts)[hosts[k].id] == hosts[k]
  {
    var n := |hosts| - 1;
    if k < n {
      assert forall j :: 0 <= j < n ==> hosts[..n][j] == hosts[j];
      ConfiguredIsLast(hosts[..n], k);
    }
  }

  /** With unique ids an id's address in the list is the only one. */
  lemma ConfiguredAt(hosts: seq<Host>, id: string, ip: string)
    requires UniqueIds(hosts)
    ensures ListsAt(hosts, id, ip) <==> id in Configured(hosts) && Configured(hosts)[id].ip == ip
  {
    ConfiguredEntry(hosts, id);
    if ListsAt(hosts, id, ip) {
      var k :| 0 <= k < |hosts| && hosts[k].id == id && hosts[k].ip == ip;
      ConfiguredIsLast(hosts, k);
    }
  }

  // -------------------------------------------------------------------- status

  /** A pass deletes the status of exactly the ids that the loaded list does not have,
      and changes no other. */
  lemma PassKeepsListedStatus(t: Tables, hosts: seq<Host>, now: int, live: nat, id: string)
    ensures var after := Checked(t, Some(hosts), now, live).status;
      && (id in after <==> id in t.status && Lists(hosts, id))
      && (id in after ==> after[id] == t.status[id])
  {
    ScheduledKeepsTheRest(Reconciled(t, hosts), hosts, now, live);
    ConfiguredEntry(hosts, id);
  }

  /** In every run, the status of an id changes in three ways only: a pass deletes it if
      the loaded list does not have the id, and a verdict for that very id replaces it. */
  lemma StatusChangesExactly(m: Manager, step: Step, id: string)
    requires Enabled(m, step)
    ensures var before, after := m.tables.status, Apply(m, step).tables.status;
      && (step.Tick? && step.load.Some? ==>
            (id in after <==> id in before && Lists(step.load.value, id)) && (id in after ==> after[id] == before[id]))
      && (!step.Receive? && !(step.Tick? && step.load.Some?) ==> after == before)
      && (step.Receive? && m.tables.results[0].id != id ==>
            (id in after <==> id in before) && (id in after ==> after[id] == before[id]))
  {
    if step.Tick? && step.load.Some? {
      PassKeepsListedStatus(m.tables, step.load.value, step.now, step.live, id);
    }
  }

  /** So an id keeps its status through any run whose lists all have it, as long as no
      result for it is received. */
  predicate LeavesAlone(m: Manager, steps: seq<Step>, id: string)
    requires Runs(m, steps)
    decreases |steps|
  {
    steps == [] ||
    (!(steps[0].Receive? && m.tables.results[0].id == id) && LeavesAlone(Apply(m, steps[0]), steps[1..], id))
  }

  lemma {:induction false} StatusStays(m: Manager, steps: seq<Step>, id: string)
    requires Runs(m, steps) && LeavesAlone(m, steps, id) && id in m.tables.status
    requires forall s :: s in steps && s.Tick? && s.load.Some? ==> Lists(s.load.value, id)
    ensures id in After(m, steps).tables.status && After(m, steps).tables.status[id] == m.tables.status[id]
    decreases |steps|
  {
    if steps != [] {
      assert steps[0] in steps;
      StatusChangesExactly(m, steps[0], id);
      StatusStays(Apply(m, steps[0]), steps[1..], id);
    }
  }

  // ------------------------------------------------------- flights and times

  /** What a pass does to a probe in flight: it stays, with its address; it stays valid
      exactly if the list still gives the id that address, and is cancelled otherwise. */
  lemma PassKeepsListedFlights(t: Tables, hosts: seq<Host>, now: int, live: nat, id: string)
    requires UniqueIds(hosts) && id in t.inFlight
    ensures var f, after := t.inFlight[id], Checked(t, Some(hosts), now, live).inFlight;
      && id in after && after[id].ip == f.ip
      && (after[id].valid <==> f.valid && ListsAt(hosts, id, f.ip))
      && (after[id].cancelled <==> f.cancelled || !ListsAt(hosts, id, f.ip))
  {
    ConfiguredAt(hosts, id, t.inFlight[id].ip);
    ScheduledKeepsFlight(Reconciled(t, hosts), hosts, now, live, id);
  }

  lemma {:induction false} ScheduledKeepsFlight(t: Tables, hosts: seq<Host>, now: int, live: nat, id: string)
    requires id in t.inFlight
    ensures var s := Scheduled(t, hosts, now, live);
      && id in s.inFlight && s.inFlight[id] == t.inFlight[id]
      && (id in s.lastPing <==> id in t.lastPing) && (id in t.lastPing ==> s.lastPing[id] == t.lastPing[id])
    decreases |hosts|
  {
    if !(hosts == [] || live == 0 || |t.inFlight| == MAX_CONCURRENT_PINGS) {
      ScheduledKeepsFlight(Visited(t, hosts[0], now), hosts[1..], now, live - 1, id);
    }
  }

  /** The launch time of an id that the pass does not launch is forgotten exactly if the
      list omits the id, or moves it while its probe is in flight; otherwise it stays. */
  lemma PassKeepsListedTimes(t: Tables, hosts: seq<Host>, now: int, live: nat, id: string)
    requires UniqueIds(hosts)
    requires id in t.inFlight || id !in Checked(t, Some(hosts), now, live).inFlight
    ensures var after := Checked(t, Some(hosts), now, live).lastPing;
      && (id in after <==>
            id in t.lastPing && Lists(hosts, id) && (id in t.inFlight ==> ListsAt(hosts, id, t.inFlight[id].ip)))
      && (id in after ==> after[id] == t.lastPing[id])
  {
    var r := Reconciled(t, hosts);
    ConfiguredEntry(hosts, id);
    if id in t.inFlight {
      ConfiguredAt(hosts, id, t.inFlight[id].ip);
      ScheduledKeepsFlight(r, hosts, now, live, id);
    } else {
      ScheduledTimesOnlyWhatItLaunches(r, hosts, now, live, id);
    }
  }

  // ------------------------------------------------------------------ launches

  /** A launch: a valid flight and a goroutine still to probe, for a host of the list. */
  ghost predicate IsLaunchOf(hosts: seq<Host>, now: int, after: Tables, w: Worker) {
    exists k ::
      && 0 <= k < |hosts|
      && w == Worker(hosts[k].id, hosts[k].ip, None)
      && w.id in after.inFlight && after.inFlight[w.id] == Flight(hosts[k].ip, true, false)
      && w.id in after.lastPing && after.lastPing[w.id] == now
  }

  /** The goroutines and flights that a pass adds are launches, one for one. */
  ghost predicate AddsLaunches(hosts: seq<Host>, now: int, before: Tables, after: Tables) {
    && |before.workers| <= |after.workers| && after.workers[..|before.workers|] == before.workers
    && (forall i :: |before.workers| <= i < |after.workers| ==>
          after.workers[i].id !in before.inFlight && IsLaunchOf(hosts, now, after, after.workers[i]))
    && (forall id :: id in after.inFlight && id !in before.inFlight ==>
          exists i :: |before.workers| <= i < |after.workers| && after.workers[i].id == id)
  }

  lemma VisitAddsLaunch(all: seq<Host>, k: nat, t: Tables, now: int, after: Tables)
    requires k < |all| && AddsLaunches(all, now, Visited(t, all[k], now), after)
    requires all[k].id !in t.inFlight && Launches(t, all[k], now) ==>
      && all[k].id in after.inFlight && after.inFlight[all[k].id] == Flight(all[k].ip, true, false)
      && all[k].id in after.lastPing && after.lastPing[all[k].id] == now
    ensures AddsLaunches(all, now, t, after)
  {
    var v := Visited(t, all[k], now);
    if Launches(t, all[k], now) {
      var n := |t.workers|;
      assert after.workers[..n] == after.workers[..n + 1][..n] == t.workers;
      assert after.workers[n] == v.workers[n];
      assert IsLaunchOf(all, now, after, after.workers[n]);
    }
  }

  lemma {:induction false} ScheduledAddsLaunches(all: seq<Host>, k: nat, t: Tables, now: int, live: nat)
    requires k <= |all|
    ensures AddsLaunches(all, now, t, Scheduled(t, all[k..], now, live))
    decreases |all| - k
  {
    if k < |all| && live > 0 && |t.inFlight| != MAX_CONCURRENT_PINGS {
      var v := Visited(t, all[k], now);
      assert all[k..][1..] == all[k + 1..];
      ScheduledAddsLaunches(all, k + 1, v, now, live - 1);
      if Launches(t, all[k], now) { ScheduledKeepsFlight(v, all[k + 1..], now, live - 1, all[k].id); }
      VisitAddsLaunch(all, k, t, now, Scheduled(v, all[k + 1..], now, live - 1));
    }
  }

  lemma PassAddsLaunches(t: Tables, hosts: seq<Host>, now: int, live: nat)
    ensures AddsLaunches(hosts, now, t, Checked(t, Some(hosts), now, live))
    ensures Checked(t, Some(hosts), now, live).results == t.results
  {
    var r := Reconciled(t, hosts);
    ScheduledAddsLaunches(hosts, 0, r, now, live);
    ScheduledKeepsTheRest(r, hosts, now, live);
    assert hosts[0..] == hosts && r.inFlight.Keys == t.inFlight.Keys;
  }

  /** A host could be launched: it has no probe in flight, and was never launched (or its
      launch was forgotten) or its interval is over. */
  predicate CouldLaunch(t: Tables, h: Host, now: int) {
    h.id !in t.inFlight && (h.id !in t.lastPing || now - t.lastPing[h.id] >= Interval(h))
  }

  ghost function CouldLaunchAhead(t: Tables, hosts: seq<Host>, p: nat, now: int): set<int>
    requires p <= |hosts|
  {
    set i | 0 <= i < p && CouldLaunch(t, hosts[i], now)
  }

  lemma {:induction false} ReadyCounts(r: Tables, t: Tables, hosts: seq<Host>, p: nat, now: int)
    requires p <= |hosts|
    requires forall i :: 0 <= i < |hosts| ==> (Launches(r, hosts[i], now) <==> CouldLaunch(t, hosts[i], now))
    ensures Ready(r, hosts[..p], now) == |CouldLaunchAhead(t, hosts, p, now)|
  {
    if p == 0 {
      assert CouldLaunchAhead(t, hosts, 0, now) == {};
    } else {
      ReadyCounts(r, t, hosts, p - 1, now);
      assert hosts[..p] == hosts[..p - 1] + [hosts[p - 1]];
      ReadyAppends(r, hosts[..p - 1], hosts[p - 1], now);
      AheadGrows(t, hosts, p, now);
    }
  }

  lemma AheadGrows(t: Tables, hosts: seq<Host>, p: nat, now: int)
    requires 0 < p <= |hosts|
    ensures |CouldLaunchAhead(t, hosts, p, now)|
      == |CouldLaunchAhead(t, hosts, p - 1, now)| + if CouldLaunch(t, hosts[p - 1], now) then 1 else 0
  {
    var ahead := CouldLaunchAhead(t, hosts, p - 1, now);
    assert CouldLaunchAhead(t, hosts, p, now) == ahead + if CouldLaunch(t, hosts[p - 1], now) then {p - 1} else {};
  }

  lemma {:induction false} ReadyAppends(r: Tables, hosts: seq<Host>, h: Host, now: int)
    ensures Ready(r, hosts + [h], now) == Ready(r, hosts, now) + if Launches(r, h, now) then 1 else 0
  {
    if hosts == [] {
      assert [] + [h] == [h] && [h][1..] == [];
    } else {
      ReadyAppends(r, hosts[1..], h, now);
      assert (hosts + [h])[1..] == hosts[1..] + [h];
    }
  }

  lemma CouldLaunchIsLaunches(t: Tables, hosts: seq<Host>, now: int)
    ensures var r := Reconciled(t, hosts);
      && |r.inFlight| == |t.inFlight| && r.inFlight.Keys == t.inFlight.Keys
      && forall i :: 0 <= i < |hosts| ==> (Launches(r, hosts[i], now) <==> CouldLaunch(t, hosts[i], now))
  {
    var r := Reconciled(t, hosts);
    assert r.inFlight.Keys == t.inFlight.Keys;
    assert |r.inFlight| == |r.inFlight.Keys| == |t.inFlight.Keys| == |t.inFlight|;
    forall i | 0 <= i < |hosts| ensures Launches(r, hosts[i], now) <==> CouldLaunch(t, hosts[i], now) {
      ConfiguredEntry(hosts, hosts[i].id);
      assert Lists(hosts, hosts[i].id);
    }
  }

  /** Which hosts a pass launches, read off the tables before the pass. */
  lemma PassLaunchesFromTables(t: Tables, hosts: seq<Host>, now: int, live: nat, p: nat)
    requires UniqueIds(hosts) && p < |hosts| && |t.inFlight| <= MAX_CONCURRENT_PINGS
    ensures hosts[p].id !in t.inFlight && hosts[p].id in Checked(t, Some(hosts), now, live).inFlight <==>
      && p < live && CouldLaunch(t, hosts[p], now)
      && |t.inFlight| + |CouldLaunchAhead(t, hosts, p, now)| < MAX_CONCURRENT_PINGS
  {
    var r := Reconciled(t, hosts);
    CouldLaunchIsLaunches(t, hosts, now);
    ReadyCounts(r, t, hosts, p, now);
    LaunchesExactly(r, hosts, now, live, p);
  }

  /** All that a pass does, in every run: `PassKeeps..` and `PassAdds..` say what happens to
      the status, flights and times there were; this says which probes begin. */
  lemma RunPassLaunches(m: Manager, steps: seq<Step>, hosts: seq<Host>, now: int, live: nat, p: nat)
    requires Init(m) && Runs(m, steps) && Enabled(After(m, steps), Tick(Some(hosts), now, live))
    requires UniqueIds(hosts) && p < |hosts|
    ensures var t := After(m, steps).tables;
      Launched(After(m, steps), Tick(Some(hosts), now, live), hosts[p].id) <==>
      && p < live && CouldLaunch(t, hosts[p], now)
      && |t.inFlight| + |CouldLaunchAhead(t, hosts, p, now)| < 4
  {
    RunKeepsInv(m, steps);
    PassLaunchesFromTables(After(m, steps).tables, hosts, now, live, p);
  }

  // ------------------------------------------------------------- the other steps

  /** A received result leaves the channel and ends its flight; nothing else in flight,
      and no launch time, changes. A first verdict that is offline has no ping time. */
  lemma ReceiveLandsOneFlight(m: Manager, stamp: string)
    requires Enabled(m, Receive(stamp)) && m.tables.results[0].id in m.tables.inFlight
    ensures var t, after := m.tables, Apply(m, Receive(stamp)).tables;
      var r := t.results[0];
      && after.results == t.results[1..] && after.workers == t.workers && after.lastPing == t.lastPing
      && after.inFlight == t.inFlight - {r.id} && after.hosts == t.hosts
      && (t.inFlight[r.id].valid && r.id !in t.status ==>
            r.id in after.status && after.status[r.id] == HostState(r.online, if r.online then stamp else ""))
  {
  }

  /** A goroutine sends the verdict it holds and ends; a probe's return gives its
      goroutine the verdict; shutdown cancels all flights. */
  lemma OtherStepsExactly(m: Manager, step: Step)
    requires Enabled(m, step) && !step.Tick? && !step.Receive?
    ensures var t, after := m.tables, Apply(m, step).tables;
      && after.lastPing == t.lastPing && after.status == t.status && after.hosts == t.hosts
      && (step.Send? ==>
            var w := t.workers[step.worker];
            && after.workers == t.workers[..step.worker] + t.workers[step.worker + 1..]
            && after.results == t.results + [PingResult(w.id, w.ip, w.verdict.value)] && after.inFlight == t.inFlight)
      && (step.ProbeReturns? ==>
            var w := t.workers[step.worker];
            && after.workers == t.workers[step.worker := Worker(w.id, w.ip, Some(step.online))]
            && after.results == t.results && after.inFlight == t.inFlight)
      && (step.BeginShutdown? ==>
            && after.workers == t.workers && after.results == t.results && after.inFlight.Keys == t.inFlight.Keys
            && forall id :: id in t.inFlight ==> after.inFlight[id] == Flight(t.inFlight[id].ip, t.inFlight[id].valid, true))
      && (step.Cancel? || step.FinishShutdown? ==> after == t)
  {
  }

  // ------------------------------------------------- whose verdict is recorded

  /** A probe of `id` at `ip` answered `online` in the run. */
  predicate Answered(m: Manager, steps: seq<Step>, id: string, ip: string, online: bool)
    requires Runs(m, steps)
    decreases |steps|
  {
    steps != [] &&
    ((steps[0].ProbeReturns? && steps[0].online == online
      && m.tables.workers[steps[0].worker].id == id && m.tables.workers[steps[0].worker].ip == ip)
     || Answered(Apply(m, steps[0]), steps[1..], id, ip, online))
  }

  /** A goroutine or a queued result of `t` holds the verdict. */
  ghost predicate HoldsVerdict(t: Tables, id: string, ip: string, online: bool) {
    Worker(id, ip, Some(online)) in t.workers || PingResult(id, ip, online) in t.results
  }

  lemma TickMakesNoVerdict(t: Tables, load: Option<seq<Host>>, now: int, live: nat, id: string, ip: string, online: bool)
    requires HoldsVerdict(Checked(t, load, now, live), id, ip, online)
    ensures HoldsVerdict(t, id, ip, online)
  {
    if load.Some? {
      var after := Checked(t, load, now, live);
      PassAddsLaunches(t, load.value, now, live);
      if Worker(id, ip, Some(online)) in after.workers {
        var i :| 0 <= i < |after.workers| && after.workers[i] == Worker(id, ip, Some(online));
        if i < |t.workers| { assert t.workers[i] == after.workers[..|t.workers|][i]; }
      }
    }
  }

  lemma StepMakesVerdict(m: Manager, step: Step, id: string, ip: string, online: bool)
    requires Enabled(m, step) && HoldsVerdict(Apply(m, step).tables, id, ip, online)
    ensures HoldsVerdict(m.tables, id, ip, online)
      || (step.ProbeReturns? && step.online == online
          && m.tables.workers[step.worker].id == id && m.tables.workers[step.worker].ip == ip)
  {
    match step
    case Tick(load, now, live) => TickMakesNoVerdict(m.tables, load, now, live, id, ip, online);
    case _ =>
  }

  lemma {:induction false} VerdictsAreAnswers(m: Manager, steps: seq<Step>, id: string, ip: string, online: bool)
    requires Runs(m, steps) && HoldsVerdict(After(m, steps).tables, id, ip, online)
    ensures HoldsVerdict(m.tables, id, ip, online) || Answered(m, steps, id, ip, online)
    decreases |steps|
  {
    if steps != [] {
      VerdictsAreAnswers(Apply(m, steps[0]), steps[1..], id, ip, online);
      if HoldsVerdict(Apply(m, steps[0]).tables, id, ip, online) { StepMakesVerdict(m, steps[0], id, ip, online); }
    }
  }

  /** Every verdict that is received is what a probe of that id at that address answered. */
  lemma ReceivedVerdictsAreAnswers(m: Manager, steps: seq<Step>)
    requires Init(m) && Runs(m, steps) && After(m, steps).tables.results != []
    ensures var r := After(m, steps).tables.results[0]; Answered(m, steps, r.id, r.ip, r.online)
  {
    var r := After(m, steps).tables.results[0];
    assert r == PingResult(r.id, r.ip, r.online);
    VerdictsAreAnswers(m, steps, r.id, r.ip, r.online);
  }
}
