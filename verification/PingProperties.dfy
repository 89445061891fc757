/** What the ping manager guarantees in every run. */
module PingProperties {
  import opened Types
  import opened Hosts
  import opened PingTables
  import opened PingProtocol

  // ------------------------------------------- goroutines, channel, shutdown

  ghost predicate Distinct(ids: seq<string>) {
    forall i, j :: 0 <= i < j < |ids| ==> ids[i] != ids[j]
  }

  lemma MultisetOfSetIsDistinct(ids: seq<string>, s: set<string>)
    requires multiset(ids) == multiset(s)
    ensures Distinct(ids) && |ids| == |s| && forall x :: x in s <==> x in ids
  {
    assert |multiset(ids)| == |ids|;
    forall i, j | 0 <= i < j < |ids| ensures ids[i] != ids[j] {
      assert ids == ids[..i] + [ids[i]] + ids[i + 1..j] + [ids[j]] + ids[j + 1..];
      assert multiset(s)[ids[i]] <= 1;
    }
    forall x ensures x in s <==> x in ids {
      assert x in ids <==> x in multiset(ids);
    }
  }

  lemma OneToOneIsDistinct(t: Tables)
    requires OneToOne(t)
    ensures Distinct(WorkerIds(t.workers) + ResultIds(t.results))
    ensures forall id :: id in t.inFlight <==> id in WorkerIds(t.workers) + ResultIds(t.results)
    ensures |t.workers| + |t.results| == |t.inFlight|
  {
    var ids := WorkerIds(t.workers) + ResultIds(t.results);
    assert multiset(ids) == multiset(WorkerIds(t.workers)) + multiset(ResultIds(t.results));
    MultisetOfSetIsDistinct(ids, t.inFlight.Keys);
  }

  lemma SendsAreNeverBlocked(m: Manager)
    requires OneToOne(m.tables) && |m.tables.inFlight| <= MAX_CONCURRENT_PINGS
    ensures var ws := m.tables.workers;
      forall w :: 0 <= w < |ws| && ws[w].verdict.Some? ==> Enabled(m, Send(w))
  {
    OneToOneIsDistinct(m.tables);
  }

  /** In every reachable state the goroutines and the queued results are, one for
      one, the in-flight ids, and there are at most four of them. So no goroutine
      waiting to send is ever blocked, and every result finds its flight. */
  lemma ProbesMatchFlights(m: Manager, steps: seq<Step>)
    requires Init(m) && Runs(m, steps)
    ensures var t := After(m, steps).tables;
      && Distinct(WorkerIds(t.workers) + ResultIds(t.results))
      && (forall id :: id in t.inFlight <==> id in WorkerIds(t.workers) + ResultIds(t.results))
      && |t.workers| + |t.results| == |t.inFlight| <= 4
      && (forall w :: 0 <= w < |t.workers| && t.workers[w].verdict.Some? ==> Enabled(After(m, steps), Send(w)))
      && (t.results != [] ==> t.results[0].id in t.inFlight)
  {
    RunKeepsInv(m, steps);
    OneToOneIsDistinct(After(m, steps).tables);
    SendsAreNeverBlocked(After(m, steps));
  }

  /** Steps the goroutines of a state still have to take before they end. */
  function Work(ws: seq<Worker>): nat {
    if ws == [] then 0
    else (if ws[0].verdict.None? then 2 else 1) + Work(ws[1..])
  }

  lemma {:induction false} WorkSplits(ws: seq<Worker>, w: nat)
    requires w < |ws|
    ensures Work(ws) == Work(ws[..w]) + Work([ws[w]]) + Work(ws[w + 1..])
    ensures Work(ws) <= 2 * |ws|
  {
    if w == 0 {
      if |ws| > 1 { WorkSplits(ws[1..], 0); }
      assert ws[..0] == [];
    } else {
      WorkSplits(ws[1..], w - 1);
      assert ws[..w][1..] == ws[1..][..w - 1];
      assert ws[1..][w..] == ws[w + 1..];
    }
  }

  lemma {:induction false} WorkAppends(a: seq<Worker>, b: seq<Worker>)
    ensures Work(a + b) == Work(a) + Work(b)
  {
    if a == [] {
      assert a + b == b;
    } else {
      WorkAppends(a[1..], b);
      assert (a + b)[1..] == a[1..] + b;
    }
  }

  predicate WorkerStep(step: Step) {
    step.ProbeReturns? || step.Send?
  }

  lemma WorkerStepWorks(m: Manager, step: Step)
    requires Enabled(m, step) && WorkerStep(step)
    ensures Work(Apply(m, step).tables.workers) == Work(m.tables.workers) - 1
  {
    var ws, w := m.tables.workers, step.worker;
    var after := Apply(m, step).tables.workers;
    WorkSplits(ws, w);
    if step.Send? {
      WorkAppends(ws[..w], ws[w + 1..]);
    } else {
      WorkSplits(after, w);
      assert after[..w] == ws[..w] && after[w + 1..] == ws[w + 1..];
    }
  }

  /** Steps other than a repeated cancellation. */
  function Progress(steps: seq<Step>): nat {
    if steps == [] then 0 else (if steps[0].Cancel? then 0 else 1) + Progress(steps[1..])
  }

  function Remaining(m: Manager): nat {
    Work(m.tables.workers) + if m.phase == Draining then 1 else 0
  }

  /** Once the manager has left its loop, each further step is a step towards the
      end of `workers.Wait`: exactly `Remaining` of them are left. */
  lemma {:induction false} ShutdownCountsDown(m: Manager, steps: seq<Step>)
    requires Inv(m) && m.phase in {Draining, Stopped} && Runs(m, steps)
    ensures After(m, steps).phase in {Draining, Stopped}
    ensures Progress(steps) + Remaining(After(m, steps)) == Remaining(m)
    decreases |steps|
  {
    if steps != [] {
      StepKeepsInv(m, steps[0]);
      if WorkerStep(steps[0]) { WorkerStepWorks(m, steps[0]); }
      ShutdownCountsDown(Apply(m, steps[0]), steps[1..]);
    }
  }

  lemma WorkIsBounded(ws: seq<Worker>)
    ensures Work(ws) <= 2 * |ws|
  {
    if ws != [] { WorkSplits(ws, 0); }
  }

  lemma DrainingIsNeverStuck(m: Manager)
    requires Inv(m) && m.phase in {Draining, Stopped}
    ensures m.phase == Stopped || Enabled(m, FinishShutdown) || exists step :: WorkerStep(step) && Enabled(m, step)
  {
    var t := m.tables;
    if m.phase == Draining && t.workers != [] {
      OneToOneIsDistinct(t);
      var step := if t.workers[0].verdict.None? then ProbeReturns(0, false) else Send(0);
      assert WorkerStep(step) && Enabled(m, step);
    }
  }

  /** Waiting for the probes ends: a draining manager takes at most nine more
      steps, and until it has stopped one of them can always be taken. */
  lemma ShutdownEnds(m: Manager, steps: seq<Step>, more: seq<Step>)
    requires Init(m) && Runs(m, steps) && After(m, steps).phase == Draining
    requires Runs(After(m, steps), more)
    ensures Progress(more) <= 9
    ensures var end := After(After(m, steps), more);
      end.phase == Stopped || Enabled(end, FinishShutdown)
      || exists step :: WorkerStep(step) && Enabled(end, step)
  {
    ProbesMatchFlights(m, steps);
    RunKeepsInv(m, steps);
    var start := After(m, steps);
    WorkIsBounded(start.tables.workers);
    ShutdownCountsDown(start, more);
    RunKeepsInv(start, more);
    DrainingIsNeverStuck(After(start, more));
  }

  // ----------------------------------------------------------------- verdicts

  /** The list of the last successful load of a run. */
  function LastLoad(steps: seq<Step>): Option<seq<Host>> {
    if steps == [] then None
    else
      var later := LastLoad(steps[1..]);
      if later.Some? then later
      else if steps[0].Tick? then steps[0].load else None
  }

  lemma {:induction false} ScheduledKeepsTheRest(t: Tables, hosts: seq<Host>, now: int, live: nat)
    ensures var s := Scheduled(t, hosts, now, live);
      s.hosts == t.hosts && s.status == t.status && s.results == t.results
    decreases |hosts|
  {
    if !(hosts == [] || live == 0 || |t.inFlight| == MAX_CONCURRENT_PINGS) {
      ScheduledKeepsTheRest(Visited(t, hosts[0], now), hosts[1..], now, live - 1);
    }
  }

  lemma {:induction false} HostsAreTheLastLoad(m: Manager, steps: seq<Step>)
    requires Runs(m, steps)
    ensures After(m, steps).tables.hosts == if LastLoad(steps).Some? then LastLoad(steps) else m.tables.hosts
    decreases |steps|
  {
    if steps != [] {
      if steps[0].Tick? && steps[0].load.Some? {
        var hosts := steps[0].load.value;
        ScheduledKeepsTheRest(Reconciled(m.tables, hosts), hosts, steps[0].now, steps[0].live);
      }
      HostsAreTheLastLoad(Apply(m, steps[0]), steps[1..]);
    }
  }

  /** After the first successful load, `status` has entries only for ids of the
      last loaded list: a removed host is gone and no late result recreates it. */
  lemma StatusStaysWithinTheList(m: Manager, steps: seq<Step>, id: string)
    requires Init(m) && Runs(m, steps) && LastLoad(steps).Some?
    requires !Lists(LastLoad(steps).value, id)
    ensures id !in After(m, steps).tables.status
  {
    RunKeepsInv(m, steps);
    HostsAreTheLastLoad(m, steps);
  }

  /** A received verdict is recorded exactly when its flight is still valid. Then
      the address that was probed is one the last loaded list gives that id (the one,
      where ids are unique, as in every list the loader accepts), the verdict is recorded for that id alone, and an offline verdict leaves the
      time of the last successful ping. */
  lemma VerdictsMatchTheList(m: Manager, steps: seq<Step>, stamp: string)
    requires Init(m) && Runs(m, steps) && Enabled(After(m, steps), Receive(stamp))
    ensures var t := After(m, steps).tables;
      var r, after := t.results[0], Apply(After(m, steps), Receive(stamp)).tables.status;
      && r.id in t.inFlight
      && (!t.inFlight[r.id].valid ==> after == t.status)
      && (t.inFlight[r.id].valid ==>
            && LastLoad(steps).Some?
            && ListsAt(LastLoad(steps).value, r.id, r.ip)
            && (UniqueIds(LastLoad(steps).value) ==>
                  forall h :: h in LastLoad(steps).value && h.id == r.id ==> h.ip == r.ip)
            && r.id in after && after[r.id].online == r.online
            && (r.online ==> after[r.id].lastPinged == stamp)
            && (!r.online && r.id in t.status ==> after[r.id].lastPinged == t.status[r.id].lastPinged)
            && after - {r.id} == t.status - {r.id})
  {
    RunKeepsInv(m, steps);
    HostsAreTheLastLoad(m, steps);
    OneToOneHasFlights(After(m, steps).tables);
    if LastLoad(steps).Some? { UniqueAddress(LastLoad(steps).value); }
  }

  lemma UniqueAddress(hosts: seq<Host>)
    ensures UniqueIds(hosts) ==>
      forall h, ip :: h in hosts && ListsAt(hosts, h.id, ip) ==> h.ip == ip
  {
  }

  // ------------------------------------------------------ launches of one host

  predicate Launched(m: Manager, step: Step, id: string)
    requires Enabled(m, step)
  {
    step.Tick? && id !in m.tables.inFlight && id in Apply(m, step).tables.inFlight
  }

  /** A loaded list omits `id`, or gives it another address while its probe is in flight. */
  predicate Forgets(m: Manager, step: Step, id: string) {
    step.Tick? && step.load.Some? &&
    var configured := Configured(step.load.value);
    id !in configured || id in Stale(m.tables.inFlight, configured)
  }

  /** An entry of `hosts` for `id` is due. */
  ghost predicate DueAmong(hosts: seq<Host>, id: string, lastPing: map<string, int>, now: int) {
    exists i :: 0 <= i < |hosts| && hosts[i].id == id && Due(hosts[i], lastPing, now)
  }

  lemma DueAmongMore(hosts: seq<Host>, k: nat, m: nat, id: string, before: map<string, int>, now: int)
    requires k <= m <= |hosts| && DueAmong(hosts[k..m], id, before, now)
    ensures DueAmong(hosts[..m], id, before, now)
  {
    var i :| 0 <= i < m - k && hosts[k..m][i].id == id && Due(hosts[k..m][i], before, now);
    assert hosts[..m][k + i] == hosts[k..m][i];
  }

  lemma DueAmongFirst(hosts: seq<Host>, m: nat, before: map<string, int>, now: int)
    requires 0 < m <= |hosts| && Due(hosts[0], before, now)
    ensures DueAmong(hosts[..m], hosts[0].id, before, now)
  {
    assert hosts[..m][0] == hosts[0];
  }

  lemma SameTimeSameDue(hosts: seq<Host>, id: string, a: map<string, int>, b: map<string, int>, now: int)
    requires DueAmong(hosts, id, a, now)
    requires (id in a <==> id in b) && (id in a ==> a[id] == b[id])
    ensures DueAmong(hosts, id, b, now)
  {
    var i :| 0 <= i < |hosts| && hosts[i].id == id && Due(hosts[i], a, now);
    assert Due(hosts[i], b, now);
  }

  /** Launch times after the loop: unchanged, or the time of this pass. A host the
      loop launches was due when the pass began. */
  lemma {:induction false} ScheduledTimes(t: Tables, hosts: seq<Host>, now: int, live: nat, id: string)
    ensures var s := Scheduled(t, hosts, now, live);
      && t.inFlight.Keys <= s.inFlight.Keys
      && (id in t.lastPing ==> id in s.lastPing)
      && (id in s.lastPing ==> s.lastPing[id] == now || (id in t.lastPing && s.lastPing[id] == t.lastPing[id]))
      && (id in s.inFlight && id !in t.inFlight ==>
            && id in s.lastPing && s.lastPing[id] == now
            && DueAmong(hosts, id, t.lastPing, now))
    decreases |hosts|
  {
    if !(hosts == [] || live == 0 || |t.inFlight| == MAX_CONCURRENT_PINGS) {
      var v, rest := Visited(t, hosts[0], now), hosts[1..];
      ScheduledTimes(v, rest, now, live - 1, id);
      var s := Scheduled(v, rest, now, live - 1);
      if id in s.inFlight && id !in t.inFlight {
        assert hosts[..|hosts|] == hosts && hosts[1..|hosts|] == rest;
        if id in v.inFlight {
          DueAmongFirst(hosts, |hosts|, t.lastPing, now);
        } else {
          SameTimeSameDue(rest, id, v.lastPing, t.lastPing, now);
          DueAmongMore(hosts, 1, |hosts|, id, t.lastPing, now);
        }
      }
    }
  }

  /** `id` was last launched at `since` or later. */
  predicate LaunchedSince(m: Manager, id: string, since: int) {
    id in m.tables.lastPing && m.tables.lastPing[id] >= since
  }

  lemma StepRemembersLaunch(m: Manager, step: Step, id: string, since: int)
    requires Enabled(m, step) && LaunchedSince(m, id, since) && !Forgets(m, step, id)
    requires step.Tick? ==> step.now >= since
    ensures LaunchedSince(Apply(m, step), id, since)
    ensures Launched(m, step, id) ==>
      exists h :: h in step.load.value && h.id == id && step.now - since >= Interval(h)
  {
    if step.Tick? && step.load.Some? {
      var r := Reconciled(m.tables, step.load.value);
      ScheduledTimes(r, step.load.value, step.now, step.live, id);
      assert r.inFlight.Keys == m.tables.inFlight.Keys;
      if Launched(m, step, id) {
        var i :| 0 <= i < |step.load.value| && step.load.value[i].id == id && Due(step.load.value[i], r.lastPing, step.now);
        assert step.load.value[i] in step.load.value;
      }
    }
  }

  /** No step of the run forgets `id`. */
  predicate Undisturbed(m: Manager, steps: seq<Step>, id: string)
    requires Runs(m, steps)
    decreases |steps|
  {
    steps == [] || (!Forgets(m, steps[0], id) && Undisturbed(Apply(m, steps[0]), steps[1..], id))
  }

  predicate EndsWithLaunch(m: Manager, steps: seq<Step>, id: string)
    requires Runs(m, steps) && steps != []
    decreases |steps|
  {
    if |steps| == 1 then Launched(m, steps[0], id)
    else EndsWithLaunch(Apply(m, steps[0]), steps[1..], id)
  }

  lemma {:induction false} SpacedSince(m: Manager, steps: seq<Step>, id: string, since: int)
    requires Runs(m, steps) && steps != [] && LaunchedSince(m, id, since)
    requires forall i :: 0 <= i < |steps| && steps[i].Tick? ==> steps[i].now >= since
    requires Undisturbed(m, steps, id) && EndsWithLaunch(m, steps, id)
    ensures var last := steps[|steps| - 1];
      last.Tick? && last.load.Some? &&
      exists h :: h in last.load.value && h.id == id && last.now - since >= Interval(h)
    decreases |steps|
  {
    StepRemembersLaunch(m, steps[0], id, since);
    if |steps| > 1 {
      SpacedSince(Apply(m, steps[0]), steps[1..], id, since);
    }
  }

  /** Two launches of one id are at least the later launch's interval apart, unless
      between them (or at the later pass) a loaded list omitted the id or changed
      the address of its running probe. Holds from any state, clock not going back. */
  lemma LaunchesAreSpaced(m: Manager, first: Step, steps: seq<Step>, id: string)
    requires Enabled(m, first) && Launched(m, first, id)
    requires Runs(Apply(m, first), steps) && steps != []
    requires forall i :: 0 <= i < |steps| && steps[i].Tick? ==> steps[i].now >= first.now
    requires forall i, j :: 0 <= i < j < |steps| && steps[i].Tick? && steps[j].Tick? ==> steps[i].now <= steps[j].now
    requires Undisturbed(Apply(m, first), steps, id) && EndsWithLaunch(Apply(m, first), steps, id)
    ensures var last := steps[|steps| - 1];
      last.Tick? && last.load.Some? &&
      exists h :: h in last.load.value && h.id == id && last.now - first.now >= Interval(h)
  {
    var r := Reconciled(m.tables, first.load.value);
    assert r.inFlight.Keys == m.tables.inFlight.Keys;
    ScheduledTimes(r, first.load.value, first.now, first.live, id);
    SpacedSince(Apply(m, first), steps, id, first.now);
  }

  /** In any case it fits 64 bits, and differs from that many seconds by a multiple of 2^64. */
  lemma IntervalFits(h: Host) returns (q: int)
    ensures -0x8000_0000_0000_0000 <= Interval(h) < 0x8000_0000_0000_0000
    ensures var seconds := if h.pingInterval <= 0 then 60 else h.pingInterval;
      seconds * 1_000_000_000 == Interval(h) + q * 0x1_0000_0000_0000_0000
  {
    var x := (if h.pingInterval <= 0 then 60 else h.pingInterval) * 1_000_000_000;
    q := x / 0x1_0000_0000_0000_0000;
    if x % 0x1_0000_0000_0000_0000 >= 0x8000_0000_0000_0000 { q := q + 1; }
  }

  /** The interval is the configured number of seconds (60 when none is set) exactly
      up to 9223372036 seconds; beyond, the 64-bit product is not that many seconds. */
  lemma IntervalIsInSeconds(h: Host)
    ensures Interval(h) == (if h.pingInterval <= 0 then 60 else h.pingInterval) * 1_000_000_000
      <==> h.pingInterval <= 9_223_372_036
  {
  }
}
