/** The ping manager as a step system: scheduling passes, probe goroutines, the
    results channel, cancellation and shutdown, interleaved in any order. */
module PingProtocol {
  import opened Types
  import opened Hosts
  import opened PingTables

  datatype Phase = Starting | Looping | Draining | Stopped

  datatype Manager = Manager(phase: Phase, ctxDone: bool, tables: Tables)

  datatype Step =
    | Tick(load: Option<seq<Host>>, now: int, live: nat)
    | ProbeReturns(worker: nat, online: bool)
    | Send(worker: nat)
    | Receive(stamp: string)
    | Cancel
    | BeginShutdown
    | FinishShutdown

  predicate Init(m: Manager) {
    m.phase == Starting && m.tables == Tables(None, map[], map[], [], [], m.tables.status)
  }

  /** Where the program can take the step. A send needs a free channel slot. */
  predicate Enabled(m: Manager, step: Step) {
    var t := m.tables;
    match step
    case Tick(_, _, live) => m.phase in {Starting, Looping} && (m.ctxDone ==> live == 0)
    case ProbeReturns(w, _) => w < |t.workers| && t.workers[w].verdict.None?
    case Send(w) => w < |t.workers| && t.workers[w].verdict.Some? && |t.results| < MAX_CONCURRENT_PINGS
    case Receive(_) => m.phase == Looping && t.results != []
    case Cancel => true
    case BeginShutdown => m.phase == Looping && m.ctxDone
    case FinishShutdown => m.phase == Draining && t.workers == []
  }

  /** Goroutine `w` puts its verdict into the results channel and ends. */
  function Sent(t: Tables, w: nat): Tables
    requires w < |t.workers| && t.workers[w].verdict.Some?
  {
    var x := t.workers[w];
    t.(workers := t.workers[..w] + t.workers[w + 1..],
       results := t.results + [PingResult(x.id, x.ip, x.verdict.value)])
  }

  function Apply(m: Manager, step: Step): Manager
    requires Enabled(m, step)
  {
    var t := m.tables;
    match step
    case Tick(load, now, live) =>
      var cut := load.Some? && live < |load.value|;
      Manager(Looping, m.ctxDone || cut, Checked(t, load, now, live))
    case ProbeReturns(w, online) =>
      m.(tables := t.(workers := t.workers[w := t.workers[w].(verdict := Some(online))]))
    case Send(w) =>
      m.(tables := Sent(t, w))
    case Receive(stamp) => m.(tables := Received(t, stamp))
    case Cancel => m.(ctxDone := true)
    case BeginShutdown =>
      m.(phase := Draining, tables := t.(inFlight := AllCancelled(t.inFlight)))
    case FinishShutdown => m.(phase := Stopped)
  }

  predicate Runs(m: Manager, steps: seq<Step>)
    decreases |steps|
  {
    steps == [] || (Enabled(m, steps[0]) && Runs(Apply(m, steps[0]), steps[1..]))
  }

  function After(m: Manager, steps: seq<Step>): Manager
    requires Runs(m, steps)
    decreases |steps|
  {
    if steps == [] then m else After(Apply(m, steps[0]), steps[1..])
  }

  // ---------------------------------------------------------------- invariant

  function WorkerIds(ws: seq<Worker>): seq<string> {
    seq(|ws|, i requires 0 <= i < |ws| => ws[i].id)
  }

  function ResultIds(rs: seq<PingResult>): seq<string> {
    seq(|rs|, i requires 0 <= i < |rs| => rs[i].id)
  }

  /** Goroutines and queued results together are the in-flight ids, each exactly once. */
  ghost predicate OneToOne(t: Tables) {
    multiset(WorkerIds(t.workers)) + multiset(ResultIds(t.results)) == multiset(t.inFlight.Keys)
  }

  /** Every goroutine and every queued result probed the address of its flight. */
  ghost predicate Traced(t: Tables) {
    && (forall i :: 0 <= i < |t.workers| ==>
          t.workers[i].id in t.inFlight && t.inFlight[t.workers[i].id].ip == t.workers[i].ip)
    && (forall i :: 0 <= i < |t.results| ==>
          t.results[i].id in t.inFlight && t.inFlight[t.results[i].id].ip == t.results[i].ip)
  }

  /** A flight is valid exactly while its launch time is remembered. */
  ghost predicate ValidWhileTimed(t: Tables) {
    forall id :: id in t.inFlight ==>
      && (t.inFlight[id].valid <==> id in t.lastPing)
      && (!t.inFlight[id].valid ==> t.inFlight[id].cancelled)
  }

  /** Valid flights probe an address of the last loaded list; only its ids have
      a launch time or a status. */
  ghost predicate Configures(t: Tables) {
    if t.hosts.None? then t.inFlight == map[] && t.lastPing == map[]
    else
      && (forall id :: id in t.inFlight && t.inFlight[id].valid ==> ListsAt(t.hosts.value, id, t.inFlight[id].ip))
      && (forall id :: id in t.lastPing ==> Lists(t.hosts.value, id))
      && (forall id :: id in t.status ==> Lists(t.hosts.value, id))
  }

  ghost predicate TablesInv(t: Tables) {
    && OneToOne(t)
    && |t.inFlight| <= MAX_CONCURRENT_PINGS
    && Traced(t)
    && ValidWhileTimed(t)
    && Configures(t)
  }

  ghost predicate Inv(m: Manager) {
    && TablesInv(m.tables)
    && (m.phase in {Draining, Stopped} ==>
          m.ctxDone && forall id :: id in m.tables.inFlight ==> m.tables.inFlight[id].cancelled)
    && (m.phase == Stopped ==> m.tables.workers == [])
  }

  lemma {:induction false} ConfiguredEntry(hosts: seq<Host>, id: string)
    ensures id in Configured(hosts) <==> Lists(hosts, id)
    ensures id in Configured(hosts) ==> ListsAt(hosts, id, Configured(hosts)[id].ip)
  {
    if hosts != [] {
      var n := |hosts| - 1;
      var before := Configured(hosts[..n]);
      ConfiguredEntry(hosts[..n], id);
      if id == hosts[n].id {
        assert Lists(hosts, id) && ListsAt(hosts, id, hosts[n].ip);
      } else {
        assert id in Configured(hosts) <==> id in before;
        if Lists(hosts, id) {
          var i :| 0 <= i < |hosts| && hosts[i].id == id;
          assert hosts[..n][i].id == id;
        }
        if id in before {
          var i :| 0 <= i < n && hosts[..n][i].id == id && hosts[..n][i].ip == before[id].ip;
          assert hosts[i].id == id && hosts[i].ip == Configured(hosts)[id].ip;
        }
      }
    }
  }

  lemma ConfiguredLists(hosts: seq<Host>)
    ensures forall id :: id in Configured(hosts) <==> Lists(hosts, id)
    ensures forall id :: id in Configured(hosts) ==> ListsAt(hosts, id, Configured(hosts)[id].ip)
  {
    forall id
      ensures id in Configured(hosts) <==> Lists(hosts, id)
      ensures id in Configured(hosts) ==> ListsAt(hosts, id, Configured(hosts)[id].ip)
    {
      ConfiguredEntry(hosts, id);
    }
  }

  lemma ReconciledKeepsFlights(t: Tables, hosts: seq<Host>)
    requires TablesInv(t)
    ensures var r := Reconciled(t, hosts); OneToOne(r) && Traced(r) && |r.inFlight| == |t.inFlight|
  {
    var r := Reconciled(t, hosts);
    assert r.inFlight.Keys == t.inFlight.Keys;
    assert |r.inFlight| == |r.inFlight.Keys| == |t.inFlight.Keys| == |t.inFlight|;
  }

  lemma ReconciledKeepsTimes(t: Tables, hosts: seq<Host>)
    requires TablesInv(t)
    ensures var r := Reconciled(t, hosts); ValidWhileTimed(r) && Configures(r)
  {
    ConfiguredLists(hosts);
    var r := Reconciled(t, hosts);
    var configured := Configured(hosts);
    forall id | id in r.inFlight
      ensures r.inFlight[id].valid <==> id in r.lastPing
      ensures !r.inFlight[id].valid ==> r.inFlight[id].cancelled
      ensures r.inFlight[id].valid ==> ListsAt(hosts, id, r.inFlight[id].ip)
    {
      if id !in Stale(t.inFlight, configured) {
        assert id in configured && configured[id].ip == t.inFlight[id].ip;
      }
    }
  }

  lemma ReconciledKeepsInv(t: Tables, hosts: seq<Host>)
    requires TablesInv(t)
    ensures TablesInv(Reconciled(t, hosts))
  {
    ReconciledKeepsFlights(t, hosts);
    ReconciledKeepsTimes(t, hosts);
  }

  lemma MultisetPlus(s: set<string>, x: string)
    requires x !in s
    ensures multiset(s + {x}) == multiset(s) + multiset{x}
  {
  }

  lemma VisitedSize(t: Tables, h: Host, now: int)
    ensures |Visited(t, h, now).inFlight| == |t.inFlight| + if Launches(t, h, now) then 1 else 0
  {
    if Launches(t, h, now) {
      var v := Visited(t, h, now);
      assert v.inFlight.Keys == t.inFlight.Keys + {h.id};
      assert |v.inFlight| == |v.inFlight.Keys| == |t.inFlight.Keys| + 1;
    }
  }

  lemma LaunchKeepsOneToOne(t: Tables, h: Host, now: int)
    requires OneToOne(t) && Launches(t, h, now)
    ensures OneToOne(Visited(t, h, now))
  {
    var v := Visited(t, h, now);
    var workers, results := multiset(WorkerIds(t.workers)), multiset(ResultIds(t.results));
    assert WorkerIds(v.workers) == WorkerIds(t.workers) + [h.id];
    assert multiset(WorkerIds(v.workers)) == workers + multiset{h.id};
    assert v.inFlight.Keys == t.inFlight.Keys + {h.id};
    MultisetPlus(t.inFlight.Keys, h.id);
    assert v.results == t.results;
    assert (workers + multiset{h.id}) + results == (workers + results) + multiset{h.id};
  }

  lemma LaunchKeepsTraces(t: Tables, h: Host, now: int)
    requires TablesInv(t) && Launches(t, h, now)
    ensures Traced(Visited(t, h, now))
  {
  }

  lemma LaunchKeepsTimes(t: Tables, hosts: seq<Host>, k: nat, now: int)
    requires TablesInv(t) && t.hosts == Some(hosts) && k < |hosts|
    requires Launches(t, hosts[k], now)
    ensures var v := Visited(t, hosts[k], now); ValidWhileTimed(v) && Configures(v)
  {
    assert ListsAt(hosts, hosts[k].id, hosts[k].ip);
    assert Lists(hosts, hosts[k].id);
  }

  lemma VisitedKeepsInv(t: Tables, hosts: seq<Host>, k: nat, now: int)
    requires TablesInv(t) && t.hosts == Some(hosts) && k < |hosts|
    requires |t.inFlight| != MAX_CONCURRENT_PINGS
    ensures TablesInv(Visited(t, hosts[k], now))
    ensures Visited(t, hosts[k], now).hosts == Some(hosts)
  {
    if Launches(t, hosts[k], now) {
      VisitedSize(t, hosts[k], now);
      LaunchKeepsOneToOne(t, hosts[k], now);
      LaunchKeepsTraces(t, hosts[k], now);
      LaunchKeepsTimes(t, hosts, k, now);
    }
  }

  lemma {:induction false} ScheduledKeepsInv(t: Tables, hosts: seq<Host>, k: nat, now: int, live: nat)
    requires TablesInv(t) && t.hosts == Some(hosts) && k <= |hosts|
    ensures TablesInv(Scheduled(t, hosts[k..], now, live))
    decreases |hosts| - k
  {
    if k < |hosts| && live != 0 && |t.inFlight| != MAX_CONCURRENT_PINGS {
      VisitedKeepsInv(t, hosts, k, now);
      ScheduledKeepsInv(Visited(t, hosts[k], now), hosts, k + 1, now, live - 1);
      assert hosts[k..][1..] == hosts[k + 1..];
    }
  }

  lemma CheckedKeepsInv(t: Tables, load: Option<seq<Host>>, now: int, live: nat)
    requires TablesInv(t)
    ensures TablesInv(Checked(t, load, now, live))
  {
    if load.Some? {
      ReconciledKeepsInv(t, load.value);
      ScheduledKeepsInv(Reconciled(t, load.value), load.value, 0, now, live);
      assert load.value[0..] == load.value;
    }
  }

  lemma SendKeepsOneToOne(t: Tables, w: nat)
    requires OneToOne(t) && w < |t.workers| && t.workers[w].verdict.Some?
    ensures OneToOne(Sent(t, w))
  {
    var n := Sent(t, w);
    var left, right := WorkerIds(t.workers[..w]), WorkerIds(t.workers[w + 1..]);
    var id := [t.workers[w].id];
    assert WorkerIds(t.workers) == left + id + right;
    assert WorkerIds(n.workers) == left + right;
    assert ResultIds(n.results) == ResultIds(t.results) + id;
  }

  lemma SendKeepsTraces(t: Tables, w: nat)
    requires Traced(t) && w < |t.workers| && t.workers[w].verdict.Some?
    ensures Traced(Sent(t, w))
  {
    var n := Sent(t, w);
    assert forall i :: 0 <= i < |n.workers| ==> n.workers[i] == t.workers[if i < w then i else i + 1];
  }

  lemma SendKeepsInv(t: Tables, w: nat)
    requires TablesInv(t) && w < |t.workers| && t.workers[w].verdict.Some?
    ensures TablesInv(Sent(t, w))
  {
    SendKeepsOneToOne(t, w);
    SendKeepsTraces(t, w);
  }

  lemma MultisetMinus(s: set<string>, x: string)
    requires x in s
    ensures multiset(s) == multiset{x} + multiset(s - {x})
  {
  }

  lemma MultisetCancel(a: multiset<string>, b: multiset<string>, c: multiset<string>, x: string)
    requires a + (multiset{x} + b) == multiset{x} + c
    ensures a + b == c
  {
    forall y ensures (a + b)[y] == c[y] {
      assert (a + (multiset{x} + b))[y] == (multiset{x} + c)[y];
    }
  }

  lemma ReceivedKeepsOneToOne(t: Tables, stamp: string)
    requires OneToOne(t) && t.results != []
    ensures t.results[0].id in t.inFlight
    ensures var n := Received(t, stamp); OneToOne(n) && |n.inFlight| == |t.inFlight| - 1
  {
    OneToOneHasFlights(t);
    ReceivedTakesOneFlight(t, stamp);
    var n := Received(t, stamp);
    assert ResultIds(t.results) == [t.results[0].id] + ResultIds(n.results);
    TakesFirst(WorkerIds(t.workers), t.results[0].id, ResultIds(n.results), t.inFlight.Keys);
  }

  lemma ReceivedTakesOneFlight(t: Tables, stamp: string)
    requires t.results != [] && t.results[0].id in t.inFlight
    ensures var n := Received(t, stamp);
      && n.workers == t.workers && n.results == t.results[1..]
      && n.inFlight.Keys == t.inFlight.Keys - {t.results[0].id}
      && |n.inFlight| == |t.inFlight| - 1
  {
    var n := Received(t, stamp);
    assert n.inFlight.Keys == t.inFlight.Keys - {t.results[0].id};
    assert |n.inFlight| == |n.inFlight.Keys|;
  }

  lemma TakesFirst(workers: seq<string>, x: string, rest: seq<string>, keys: set<string>)
    requires multiset(workers) + multiset([x] + rest) == multiset(keys) && x in keys
    ensures multiset(workers) + multiset(rest) == multiset(keys - {x})
  {
    MultisetMinus(keys, x);
    assert multiset([x] + rest) == multiset{x} + multiset(rest);
    MultisetCancel(multiset(workers), multiset(rest), multiset(keys - {x}), x);
  }

  lemma OneToOneHasFlights(t: Tables)
    requires OneToOne(t)
    ensures forall i :: 0 <= i < |t.workers| ==> t.workers[i].id in t.inFlight
    ensures forall i :: 0 <= i < |t.results| ==> t.results[i].id in t.inFlight
  {
    forall i | 0 <= i < |t.workers| ensures t.workers[i].id in t.inFlight {
      assert WorkerIds(t.workers)[i] in multiset(t.inFlight.Keys);
    }
    forall i | 0 <= i < |t.results| ensures t.results[i].id in t.inFlight {
      assert ResultIds(t.results)[i] in multiset(t.inFlight.Keys);
    }
  }

  lemma ReceivedKeepsInv(t: Tables, stamp: string)
    requires TablesInv(t) && t.results != []
    ensures TablesInv(Received(t, stamp))
  {
    var r, n := t.results[0], Received(t, stamp);
    ReceivedKeepsOneToOne(t, stamp);
    OneToOneHasFlights(n);
    assert Traced(n);
    assert ValidWhileTimed(n);
    if t.inFlight[r.id].valid {
      assert ListsAt(t.hosts.value, r.id, t.inFlight[r.id].ip);
    }
  }

  /** Every step of the program keeps the invariant. */
  lemma StepKeepsInv(m: Manager, step: Step)
    requires Inv(m) && Enabled(m, step)
    ensures Inv(Apply(m, step))
  {
    var t, n := m.tables, Apply(m, step).tables;
    match step
    case Tick(load, now, live) => CheckedKeepsInv(t, load, now, live);
    case ProbeReturns(w, _) => assert WorkerIds(n.workers) == WorkerIds(t.workers);
    case Send(w) => SendKeepsInv(t, w);
    case Receive(stamp) => ReceivedKeepsInv(t, stamp);
    case Cancel =>
    case BeginShutdown =>
      assert n.inFlight.Keys == t.inFlight.Keys;
      assert |n.inFlight| == |n.inFlight.Keys| == |t.inFlight.Keys|;
    case FinishShutdown =>
  }

  /** Safety over whole runs, from the initial state and through any interleaving. */
  lemma {:induction false} RunKeepsInv(m: Manager, steps: seq<Step>)
    requires Init(m) || Inv(m)
    requires Runs(m, steps)
    ensures Inv(After(m, steps))
    decreases |steps|
  {
    if steps != [] {
      StepKeepsInv(m, steps[0]);
      RunKeepsInv(Apply(m, steps[0]), steps[1..]);
    }
  }
}
