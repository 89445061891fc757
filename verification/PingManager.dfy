/** The ping manager of backend/internal/device/monitor.go: its tables, one
    scheduling pass as a function on them, and the imperative manager that is
    proved to compute exactly that function. */
module PingTables {
  import opened Types
  import opened Hosts

  const MAX_CONCURRENT_PINGS := 4
  const DEFAULT_INTERVAL := 60
  const SECOND := 1_000_000_000

  datatype HostState = HostState(online: bool, lastPinged: string)

  /** What a `pingFlight` holds; `cancelled` is the state of its probe context. */
  datatype Flight = Flight(ip: string, valid: bool, cancelled: bool)

  /** A probe goroutine: still probing, or holding the verdict it is about to send. */
  datatype Worker = Worker(id: string, ip: string, verdict: Option<bool>)

  /** A value in the results channel. `ip` is the address that was probed. */
  datatype PingResult = PingResult(id: string, ip: string, online: bool)

  /** `hosts` is the list of the last successful load. */
  datatype Tables = Tables(
    hosts: Option<seq<Host>>,
    lastPing: map<string, int>,
    inFlight: map<string, Flight>,
    workers: seq<Worker>,
    results: seq<PingResult>,
    status: map<string, HostState>)

  /** A 64-bit signed product, as `time.Duration` arithmetic computes it. */
  function Wrap64(x: int): int {
    var r := x % 0x1_0000_0000_0000_0000;
    if r < 0x8000_0000_0000_0000 then r else r - 0x1_0000_0000_0000_0000
  }

  /** The probe interval of a host in nanoseconds. */
  function Interval(h: Host): int {
    Wrap64((if h.pingInterval <= 0 then DEFAULT_INTERVAL else h.pingInterval) * SECOND)
  }

  predicate Due(h: Host, lastPing: map<string, int>, now: int) {
    h.id in lastPing ==> now - lastPing[h.id] >= Interval(h)
  }

  /** The host each id is configured as: of two entries with one id the later wins. */
  function Configured(hosts: seq<Host>): map<string, Host> {
    if hosts == [] then map[]
    else
      var last := hosts[|hosts| - 1];
      Configured(hosts[..|hosts| - 1])[last.id := last]
  }

  /** In-flight ids whose host was removed or has another address now. */
  function Stale(flights: map<string, Flight>, configured: map<string, Host>): set<string> {
    set id | id in flights && (id !in configured || configured[id].ip != flights[id].ip)
  }

  function Invalidate(f: Flight): Flight {
    Flight(f.ip, false, true)
  }

  function Invalidated(flights: map<string, Flight>, stale: set<string>): map<string, Flight> {
    map id | id in flights :: if id in stale then Invalidate(flights[id]) else flights[id]
  }

  function Restrict<V>(m: map<string, V>, keys: set<string>): map<string, V> {
    map id | id in m && id in keys :: m[id]
  }

  /** The tables after a successful load, before any launch. */
  function Reconciled(t: Tables, hosts: seq<Host>): Tables {
    var configured := Configured(hosts);
    var stale := Stale(t.inFlight, configured);
    t.(hosts := Some(hosts),
       lastPing := Restrict(t.lastPing, configured.Keys) - stale,
       inFlight := Invalidated(t.inFlight, stale),
       status := Restrict(t.status, configured.Keys))
  }

  predicate Launches(t: Tables, h: Host, now: int) {
    h.id !in t.inFlight && Due(h, t.lastPing, now)
  }

  /** The pass's decision about one host. */
  function Visited(t: Tables, h: Host, now: int): Tables {
    if Launches(t, h, now) then
      t.(lastPing := t.lastPing[h.id := now],
         inFlight := t.inFlight[h.id := Flight(h.ip, true, false)],
         workers := t.workers + [Worker(h.id, h.ip, None)])
    else t
  }

  /** The launch loop over `hosts`. The context is seen live at the first `live`
      checks and cancelled from then on. */
  function Scheduled(t: Tables, hosts: seq<Host>, now: int, live: nat): Tables
    decreases |hosts|
  {
    if hosts == [] || live == 0 || |t.inFlight| == MAX_CONCURRENT_PINGS then t
    else Scheduled(Visited(t, hosts[0], now), hosts[1..], now, live - 1)
  }

  /** From `t` on, the rest of the loop leads to `goal`. */
  ghost predicate ScheduledFrom(t: Tables, hosts: seq<Host>, i: nat, now: int, live: nat, goal: Tables)
    decreases |hosts| - i
  {
    i <= |hosts| && i <= live &&
    if i == |hosts| || i == live || |t.inFlight| == MAX_CONCURRENT_PINGS then t == goal
    else ScheduledFrom(Visited(t, hosts[i], now), hosts, i + 1, now, live, goal)
  }

  lemma {:induction false} ScheduledFromSuffix(t: Tables, hosts: seq<Host>, i: nat, now: int, live: nat, goal: Tables)
    requires i <= |hosts| && i <= live
    ensures ScheduledFrom(t, hosts, i, now, live, goal) <==> Scheduled(t, hosts[i..], now, live - i) == goal
    decreases |hosts| - i
  {
    if i < |hosts| && i < live && |t.inFlight| != MAX_CONCURRENT_PINGS {
      ScheduledFromSuffix(Visited(t, hosts[i], now), hosts, i + 1, now, live, goal);
      assert hosts[i..][1..] == hosts[i + 1..];
    }
  }

  lemma ScheduledFromStart(t: Tables, hosts: seq<Host>, now: int, live: nat)
    ensures ScheduledFrom(t, hosts, 0, now, live, Scheduled(t, hosts, now, live))
  {
    ScheduledFromSuffix(t, hosts, 0, now, live, Scheduled(t, hosts, now, live));
    assert hosts[0..] == hosts;
  }

  /** One call of `checkHosts`; `load` is None when loading the hosts failed. */
  function Checked(t: Tables, load: Option<seq<Host>>, now: int, live: nat): Tables {
    match load
    case None => t
    case Some(hosts) => Scheduled(Reconciled(t, hosts), hosts, now, live)
  }

  /** The status entry a verdict leaves behind. An offline verdict keeps the time
      of the last successful ping; `stamp` is the current time of day. */
  function Judged(status: map<string, HostState>, id: string, online: bool, stamp: string): HostState {
    var before := if id in status then status[id] else HostState(false, "");
    HostState(online, if online then stamp else before.lastPinged)
  }

  /** The manager receives the oldest queued result. */
  function Received(t: Tables, stamp: string): Tables
    requires t.results != []
  {
    var r, rest := t.results[0], t.results[1..];
    if r.id !in t.inFlight then t.(results := rest)
    else
      var landed := t.(results := rest, inFlight := t.inFlight - {r.id});
      if !t.inFlight[r.id].valid then landed
      else landed.(status := t.status[r.id := Judged(t.status, r.id, r.online, stamp)])
  }

  function AllCancelled(flights: map<string, Flight>): map<string, Flight> {
    map id | id in flights :: flights[id].(cancelled := true)
  }
}

module PingManagerCode {
  import opened Types
  import opened Hosts
  import opened PingTables

  class PingFlight {
    const ip: string
    var valid: bool
    var cancelled: bool

    constructor (ip: string)
      ensures this.ip == ip && valid && !cancelled
    {
      this.ip := ip;
      valid, cancelled := true, false;
    }

    function View(): Flight
      reads this
    {
      Flight(ip, valid, cancelled)
    }
  }

  /** The local variables of `runPingManager`, the goroutines it has started and
      the monitor's `status` map. */
  class PingManager {
    ghost var hosts: Option<seq<Host>>
    var lastPingTimes: map<string, int>
    var inFlight: map<string, PingFlight>
    var workers: seq<Worker>
    var results: seq<PingResult>
    var status: map<string, HostState>

    /** Every id has a flight object of its own. */
    ghost predicate Valid()
      reads this`inFlight
    {
      forall a, b :: a in inFlight && b in inFlight && a != b ==> inFlight[a] != inFlight[b]
    }

    ghost function Flights(): map<string, Flight>
      reads this`inFlight, inFlight.Values
    {
      map id | id in inFlight :: inFlight[id].View()
    }

    ghost function View(): Tables
      reads this, inFlight.Values
    {
      Tables(hosts, lastPingTimes, Flights(), workers, results, status)
    }

    lemma FlightsSize()
      ensures |Flights()| == |inFlight|
    {
      assert Flights().Keys == inFlight.Keys;
    }

    constructor (status: map<string, HostState>)
      ensures Valid() && inFlight == map[]
      ensures View() == Tables(None, map[], map[], [], [], status)
    {
      hosts := None;
      lastPingTimes, inFlight := map[], map[];
      workers, results := [], [];
      this.status := status;
    }

    method State(id: string) returns (s: HostState)
      ensures s == if id in status then status[id] else HostState(false, "")
    {
      if id in status { s := status[id]; } else { s := HostState(false, ""); }
    }

    static method Index(hosts: seq<Host>) returns (configured: map<string, Host>)
      ensures configured == Configured(hosts)
    {
      configured := map[];
      for i := 0 to |hosts|
        invariant configured == Configured(hosts[..i])
      {
        assert hosts[..i + 1][..i] == hosts[..i];
        configured := configured[hosts[i].id := hosts[i]];
      }
      assert hosts[..|hosts|] == hosts;
    }

    method ForgetRemovedHosts(configured: map<string, Host>)
      modifies this`lastPingTimes
      ensures lastPingTimes == Restrict(old(lastPingTimes), configured.Keys)
      ensures Flights() == old(Flights())
    {
      var todo := lastPingTimes.Keys;
      while todo != {}
        invariant todo <= old(lastPingTimes).Keys
        invariant forall id :: id in lastPingTimes <==> id in old(lastPingTimes) && (id in todo || id in configured)
        invariant forall id :: id in lastPingTimes ==> lastPingTimes[id] == old(lastPingTimes)[id]
        decreases todo
      {
        var id :| id in todo;
        if id !in configured {
          lastPingTimes := lastPingTimes - {id};
        }
        todo := todo - {id};
      }
    }

    method CheckFlight(id: string, configured: map<string, Host>)
      requires Valid() && id in inFlight
      modifies this`lastPingTimes, {inFlight[id]}
      ensures var stale := id !in configured || configured[id].ip != inFlight[id].ip;
        && inFlight[id].View() == (if stale then Invalidate(old(inFlight[id].View())) else old(inFlight[id].View()))
        && lastPingTimes == (if stale then old(lastPingTimes) - {id} else old(lastPingTimes))
    {
      var flight := inFlight[id];
      if id !in configured || configured[id].ip != flight.ip {
        flight.valid := false;
        flight.cancelled := true;
        lastPingTimes := lastPingTimes - {id};
      }
    }

    method InvalidateStaleFlights(configured: map<string, Host>)
      requires Valid()
      modifies this`lastPingTimes, inFlight.Values
      ensures Flights() == Invalidated(old(Flights()), Stale(old(Flights()), configured))
      ensures lastPingTimes == old(lastPingTimes) - Stale(old(Flights()), configured)
    {
      ghost var before := Flights();
      ghost var stale := Stale(before, configured);
      ghost var done := {};
      var todo := inFlight.Keys;
      while todo != {}
        invariant todo <= inFlight.Keys && done == stale - todo
        invariant forall id :: id in inFlight ==>
          inFlight[id].View() == if id in done then Invalidate(before[id]) else before[id]
        invariant lastPingTimes == old(lastPingTimes) - done
        decreases todo
      {
        var id :| id in todo;
        assert inFlight[id].View() == before[id];
        CheckFlight(id, configured);
        if id in stale { done := done + {id}; }
        todo := todo - {id};
      }
      assert done == stale;
      forall id | id in inFlight ensures Flights()[id] == Invalidated(before, stale)[id] {
        assert inFlight[id].View() == if id in stale then Invalidate(before[id]) else before[id];
      }
      assert Flights() == Invalidated(before, stale);
    }

    method ForgetRemovedStatus(configured: map<string, Host>)
      modifies this`status
      ensures status == Restrict(old(status), configured.Keys)
      ensures Flights() == old(Flights())
    {
      var todo := status.Keys;
      while todo != {}
        invariant todo <= old(status).Keys
        invariant forall id :: id in status <==> id in old(status) && (id in todo || id in configured)
        invariant forall id :: id in status ==> status[id] == old(status)[id]
        decreases todo
      {
        var id :| id in todo;
        if id !in configured {
          status := status - {id};
        }
        todo := todo - {id};
      }
    }

    method Visit(host: Host, now: int)
      requires Valid()
      modifies this`lastPingTimes, this`inFlight, this`workers
      ensures Valid() && fresh(inFlight.Values - old(inFlight.Values))
      ensures View() == Visited(old(View()), host, now)
    {
      if host.id in inFlight { return; }
      var interval := host.pingInterval;
      if interval <= 0 { interval := DEFAULT_INTERVAL; }
      if host.id in lastPingTimes && now - lastPingTimes[host.id] < Wrap64(interval * SECOND) { return; }
      lastPingTimes := lastPingTimes[host.id := now];
      Launch(host);
    }

    method Launch(host: Host)
      requires Valid() && host.id !in inFlight
      modifies this`inFlight, this`workers
      ensures Valid() && fresh(inFlight.Values - old(inFlight.Values))
      ensures Flights() == old(Flights())[host.id := Flight(host.ip, true, false)]
      ensures workers == old(workers) + [Worker(host.id, host.ip, None)]
    {
      var flight := new PingFlight(host.ip);
      inFlight := inFlight[host.id := flight];
      workers := workers + [Worker(host.id, host.ip, None)];
    }

    /** The clean-up loops over launch times and flights. */
    method ForgetHosts(configured: map<string, Host>)
      requires Valid()
      modifies this`lastPingTimes, inFlight.Values
      ensures lastPingTimes == Restrict(old(lastPingTimes), configured.Keys) - Stale(old(Flights()), configured)
      ensures Flights() == Invalidated(old(Flights()), Stale(old(Flights()), configured))
    {
      ForgetRemovedHosts(configured);
      InvalidateStaleFlights(configured);
    }

    /** The three clean-up loops of `checkHosts`. */
    method Reconcile(list: seq<Host>)
      requires Valid()
      modifies this, inFlight.Values
      ensures Valid() && inFlight == old(inFlight)
      ensures View() == Reconciled(old(View()), list)
    {
      ghost var t := View();
      hosts := Some(list);
      var configured := Index(list);
      assert Flights() == t.inFlight;
      ForgetHosts(configured);
      assert Flights() == Invalidated(t.inFlight, Stale(t.inFlight, configured));
      ForgetRemovedStatus(configured);
      assert View().inFlight == Reconciled(t, list).inFlight;
      assert View().lastPing == Reconciled(t, list).lastPing;
      assert View().status == Reconciled(t, list).status;
    }

    method Schedule(list: seq<Host>, now: int, live: nat)
      requires Valid()
      modifies this`lastPingTimes, this`inFlight, this`workers
      ensures Valid() && fresh(inFlight.Values - old(inFlight.Values))
      ensures View() == Scheduled(old(View()), list, now, live)
    {
      ghost var t, goal := View(), Scheduled(View(), list, now, live);
      ScheduledFromStart(t, list, now, live);
      for i := 0 to |list|
        invariant i <= live
        invariant Valid() && fresh(inFlight.Values - old(inFlight.Values))
        invariant t == View() && ScheduledFrom(t, list, i, now, live, goal)
      {
        FlightsSize();
        if i == live || |inFlight| == MAX_CONCURRENT_PINGS { break; }
        t := Visited(t, list[i], now);
        Visit(list[i], now);
      }
    }

    /** `checkHosts`. `live` is the number of times the context is found live. */
    method CheckHosts(load: Option<seq<Host>>, now: int, live: nat)
      requires Valid()
      modifies this, inFlight.Values
      ensures Valid() && fresh(inFlight.Values - old(inFlight.Values))
      ensures View() == Checked(old(View()), load, now, live)
    {
      if load.Some? {
        Reconcile(load.value);
        Schedule(load.value, now, live);
      }
    }

    /** Takes the flight of `id` out of the table and releases its context. */
    method Land(id: string) returns (valid: bool)
      requires Valid() && id in inFlight
      modifies this`inFlight, {inFlight[id]}
      ensures Valid() && inFlight.Values <= old(inFlight.Values)
      ensures Flights() == old(Flights()) - {id}
      ensures valid == old(Flights())[id].valid
    {
      var flight := inFlight[id];
      inFlight := inFlight - {id};
      flight.cancelled := true;
      valid := flight.valid;
    }

    /** The `result := <-results` case of the manager's loop. */
    method Receive(stamp: string)
      requires Valid() && results != []
      modifies this, inFlight.Values
      ensures Valid() && inFlight.Values <= old(inFlight.Values)
      ensures View() == Received(old(View()), stamp)
    {
      var result := results[0];
      results := results[1..];
      if result.id !in inFlight { return; }
      var valid := Land(result.id);
      if !valid { return; }
      Judge(result.id, result.online, stamp);
    }

    method Judge(id: string, online: bool, stamp: string)
      modifies this`status
      ensures status == old(status)[id := Judged(old(status), id, online, stamp)]
    {
      var state := State(id);
      state := state.(online := online);
      if online {
        state := state.(lastPinged := stamp);
      }
      status := status[id := state];
    }

    /** The loop over the flights in the `ctx.Done()` case. */
    method CancelFlights()
      requires Valid()
      modifies inFlight.Values
      ensures View() == old(View()).(inFlight := AllCancelled(old(View()).inFlight))
    {
      ghost var before := Flights();
      var todo := inFlight.Keys;
      while todo != {}
        invariant todo <= inFlight.Keys
        invariant forall id :: id in inFlight ==>
          inFlight[id].View() == if id in todo then before[id] else before[id].(cancelled := true)
        decreases todo
      {
        var id :| id in todo;
        inFlight[id].cancelled := true;
        todo := todo - {id};
      }
      assert Flights() == AllCancelled(before);
    }
  }
}
