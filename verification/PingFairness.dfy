/** How the scan in list order, capped at four probes, shares out the passes. */
module PingFairness {
  import opened Types
  import opened Hosts
  import opened PingTables
  import opened PingProtocol
  import opened PingProperties

  /** A pass of a manager that is not cancelled. */
  function Pass(t: Tables, hosts: seq<Host>, now: int): Tables {
    Checked(t, Some(hosts), now, |hosts|)
  }

  lemma {:induction false} ScheduledIsWorkConserving(t: Tables, hosts: seq<Host>, now: int, live: nat, h: Host)
    requires h in hosts && live >= |hosts|
    ensures var s := Scheduled(t, hosts, now, live);
      |s.inFlight| == MAX_CONCURRENT_PINGS || h.id in s.inFlight || !Due(h, s.lastPing, now)
    decreases |hosts|
  {
    if |t.inFlight| != MAX_CONCURRENT_PINGS {
      var v, rest := Visited(t, hosts[0], now), hosts[1..];
      if h in rest {
        ScheduledIsWorkConserving(v, rest, now, live - 1, h);
      } else {
        assert h == hosts[0];
        ScheduledTimes(v, rest, now, live - 1, h.id);
        if h.id !in v.inFlight {
          ScheduledPutsInFlightWhatItTimes(v, rest, now, live - 1, h.id);
        }
      }
    }
  }

  lemma {:induction false} ScheduledPutsInFlightWhatItTimes(t: Tables, hosts: seq<Host>, now: int, live: nat, id: string)
    requires id in t.lastPing
    ensures var s := Scheduled(t, hosts, now, live);
      id in s.lastPing && (id in s.inFlight || s.lastPing[id] == t.lastPing[id])
    decreases |hosts|
  {
    if !(hosts == [] || live == 0 || |t.inFlight| == MAX_CONCURRENT_PINGS) {
      var v := Visited(t, hosts[0], now);
      ScheduledTimes(v, hosts[1..], now, live - 1, id);
      ScheduledPutsInFlightWhatItTimes(v, hosts[1..], now, live - 1, id);
    }
  }

  /** No uncancelled pass leaves work undone: afterwards four probes are in flight,
      or every host of the list is in flight or not due. */
  lemma PassesAreWorkConserving(m: Manager, steps: seq<Step>, hosts: seq<Host>, now: int, live: nat)
    requires Init(m) && Runs(m, steps)
    requires Enabled(After(m, steps), Tick(Some(hosts), now, live)) && live >= |hosts|
    ensures var t := Apply(After(m, steps), Tick(Some(hosts), now, live)).tables;
      |t.inFlight| == MAX_CONCURRENT_PINGS
      || forall h :: h in hosts ==> h.id in t.inFlight || !Due(h, t.lastPing, now)
  {
    forall h | h in hosts
      ensures var t := Apply(After(m, steps), Tick(Some(hosts), now, live)).tables;
        |t.inFlight| == MAX_CONCURRENT_PINGS || h.id in t.inFlight || !Due(h, t.lastPing, now)
    {
      ScheduledIsWorkConserving(Reconciled(After(m, steps).tables, hosts), hosts, now, live, h);
    }
  }

  // ------------------------------------------------- which hosts a pass launches

  /** How many hosts of a list the loop could launch from the tables `t`. */
  function Ready(t: Tables, hosts: seq<Host>, now: int): nat {
    if hosts == [] then 0
    else (if Launches(t, hosts[0], now) then 1 else 0) + Ready(t, hosts[1..], now)
  }

  lemma {:induction false} OthersStayReady(t: Tables, h: Host, hosts: seq<Host>, now: int)
    requires forall i :: 0 <= i < |hosts| ==> hosts[i].id != h.id
    ensures Ready(Visited(t, h, now), hosts, now) == Ready(t, hosts, now)
  {
    if hosts != [] { OthersStayReady(t, h, hosts[1..], now); }
  }

  /** The launch loop launches a host exactly if the context is live when the loop gets
      there, the host is neither in flight nor early, and the flights and the hosts ahead
      of it that are ready to go are fewer than four. */
  lemma {:induction false} LaunchesExactly(t: Tables, hosts: seq<Host>, now: int, live: nat, p: nat)
    requires UniqueIds(hosts) && p < |hosts| && |t.inFlight| <= MAX_CONCURRENT_PINGS
    ensures hosts[p].id !in t.inFlight && hosts[p].id in Scheduled(t, hosts, now, live).inFlight <==>
      && p < live && Launches(t, hosts[p], now)
      && |t.inFlight| + Ready(t, hosts[..p], now) < MAX_CONCURRENT_PINGS
    decreases |hosts|
  {
    if live > 0 && |t.inFlight| != MAX_CONCURRENT_PINGS {
      if p == 0 {
        LaunchesFirst(t, hosts, now, live);
      } else {
        var v, rest := Visited(t, hosts[0], now), hosts[1..];
        assert rest[p - 1] == hosts[p] && forall i :: 0 <= i < |rest| ==> rest[i] == hosts[i + 1];
        LaunchesExactly(v, rest, now, live - 1, p - 1);
        ReadyBehindFirst(t, hosts, now, p);
      }
    }
  }

  lemma LaunchesFirst(t: Tables, hosts: seq<Host>, now: int, live: nat)
    requires UniqueIds(hosts) && hosts != [] && live > 0 && |t.inFlight| < MAX_CONCURRENT_PINGS
    ensures hosts[0].id !in t.inFlight && hosts[0].id in Scheduled(t, hosts, now, live).inFlight
      <==> Launches(t, hosts[0], now)
  {
    var v, rest := Visited(t, hosts[0], now), hosts[1..];
    assert forall i :: 0 <= i < |rest| ==> rest[i] == hosts[i + 1];
    ScheduledTimes(v, rest, now, live - 1, hosts[0].id);
  }

  lemma ReadyBehindFirst(t: Tables, hosts: seq<Host>, now: int, p: nat)
    requires UniqueIds(hosts) && 0 < p < |hosts|
    ensures var v, rest := Visited(t, hosts[0], now), hosts[1..];
      && |v.inFlight| + Ready(v, rest[..p - 1], now) == |t.inFlight| + Ready(t, hosts[..p], now)
      && (Launches(v, hosts[p], now) <==> Launches(t, hosts[p], now))
      && (hosts[p].id in v.inFlight <==> hosts[p].id in t.inFlight)
  {
    VisitedSize(t, hosts[0], now);
    assert hosts[..p][1..] == hosts[1..][..p - 1];
    OthersStayReady(t, hosts[0], hosts[1..][..p - 1], now);
  }

  /** In every run, that is exactly which hosts a pass launches. */
  lemma PassLaunchesExactly(m: Manager, steps: seq<Step>, hosts: seq<Host>, now: int, live: nat, p: nat)
    requires Init(m) && Runs(m, steps) && Enabled(After(m, steps), Tick(Some(hosts), now, live))
    requires UniqueIds(hosts) && p < |hosts|
    ensures var r := Reconciled(After(m, steps).tables, hosts);
      Launched(After(m, steps), Tick(Some(hosts), now, live), hosts[p].id) <==>
      && p < live && Launches(r, hosts[p], now)
      && |r.inFlight| + Ready(r, hosts[..p], now) < MAX_CONCURRENT_PINGS
  {
    RunKeepsInv(m, steps);
    var t, r := After(m, steps).tables, Reconciled(After(m, steps).tables, hosts);
    assert r.inFlight.Keys == t.inFlight.Keys;
    ReconciledKeepsFlights(t, hosts);
    LaunchesExactly(r, hosts, now, live, p);
  }

  /** How many hosts of a list are due. */
  function DueCount(hosts: seq<Host>, lastPing: map<string, int>, now: int): nat {
    if hosts == [] then 0
    else (if Due(hosts[0], lastPing, now) then 1 else 0) + DueCount(hosts[1..], lastPing, now)
  }

  lemma {:induction false} ReadyWhenDue(t: Tables, hosts: seq<Host>, lastPing: map<string, int>, now: int)
    requires t.inFlight == map[]
    requires forall h :: h in hosts ==> Due(h, t.lastPing, now) == Due(h, lastPing, now)
    ensures Ready(t, hosts, now) == DueCount(hosts, lastPing, now)
  {
    if hosts != [] { ReadyWhenDue(t, hosts[1..], lastPing, now); }
  }

  /** A pass that finds no probe in flight launches a host exactly if the host is due and
      fewer than four hosts ahead of it are. */
  lemma IdlePassLaunchesExactly(t: Tables, hosts: seq<Host>, now: int, p: nat)
    requires UniqueIds(hosts) && p < |hosts| && t.inFlight == map[]
    ensures LaunchedBy(t, hosts, now, hosts[p].id) <==>
      Due(hosts[p], t.lastPing, now) && DueCount(hosts[..p], t.lastPing, now) < MAX_CONCURRENT_PINGS
  {
    var r := Reconciled(t, hosts);
    ReconciledIdle(t, hosts);
    assert forall h :: h in hosts ==> Due(h, r.lastPing, now) == Due(h, t.lastPing, now);
    assert hosts[p] in hosts && forall h :: h in hosts[..p] ==> h in hosts;
    ReadyWhenDue(r, hosts[..p], t.lastPing, now);
    LaunchesExactly(r, hosts, now, |hosts|, p);
  }

  // --------------------------------------------------- how long a host can wait

  function Ids(hosts: seq<Host>): (ids: set<string>)
    ensures |ids| <= |hosts|
    ensures forall h :: h in hosts ==> h.id in ids
  {
    if hosts == [] then {}
    else
      var before := Ids(hosts[..|hosts| - 1]);
      assert hosts == hosts[..|hosts| - 1] + [hosts[|hosts| - 1]];
      before + {hosts[|hosts| - 1].id}
  }

  lemma DueAhead(t: Tables, hosts: seq<Host>, now: int, p: nat, id: string)
    requires 0 < p < |hosts| && id !in t.inFlight
    requires var v := Visited(t, hosts[0], now);
      id in v.inFlight || DueAmong(hosts[1..][..p - 1], id, v.lastPing, now)
    ensures DueAmong(hosts[..p], id, t.lastPing, now)
  {
    var v := Visited(t, hosts[0], now);
    if id in v.inFlight {
      DueAmongFirst(hosts, p, t.lastPing, now);
    } else {
      SameTimeSameDue(hosts[1..][..p - 1], id, v.lastPing, t.lastPing, now);
      assert hosts[1..][..p - 1] == hosts[1..p];
      DueAmongMore(hosts, 1, p, id, t.lastPing, now);
    }
  }

  /** A due host that the loop passes over lost its place to four probes, all of
      them in flight before or for due hosts ahead of it in the list. */
  lemma {:induction false} PassedOver(t: Tables, hosts: seq<Host>, now: int, live: nat, p: nat)
    requires p < |hosts| && live > p && |t.inFlight| <= MAX_CONCURRENT_PINGS
    requires Due(hosts[p], t.lastPing, now)
    requires hosts[p].id !in Scheduled(t, hosts, now, live).inFlight
    ensures var s := Scheduled(t, hosts, now, live);
      && |s.inFlight| == MAX_CONCURRENT_PINGS
      && forall id :: id in s.inFlight && id !in t.inFlight ==>
           DueAmong(hosts[..p], id, t.lastPing, now)
    decreases |hosts|
  {
    if |t.inFlight| != MAX_CONCURRENT_PINGS {
      var v, rest := Visited(t, hosts[0], now), hosts[1..];
      ScheduledTimes(v, rest, now, live - 1, hosts[p].id);
      assert p > 0;
      VisitedSize(t, hosts[0], now);
      assert rest[p - 1] == hosts[p];
      PassedOver(v, rest, now, live - 1, p - 1);
      var s := Scheduled(v, rest, now, live - 1);
      forall id | id in s.inFlight && id !in t.inFlight ensures DueAmong(hosts[..p], id, t.lastPing, now) {
        DueAhead(t, hosts, now, p, id);
      }
    }
  }

  /** Consecutive passes over one list: `before[j]` are the tables pass `j` starts
      from, all earlier results received. */
  ghost predicate Consecutive(hosts: seq<Host>, before: seq<Tables>, times: seq<int>) {
    && |before| == |times|
    && (forall i, j :: 0 <= i < j < |times| ==> times[i] <= times[j])
    && (forall j :: 0 <= j < |before| ==> before[j].inFlight == map[])
    && (forall j :: 0 < j < |before| ==>
          before[j].lastPing == Pass(before[j - 1], hosts, times[j - 1]).lastPing)
  }

  predicate LaunchedBy(t: Tables, hosts: seq<Host>, now: int, id: string) {
    id in Pass(t, hosts, now).inFlight
  }

  /** Ids of hosts ahead of `hosts[p]` that were launched at `since` or later. */
  ghost predicate ServedAhead(t: Tables, hosts: seq<Host>, p: nat, since: int, served: set<string>)
    requires p < |hosts|
  {
    && served <= Ids(hosts[..p])
    && hosts[p].id !in served
    && forall id :: id in served ==> id in t.lastPing && t.lastPing[id] >= since
  }

  lemma ReconciledIdle(t: Tables, hosts: seq<Host>)
    requires t.inFlight == map[]
    ensures var r := Reconciled(t, hosts);
      && r.inFlight == map[]
      && (forall h :: h in hosts && h.id in t.lastPing ==> h.id in r.lastPing)
      && (forall id :: id in r.lastPing ==> id in t.lastPing && r.lastPing[id] == t.lastPing[id])
  {
    ConfiguredLists(hosts);
    forall h | h in hosts ensures h.id in Configured(hosts) {
      var i :| 0 <= i < |hosts| && hosts[i] == h;
      assert Lists(hosts, h.id);
    }
  }

  lemma {:induction false} IdsOfHosts(hosts: seq<Host>, id: string)
    requires id in Ids(hosts)
    ensures exists i :: 0 <= i < |hosts| && hosts[i].id == id
  {
    var n := |hosts| - 1;
    if id == hosts[n].id {
    } else {
      IdsOfHosts(hosts[..n], id);
      var i :| 0 <= i < n && hosts[..n][i].id == id;
      assert hosts[i].id == id;
    }
  }

  lemma DueMeansNotServed(t: Tables, hosts: seq<Host>, p: nat, since: int, now: int, served: set<string>,
      lastPing: map<string, int>, id: string)
    requires p < |hosts| && ServedAhead(t, hosts, p, since, served)
    requires forall i :: 0 <= i < p ==> Interval(hosts[i]) > now - since
    requires forall h :: h in hosts && h.id in t.lastPing ==> h.id in lastPing
    requires forall id :: id in lastPing ==> id in t.lastPing && lastPing[id] == t.lastPing[id]
    requires DueAmong(hosts[..p], id, lastPing, now)
    ensures id in Ids(hosts[..p]) && id !in served
  {
    var i :| 0 <= i < p && hosts[..p][i].id == id && Due(hosts[..p][i], lastPing, now);
    assert hosts[i] in hosts[..p] && hosts[i] in hosts;
  }

  lemma PassServesHostsAhead(t: Tables, hosts: seq<Host>, p: nat, since: int, now: int, served: set<string>)
    requires p < |hosts| && t.inFlight == map[]
    requires ServedAhead(t, hosts, p, since, served)
    requires forall i :: 0 <= i < p ==> Interval(hosts[i]) > now - since
    requires Due(hosts[p], t.lastPing, now) && !LaunchedBy(t, hosts, now, hosts[p].id)
    ensures var s := Pass(t, hosts, now);
      && |s.inFlight| == MAX_CONCURRENT_PINGS
      && forall id :: id in s.inFlight ==> id in Ids(hosts[..p]) && id !in served
  {
    var r, s := Reconciled(t, hosts), Pass(t, hosts, now);
    ReconciledIdle(t, hosts);
    PassedOver(r, hosts, now, |hosts|, p);
    forall id | id in s.inFlight ensures id in Ids(hosts[..p]) && id !in served {
      DueMeansNotServed(t, hosts, p, since, now, served, r.lastPing, id);
    }
  }

  lemma PassKeepsTimesOf(t: Tables, hosts: seq<Host>, since: int, now: int, h: Host)
    requires t.inFlight == map[] && now >= since && h in hosts
    requires (h.id in t.lastPing && t.lastPing[h.id] >= since) || LaunchedBy(t, hosts, now, h.id)
    ensures var s := Pass(t, hosts, now); h.id in s.lastPing && s.lastPing[h.id] >= since
  {
    ReconciledIdle(t, hosts);
    ScheduledTimes(Reconciled(t, hosts), hosts, now, |hosts|, h.id);
  }

  /** A pass that again passes over `hosts[p]` serves four further hosts ahead of it. */
  lemma PassServesFourMore(t: Tables, hosts: seq<Host>, p: nat, since: int, now: int, served: set<string>)
      returns (more: set<string>)
    requires p < |hosts| && t.inFlight == map[] && now >= since
    requires ServedAhead(t, hosts, p, since, served)
    requires forall i :: 0 <= i < p ==> Interval(hosts[i]) > now - since
    requires Due(hosts[p], t.lastPing, now) && !LaunchedBy(t, hosts, now, hosts[p].id)
    ensures |more| == |served| + MAX_CONCURRENT_PINGS
    ensures ServedAhead(Pass(t, hosts, now), hosts, p, since, more)
  {
    var s := Pass(t, hosts, now);
    PassServesHostsAhead(t, hosts, p, since, now, served);
    more := served + s.inFlight.Keys;
    assert |more| == |served| + |s.inFlight.Keys|;
    forall id | id in more ensures id in s.lastPing && s.lastPing[id] >= since {
      IdsOfHosts(hosts[..p], id);
      var i :| 0 <= i < p && hosts[..p][i].id == id;
      PassKeepsTimesOf(t, hosts, since, now, hosts[i]);
    }
  }

  lemma NotLaunchedStaysDue(t: Tables, hosts: seq<Host>, p: nat, now: int, later: int)
    requires p < |hosts| && t.inFlight == map[] && now <= later
    requires Due(hosts[p], t.lastPing, now) && !LaunchedBy(t, hosts, now, hosts[p].id)
    ensures Due(hosts[p], Pass(t, hosts, now).lastPing, later)
  {
    ReconciledIdle(t, hosts);
    var r := Reconciled(t, hosts);
    ScheduledTimesOnlyWhatItLaunches(r, hosts, now, |hosts|, hosts[p].id);
  }

  lemma {:induction false} ScheduledTimesOnlyWhatItLaunches(t: Tables, hosts: seq<Host>, now: int, live: nat, id: string)
    requires id !in Scheduled(t, hosts, now, live).inFlight
    ensures var s := Scheduled(t, hosts, now, live);
      (id in s.lastPing <==> id in t.lastPing) && (id in s.lastPing ==> s.lastPing[id] == t.lastPing[id])
    decreases |hosts|
  {
    if !(hosts == [] || live == 0 || |t.inFlight| == MAX_CONCURRENT_PINGS) {
      var v := Visited(t, hosts[0], now);
      ScheduledTimes(v, hosts[1..], now, live - 1, id);
      ScheduledTimesOnlyWhatItLaunches(v, hosts[1..], now, live - 1, id);
    }
  }

  lemma {:induction false} WaitingServesOthers(hosts: seq<Host>, before: seq<Tables>, times: seq<int>, p: nat, j: nat)
      returns (served: set<string>)
    requires Consecutive(hosts, before, times) && p < |hosts| && j < |before|
    requires forall i :: 0 <= i < p ==> Interval(hosts[i]) > times[|times| - 1] - times[0]
    requires Due(hosts[p], before[0].lastPing, times[0])
    requires forall k :: 0 <= k < |before| ==> !LaunchedBy(before[k], hosts, times[k], hosts[p].id)
    ensures |served| == MAX_CONCURRENT_PINGS * j
    ensures ServedAhead(before[j], hosts, p, times[0], served)
    ensures Due(hosts[p], before[j].lastPing, times[j])
  {
    if j == 0 {
      served := {};
    } else {
      var earlier := WaitingServesOthers(hosts, before, times, p, j - 1);
      served := PassServesFourMore(before[j - 1], hosts, p, times[0], times[j - 1], earlier);
      NotLaunchedStaysDue(before[j - 1], hosts, p, times[j - 1], times[j]);
      assert ServedAhead(before[j], hosts, p, times[0], served);
    }
  }

  /** Each pass that misses a waiting host serves four of the hosts ahead of it. */
  lemma MissedPassesAreFew(hosts: seq<Host>, before: seq<Tables>, times: seq<int>, p: nat)
    requires Consecutive(hosts, before, times) && p < |hosts| && before != []
    requires forall i :: 0 <= i < p ==> Interval(hosts[i]) > times[|times| - 1] - times[0]
    requires Due(hosts[p], before[0].lastPing, times[0])
    requires forall j :: 0 <= j < |before| ==> !LaunchedBy(before[j], hosts, times[j], hosts[p].id)
    ensures MAX_CONCURRENT_PINGS * |before| <= p
  {
    var n := |before| - 1;
    var served := WaitingServesOthers(hosts, before, times, p, n);
    var more := PassServesFourMore(before[n], hosts, p, times[0], times[n], served);
    SubsetSize(more, Ids(hosts[..p]));
  }

  /** With one list, all results received before the next pass, and every interval
      ahead of it longer than the span of the passes, a host due at the first of
      p/4 + 1 consecutive passes is launched by one of them, where `p` is the number
      of hosts ahead of it. So ceil(n/4) passes serve a list of n. */
  lemma DueHostIsLaunched(hosts: seq<Host>, before: seq<Tables>, times: seq<int>, p: nat)
    requires Consecutive(hosts, before, times) && p < |hosts|
    requires |before| == p / MAX_CONCURRENT_PINGS + 1
    requires forall i :: 0 <= i < p ==> Interval(hosts[i]) > times[|times| - 1] - times[0]
    requires Due(hosts[p], before[0].lastPing, times[0])
    ensures exists j :: 0 <= j < |before| && LaunchedBy(before[j], hosts, times[j], hosts[p].id)
  {
    if forall j :: 0 <= j < |before| ==> !LaunchedBy(before[j], hosts, times[j], hosts[p].id) {
      MissedPassesAreFew(hosts, before, times, p);
      assert false;
    }
  }

  // ------------------------------------------------------------- starvation

  lemma {:induction false} AllReady(t: Tables, hosts: seq<Host>, now: int)
    requires forall h :: h in hosts ==> Launches(t, h, now)
    ensures Ready(t, hosts, now) == |hosts|
  {
    if hosts != [] { AllReady(t, hosts[1..], now); }
  }

  /** When every host is due, the loop launches from the head of the list only. */
  lemma LaunchesTheHead(t: Tables, hosts: seq<Host>, now: int, live: nat, p: nat)
    requires UniqueIds(hosts) && |t.inFlight| <= MAX_CONCURRENT_PINGS
    requires forall h :: h in hosts ==> Launches(t, h, now)
    requires |hosts| > p >= MAX_CONCURRENT_PINGS - |t.inFlight|
    ensures hosts[p].id !in Scheduled(t, hosts, now, live).inFlight
  {
    assert hosts[p] in hosts;
    AllReady(t, hosts[..p], now);
    LaunchesExactly(t, hosts, now, live, p);
  }

  lemma PassKeepsShortIntervalsDue(t: Tables, hosts: seq<Host>, h: Host, now: int, later: int)
    requires t.inFlight == map[] && Due(h, t.lastPing, now)
    requires now <= later && later - now >= Interval(h)
    ensures Due(h, Pass(t, hosts, now).lastPing, later)
  {
    ReconciledIdle(t, hosts);
    ScheduledTimes(Reconciled(t, hosts), hosts, now, |hosts|, h.id);
  }

  /** Without that bound a host can wait for ever: if the passes are no closer than
      any interval, every host is due at every pass, each pass launches the first
      four again, and no host after them is launched by any pass, however many. */
  lemma {:induction false} LateHostsStarve(hosts: seq<Host>, before: seq<Tables>, times: seq<int>, p: nat, j: nat)
    requires UniqueIds(hosts) && Consecutive(hosts, before, times) && j < |before|
    requires MAX_CONCURRENT_PINGS <= p < |hosts|
    requires forall h :: h in hosts ==> Due(h, before[0].lastPing, times[0])
    requires forall h, i :: h in hosts && 0 < i < |times| ==> times[i] - times[i - 1] >= Interval(h)
    ensures forall h :: h in hosts ==> Due(h, before[j].lastPing, times[j])
    ensures !LaunchedBy(before[j], hosts, times[j], hosts[p].id)
  {
    if j > 0 {
      LateHostsStarve(hosts, before, times, p, j - 1);
      forall h | h in hosts ensures Due(h, before[j].lastPing, times[j]) {
        PassKeepsShortIntervalsDue(before[j - 1], hosts, h, times[j - 1], times[j]);
      }
    }
    var r := Reconciled(before[j], hosts);
    ReconciledIdle(before[j], hosts);
    LaunchesTheHead(r, hosts, times[j], |hosts|, p);
  }
}
