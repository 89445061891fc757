/** The results of `PingFairness` as statements about runs: rounds of a pass followed
    by whatever else happens until no probe is in flight. */
module PingRounds {
  import opened Types
  import opened Hosts
  import opened PingTables
  import opened PingProtocol
  import opened PingProperties
  import opened PingFairness

  /** A pass at `now`, and the steps up to the next one. */
  datatype Round = Round(now: int, rest: seq<Step>)

  function PassStep(hosts: seq<Host>, now: int): Step {
    Tick(Some(hosts), now, |hosts|)
  }

  predicate NoPass(steps: seq<Step>) {
    forall i :: 0 <= i < |steps| ==> !steps[i].Tick?
  }

  predicate CanRound(m: Manager, hosts: seq<Host>, r: Round) {
    && m.tables.inFlight == map[]
    && Enabled(m, PassStep(hosts, r.now))
    && NoPass(r.rest)
    && Runs(Apply(m, PassStep(hosts, r.now)), r.rest)
  }

  function AfterRound(m: Manager, hosts: seq<Host>, r: Round): Manager
    requires CanRound(m, hosts, r)
  {
    After(Apply(m, PassStep(hosts, r.now)), r.rest)
  }

  /** A run in rounds over one list; each round starts with no probe in flight. */
  predicate Rounds(m: Manager, hosts: seq<Host>, rounds: seq<Round>)
    decreases |rounds|
  {
    rounds == [] || (CanRound(m, hosts, rounds[0]) && Rounds(AfterRound(m, hosts, rounds[0]), hosts, rounds[1..]))
  }

  /** The tables each round starts from. */
  function Starts(m: Manager, hosts: seq<Host>, rounds: seq<Round>): (r: seq<Tables>)
    requires Rounds(m, hosts, rounds)
    ensures |r| == |rounds| && (rounds != [] ==> r[0] == m.tables)
    decreases |rounds|
  {
    if rounds == [] then []
    else [m.tables] + Starts(AfterRound(m, hosts, rounds[0]), hosts, rounds[1..])
  }

  function Times(rounds: seq<Round>): seq<int> {
    seq(|rounds|, i requires 0 <= i < |rounds| => rounds[i].now)
  }

  ghost predicate Ascending(rounds: seq<Round>) {
    forall i, j :: 0 <= i < j < |rounds| ==> rounds[i].now <= rounds[j].now
  }

  /** Only passes touch the launch times. */
  lemma {:induction false} TimesSurvive(m: Manager, steps: seq<Step>)
    requires Runs(m, steps) && NoPass(steps)
    ensures After(m, steps).tables.lastPing == m.tables.lastPing
    decreases |steps|
  {
    if steps != [] {
      assert !steps[0].Tick?;
      TimesSurvive(Apply(m, steps[0]), steps[1..]);
    }
  }

  lemma {:induction false} StartsFollow(m: Manager, hosts: seq<Host>, rounds: seq<Round>, j: nat)
    requires Rounds(m, hosts, rounds) && j < |rounds|
    ensures var before := Starts(m, hosts, rounds);
      && before[j].inFlight == map[]
      && (j > 0 ==> before[j].lastPing == Pass(before[j - 1], hosts, rounds[j - 1].now).lastPing)
    decreases |rounds|
  {
    if j > 0 {
      var n := AfterRound(m, hosts, rounds[0]);
      StartsFollow(n, hosts, rounds[1..], j - 1);
      if j == 1 { RoundTimes(m, hosts, rounds[0]); }
    }
  }

  lemma RoundTimes(m: Manager, hosts: seq<Host>, r: Round)
    requires CanRound(m, hosts, r)
    ensures AfterRound(m, hosts, r).tables.lastPing == Pass(m.tables, hosts, r.now).lastPing
  {
    TimesSurvive(Apply(m, PassStep(hosts, r.now)), r.rest);
  }

  lemma RoundsAreConsecutive(m: Manager, hosts: seq<Host>, rounds: seq<Round>)
    requires Rounds(m, hosts, rounds) && Ascending(rounds)
    ensures Consecutive(hosts, Starts(m, hosts, rounds), Times(rounds))
  {
    var before, times := Starts(m, hosts, rounds), Times(rounds);
    forall j | 0 <= j < |rounds|
      ensures before[j].inFlight == map[]
      ensures j > 0 ==> before[j].lastPing == Pass(before[j - 1], hosts, times[j - 1]).lastPing
    {
      StartsFollow(m, hosts, rounds, j);
    }
  }

  /** In every such run, a host that is due at the first round and has `p` hosts ahead
      of it is launched within p/4 + 1 rounds, if no interval ahead of it is up before
      the last of them. */
  lemma DueHostIsLaunchedInRounds(m: Manager, hosts: seq<Host>, rounds: seq<Round>, p: nat)
    requires Rounds(m, hosts, rounds) && Ascending(rounds)
    requires p < |hosts| && |rounds| == p / MAX_CONCURRENT_PINGS + 1
    requires forall i :: 0 <= i < p ==> Interval(hosts[i]) > rounds[|rounds| - 1].now - rounds[0].now
    requires Due(hosts[p], m.tables.lastPing, rounds[0].now)
    ensures exists j :: 0 <= j < |rounds| && LaunchedBy(Starts(m, hosts, rounds)[j], hosts, rounds[j].now, hosts[p].id)
  {
    RoundsAreConsecutive(m, hosts, rounds);
    DueHostIsLaunched(hosts, Starts(m, hosts, rounds), Times(rounds), p);
  }

  /** A round launches a host exactly if the host is due and fewer than four hosts ahead
      of it are. */
  lemma RoundLaunchesExactly(m: Manager, hosts: seq<Host>, rounds: seq<Round>, j: nat, p: nat)
    requires Rounds(m, hosts, rounds) && UniqueIds(hosts) && j < |rounds| && p < |hosts|
    ensures var t := Starts(m, hosts, rounds)[j];
      LaunchedBy(t, hosts, rounds[j].now, hosts[p].id) <==>
      && Due(hosts[p], t.lastPing, rounds[j].now)
      && DueCount(hosts[..p], t.lastPing, rounds[j].now) < MAX_CONCURRENT_PINGS
  {
    StartsFollow(m, hosts, rounds, j);
    IdlePassLaunchesExactly(Starts(m, hosts, rounds)[j], hosts, rounds[j].now, p);
  }

  predicate Waits(m: Manager, hosts: seq<Host>, rounds: seq<Round>, p: nat, j: nat)
    requires Rounds(m, hosts, rounds) && j < |rounds| && p < |hosts|
  {
    !LaunchedBy(Starts(m, hosts, rounds)[j], hosts, rounds[j].now, hosts[p].id)
  }

  predicate Crowded(m: Manager, hosts: seq<Host>, rounds: seq<Round>, p: nat, j: nat)
    requires Rounds(m, hosts, rounds) && j < |rounds| && p < |hosts|
  {
    DueCount(hosts[..p], Starts(m, hosts, rounds)[j].lastPing, rounds[j].now) >= MAX_CONCURRENT_PINGS
  }

  lemma {:induction false} WaitingStaysDue(m: Manager, hosts: seq<Host>, rounds: seq<Round>, p: nat, j: nat)
    requires Rounds(m, hosts, rounds) && Ascending(rounds) && p < |hosts| && j < |rounds|
    requires Due(hosts[p], m.tables.lastPing, rounds[0].now)
    requires forall i :: 0 <= i < j ==> Waits(m, hosts, rounds, p, i)
    ensures Due(hosts[p], Starts(m, hosts, rounds)[j].lastPing, rounds[j].now)
  {
    if j > 0 {
      WaitingStaysDue(m, hosts, rounds, p, j - 1);
      assert Waits(m, hosts, rounds, p, j - 1);
      StartsFollow(m, hosts, rounds, j - 1);
      StartsFollow(m, hosts, rounds, j);
      NotLaunchedStaysDue(Starts(m, hosts, rounds)[j - 1], hosts, p, rounds[j - 1].now, rounds[j].now);
    }
  }

  /** A host due at the first round waits through all of them if and only if at each
      round four or more hosts ahead of it are due. */
  lemma StarvesExactlyIfCrowded(m: Manager, hosts: seq<Host>, rounds: seq<Round>, p: nat)
    requires Rounds(m, hosts, rounds) && Ascending(rounds) && UniqueIds(hosts) && p < |hosts|
    requires rounds != [] ==> Due(hosts[p], m.tables.lastPing, rounds[0].now)
    ensures (forall j :: 0 <= j < |rounds| ==> Waits(m, hosts, rounds, p, j))
      <==> forall j :: 0 <= j < |rounds| ==> Crowded(m, hosts, rounds, p, j)
  {
    if forall j :: 0 <= j < |rounds| ==> Waits(m, hosts, rounds, p, j) {
      forall j | 0 <= j < |rounds| ensures Crowded(m, hosts, rounds, p, j) {
        assert Waits(m, hosts, rounds, p, j);
        WaitingStaysDue(m, hosts, rounds, p, j);
        RoundLaunchesExactly(m, hosts, rounds, j, p);
      }
    }
    if forall j :: 0 <= j < |rounds| ==> Crowded(m, hosts, rounds, p, j) {
      forall j | 0 <= j < |rounds| ensures Waits(m, hosts, rounds, p, j) {
        assert Crowded(m, hosts, rounds, p, j);
        RoundLaunchesExactly(m, hosts, rounds, j, p);
      }
    }
  }

  // -------------------------------------------------------- a run that starves

  function Pending(t: Tables): nat {
    2 * Work(t.workers) + |t.results|
  }

  /** What can happen next to a probe in flight. */
  function NextOf(t: Tables): Step {
    if t.results != [] then Receive("")
    else if t.workers == [] || t.workers[0].verdict.None? then ProbeReturns(0, false)
    else Send(0)
  }

  lemma NextOfDrains(m: Manager)
    requires Inv(m) && m.phase == Looping && m.tables.inFlight != map[]
    ensures Enabled(m, NextOf(m.tables))
    ensures var n := Apply(m, NextOf(m.tables));
      Inv(n) && n.phase == Looping && n.ctxDone == m.ctxDone && Pending(n.tables) < Pending(m.tables)
  {
    OneToOneIsDistinct(m.tables);
    StepKeepsInv(m, NextOf(m.tables));
    if m.tables.results == [] { WorkerStepWorks(m, NextOf(m.tables)); }
  }

  /** From every reachable state of the loop, all probes can land without a pass. */
  lemma {:induction false} Drained(m: Manager) returns (steps: seq<Step>)
    requires Inv(m) && m.phase == Looping
    ensures Runs(m, steps) && NoPass(steps)
    ensures var n := After(m, steps);
      Inv(n) && n.phase == Looping && n.ctxDone == m.ctxDone && n.tables.inFlight == map[]
    decreases Pending(m.tables)
  {
    if m.tables.inFlight == map[] {
      steps := [];
    } else {
      NextOfDrains(m);
      var later := Drained(Apply(m, NextOf(m.tables)));
      steps := [NextOf(m.tables)] + later;
      assert steps[1..] == later;
    }
  }

  /** A state that a round can start from. */
  ghost predicate Idle(m: Manager) {
    Inv(m) && m.phase in {Starting, Looping} && !m.ctxDone && m.tables.inFlight == map[]
  }

  lemma RoundExists(m: Manager, hosts: seq<Host>, now: int) returns (r: Round)
    requires Idle(m)
    ensures r.now == now && CanRound(m, hosts, r) && Idle(AfterRound(m, hosts, r))
  {
    StepKeepsInv(m, PassStep(hosts, now));
    var landing := Drained(Apply(m, PassStep(hosts, now)));
    r := Round(now, landing);
  }

  lemma {:induction false} RoundsExist(m: Manager, hosts: seq<Host>, times: seq<int>) returns (rounds: seq<Round>)
    requires Idle(m)
    ensures |rounds| == |times| && forall j :: 0 <= j < |times| ==> rounds[j].now == times[j]
    ensures Rounds(m, hosts, rounds)
    decreases |times|
  {
    if times == [] {
      rounds := [];
    } else {
      var first := RoundExists(m, hosts, times[0]);
      var later := RoundsExist(AfterRound(m, hosts, first), hosts, times[1..]);
      rounds := [first] + later;
      assert rounds[1..] == later;
    }
  }

  /** There are such runs of every length in which no host after the fourth is ever
      launched, although each is due at every pass: it is enough that the passes are
      no closer than any interval. */
  lemma SomeRunsStarve(m: Manager, hosts: seq<Host>, times: seq<int>) returns (rounds: seq<Round>)
    requires Idle(m)
    requires UniqueIds(hosts) && forall i, j :: 0 <= i < j < |times| ==> times[i] <= times[j]
    requires times != [] ==> forall h :: h in hosts ==> Due(h, m.tables.lastPing, times[0])
    requires forall h, i :: h in hosts && 0 < i < |times| ==> times[i] - times[i - 1] >= Interval(h)
    ensures |rounds| == |times| && Rounds(m, hosts, rounds)
    ensures forall j, p :: 0 <= j < |rounds| && MAX_CONCURRENT_PINGS <= p < |hosts| ==>
      && rounds[j].now == times[j]
      && Due(hosts[p], Starts(m, hosts, rounds)[j].lastPing, times[j])
      && !LaunchedBy(Starts(m, hosts, rounds)[j], hosts, times[j], hosts[p].id)
  {
    rounds := RoundsExist(m, hosts, times);
    assert Times(rounds) == times;
    RoundsAreConsecutive(m, hosts, rounds);
    var before := Starts(m, hosts, rounds);
    forall j, p | 0 <= j < |rounds| && MAX_CONCURRENT_PINGS <= p < |hosts|
      ensures Due(hosts[p], before[j].lastPing, times[j]) && !LaunchedBy(before[j], hosts, times[j], hosts[p].id)
    {
      LateHostsStarve(hosts, before, times, p, j);
      assert hosts[p] in hosts;
    }
  }
}
