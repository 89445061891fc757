/** The host polling of the web page, frontend/src/components/hostPolling.ts: the
    variables its callbacks share, together with what the browser has outstanding
    for it (unsettled fetches and armed timers). */
module PollingSpec {
  import opened Types

  /** What `onState` is given. */
  datatype Snapshot<T> = Snapshot(hosts: seq<T>, loading: bool, error: Option<string>)

  /** How a fetch settles. A null answer and a thrown value that is not an `Error`
      are both possible. */
  datatype Outcome<T> = Fetched(hosts: Option<seq<T>>) | Failed(message: Option<string>)

  datatype Poller<T> = Poller(
    state: Snapshot<T>,
    stopped: bool,
    timer: Option<nat>,
    active: Option<nat>,
    aborted: set<nat>,
    waiting: set<nat>,
    timers: set<nat>,
    started: nat,
    armed: nat,
    published: seq<Snapshot<T>>)

  /** `first` and `second` say whether the first and the second `onState` of a settled
      fetch call the stop function. */
  datatype Step<T> =
    | Settle(fetch: nat, outcome: Outcome<T>, first: bool, second: bool)
    | Fire(id: nat)
    | Stop

  const FETCH_FAILED := "Error fetching hosts"

  function Stopped<T>(p: Poller<T>): Poller<T> {
    if p.stopped then p
    else p.(stopped := true,
            timers := if p.timer.Some? then p.timers - {p.timer.value} else p.timers,
            timer := None,
            aborted := if p.active.Some? then p.aborted + {p.active.value} else p.aborted,
            active := None)
  }

  function Publish<T>(p: Poller<T>, s: Snapshot<T>, stops: bool): Poller<T> {
    if p.stopped then p
    else
      var q := p.(state := s, published := p.published + [s]);
      if stops then Stopped(q) else q
  }

  function Load<T>(p: Poller<T>): Poller<T> {
    if p.stopped then p
    else p.(active := Some(p.started), waiting := p.waiting + {p.started}, started := p.started + 1)
  }

  function Update<T>(s: Snapshot<T>, o: Outcome<T>): Snapshot<T> {
    match o
    case Fetched(hosts) => s.(hosts := if hosts.Some? then hosts.value else [], error := None)
    case Failed(message) => s.(error := Some(if message.Some? then message.value else FETCH_FAILED))
  }

  predicate Wanted<T>(p: Poller<T>, fetch: nat) {
    !p.stopped && fetch !in p.aborted
  }

  function Arm<T>(p: Poller<T>): Poller<T> {
    p.(timer := Some(p.armed), timers := p.timers + {p.armed}, armed := p.armed + 1)
  }

  /** The try and catch part. */
  function Answered<T>(p: Poller<T>, fetch: nat, o: Outcome<T>, first: bool): Poller<T> {
    var a := p.(waiting := p.waiting - {fetch});
    if Wanted(a, fetch) then Publish(a, Update(a.state, o), first) else a
  }

  /** The finally part. */
  function WoundUp<T>(p: Poller<T>, fetch: nat, second: bool): Poller<T> {
    var c := if p.active == Some(fetch) then p.(active := None) else p;
    if Wanted(c, fetch) then Arm(Publish(c, c.state.(loading := false), second)) else c
  }

  function Settled<T>(p: Poller<T>, fetch: nat, o: Outcome<T>, first: bool, second: bool): Poller<T> {
    WoundUp(Answered(p, fetch, o, first), fetch, second)
  }

  function Fired<T>(p: Poller<T>, id: nat): Poller<T> {
    Load(p.(timers := p.timers - {id}, timer := None))
  }

  function Start<T>(): Poller<T> {
    Load(Poller(Snapshot([], true, None), false, None, None, {}, {}, {}, 0, 0, []))
  }

  /** Fetches settle while outstanding, timers fire while armed, and the caller may
      stop at any time and repeatedly. */
  predicate Enabled<T>(p: Poller<T>, s: Step<T>) {
    match s
    case Settle(fetch, _, _, _) => fetch in p.waiting
    case Fire(id) => id in p.timers
    case Stop => true
  }

  function Apply<T>(p: Poller<T>, s: Step<T>): Poller<T> {
    match s
    case Settle(fetch, o, first, second) => Settled(p, fetch, o, first, second)
    case Fire(id) => Fired(p, id)
    case Stop => Stopped(p)
  }

  predicate Runs<T>(p: Poller<T>, steps: seq<Step<T>>)
    decreases |steps|
  {
    steps == [] || (Enabled(p, steps[0]) && Runs(Apply(p, steps[0]), steps[1..]))
  }

  function After<T>(p: Poller<T>, steps: seq<Step<T>>): Poller<T>
    decreases |steps|
  {
    if steps == [] then p else After(Apply(p, steps[0]), steps[1..])
  }
}

module PollingProperties {
  import opened Types
  import opened PollingSpec

  /** One fetch outstanding, and nothing else. */
  predicate Fetching<T>(p: Poller<T>) {
    && p.active.Some? && p.active.value < p.started && p.waiting == {p.active.value} && p.active.value !in p.aborted
    && p.timer == None && p.timers == {}
  }

  /** One timer armed, and nothing else. */
  predicate Pausing<T>(p: Poller<T>) {
    p.active == None && p.waiting == {} && p.timer.Some? && p.timers == {p.timer.value}
  }

  ghost predicate Inv<T>(p: Poller<T>) {
    && (forall c :: c in p.aborted ==> c < p.started)
    && (if p.stopped
        then p.active == None && |p.waiting| <= 1 && p.waiting <= p.aborted
             && (p.timer == None ==> p.timers == {}) && (p.timer.Some? ==> p.timers == {p.timer.value})
        else (Fetching(p) || Pausing(p)) && (p.published == [] || p.published[|p.published| - 1] == p.state))
  }

  lemma SettleKeepsInv<T>(p: Poller<T>, fetch: nat, o: Outcome<T>, first: bool, second: bool)
    requires Inv(p) && fetch in p.waiting
    ensures Inv(Settled(p, fetch, o, first, second))
  {
    var a := Answered(p, fetch, o, first);
    if p.stopped {
      assert a == p.(waiting := p.waiting - {fetch});
    } else {
      assert a.waiting == {} && a.timers == {} && a.timer == None;
      assert if first then a.stopped else a.active == Some(fetch) && Wanted(a, fetch);
    }
  }

  lemma StepKeepsInv<T>(p: Poller<T>, s: Step<T>)
    requires Inv(p) && Enabled(p, s)
    ensures Inv(Apply(p, s))
  {
    if s.Settle? { SettleKeepsInv(p, s.fetch, s.outcome, s.first, s.second); }
  }

  lemma {:induction false} RunKeepsInv<T>(p: Poller<T>, steps: seq<Step<T>>)
    requires Inv(p) && Runs(p, steps)
    ensures Inv(After(p, steps))
    decreases |steps|
  {
    if steps != [] {
      StepKeepsInv(p, steps[0]);
      RunKeepsInv(Apply(p, steps[0]), steps[1..]);
    }
  }

  /** In every run, fetches never overlap, not even after stop; and before stop there
      is exactly one of an outstanding fetch and an armed timer, so polling goes on,
      and whoever listens has been told the current state. After stop, a fetch still
      outstanding has been aborted. */
  lemma OneThingAtATime<T>(steps: seq<Step<T>>)
    requires Runs(Start(), steps)
    ensures var p := After(Start(), steps);
      && |p.waiting| <= 1 && |p.timers| <= 1
      && (!p.stopped ==> |p.waiting| + |p.timers| == 1)
      && (p.stopped ==> p.waiting <= p.aborted)
      && (!p.stopped && p.published != [] ==> p.published[|p.published| - 1] == p.state)
  {
    RunKeepsInv(Start(), steps);
  }

  /** After stop, whether called between callbacks or inside either `onState`, no
      fetch starts and nothing is published, in any continuation. */
  lemma {:induction false} NothingAfterStop<T>(p: Poller<T>, steps: seq<Step<T>>)
    requires p.stopped
    ensures var q := After(p, steps);
      q.stopped && q.started == p.started && q.published == p.published && q.state == p.state
    decreases |steps|
  {
    if steps != [] { NothingAfterStop(Apply(p, steps[0]), steps[1..]); }
  }

  /** How many fetches have settled and how many timers fired. */
  function Settles<T>(steps: seq<Step<T>>): nat {
    if steps == [] then 0 else (if steps[0].Settle? then 1 else 0) + Settles(steps[1..])
  }

  function Fires<T>(steps: seq<Step<T>>): nat {
    if steps == [] then 0 else (if steps[0].Fire? then 1 else 0) + Fires(steps[1..])
  }

  /** Before stop, each timer that fires starts one fetch and each fetch that settles arms
      one timer. */
  lemma {:induction false} CountsFrom<T>(p: Poller<T>, steps: seq<Step<T>>)
    requires Inv(p) && Runs(p, steps) && !After(p, steps).stopped
    ensures After(p, steps).started == p.started + Fires(steps)
    ensures After(p, steps).armed == p.armed + Settles(steps)
    decreases |steps|
  {
    if steps != [] {
      var q := Apply(p, steps[0]);
      if p.stopped || q.stopped {
        StaysStopped(p, steps);
      } else {
        StepKeepsInv(p, steps[0]);
        CountsFrom(q, steps[1..]);
      }
    }
  }

  lemma StaysStopped<T>(p: Poller<T>, steps: seq<Step<T>>)
    requires steps != [] && (p.stopped || Apply(p, steps[0]).stopped)
    ensures After(p, steps).stopped
  {
    NothingAfterStop(Apply(p, steps[0]), steps[1..]);
  }

  /** So polling goes on: in every run not yet stopped, there has been a first fetch and one
      for each timer that fired, and a timer for each fetch that settled. */
  lemma PollingGoesOn<T>(steps: seq<Step<T>>)
    requires Runs(Start(), steps) && !After(Start(), steps).stopped
    ensures After(Start(), steps).started == 1 + Fires(steps) && After(Start(), steps).armed == Settles(steps)
  {
    CountsFrom(Start(), steps);
  }

  // ------------------------------------------------------------ what is published

  /** How the fetches of a run settled, in order. */
  function Outcomes<T>(steps: seq<Step<T>>): seq<Outcome<T>> {
    if steps == [] then []
    else (if steps[0].Settle? then [steps[0].outcome] else []) + Outcomes(steps[1..])
  }

  /** The hosts after an answer: the answer's, or after a failure the ones before. */
  function HostsAfter<T>(hosts: seq<T>, o: Outcome<T>): seq<T> {
    if o.Failed? then hosts else if o.hosts.None? then [] else o.hosts.value
  }

  function ErrorAfter<T>(o: Outcome<T>): Option<string> {
    if o.Fetched? then None else if o.message.None? then Some("Error fetching hosts") else o.message
  }

  /** What a listener should see of a list of answers: each one twice, the second time
      with loading off. Nothing here knows of timers, controllers or stopping. */
  function Feed<T>(outcomes: seq<Outcome<T>>, hosts: seq<T>, loading: bool): seq<Snapshot<T>> {
    if outcomes == [] then []
    else
      var now, error := HostsAfter(hosts, outcomes[0]), ErrorAfter(outcomes[0]);
      [Snapshot(now, loading, error), Snapshot(now, false, error)] + Feed(outcomes[1..], now, false)
  }

  ghost predicate Prefix<T>(a: seq<T>, b: seq<T>) {
    |a| <= |b| && a == b[..|a|]
  }

  /** Exactly the feed has been published, or a beginning of it if polling has stopped. */
  ghost predicate Follows<T>(p: Poller<T>, feed: seq<Snapshot<T>>) {
    if p.stopped then Prefix(p.published, feed) else p.published == feed
  }

  lemma FollowsOn<T>(p: Poller<T>, steps: seq<Step<T>>, feed: seq<Snapshot<T>>, more: seq<Snapshot<T>>)
    requires Follows(p, feed)
    requires !p.stopped ==> Follows(After(p, steps), p.published + more)
    ensures Follows(After(p, steps), feed + more)
  {
    if p.stopped { NothingAfterStop(p, steps); }
  }

  lemma StepThenFollows<T>(p: Poller<T>, s: Step<T>, q: Poller<T>, steps: seq<Step<T>>, more: seq<Snapshot<T>>)
    requires Inv(p) && Enabled(p, s) && !p.stopped && q == Apply(p, s)
    requires !q.stopped ==> Follows(After(q, steps), q.published + more)
    ensures Follows(After(q, steps), p.published + (Announced(p, s) + more))
  {
    StepPublishes(p, s);
    FollowsOn(q, steps, p.published + Announced(p, s), more);
    assert (p.published + Announced(p, s)) + more == p.published + (Announced(p, s) + more);
  }

  lemma {:induction false} PublishesTheFeedFrom<T>(p: Poller<T>, steps: seq<Step<T>>)
    requires Inv(p) && Runs(p, steps) && !p.stopped
    ensures Follows(After(p, steps), p.published + Feed(Outcomes(steps), p.state.hosts, p.state.loading))
    decreases |steps|
  {
    if steps != [] {
      var s, q, rest := steps[0], Apply(p, steps[0]), steps[1..];
      StepKeepsInv(p, s);
      var more := Feed(Outcomes(rest), HostsIn(p, s), p.state.loading && !s.Settle?);
      if !q.stopped {
        StepPublishes(p, s);
        PublishesTheFeedFrom(q, rest);
      }
      StepThenFollows(p, s, q, rest, more);
      FeedUnfolds(p, steps);
    }
  }

  function HostsIn<T>(p: Poller<T>, s: Step<T>): seq<T> {
    if s.Settle? then HostsAfter(p.state.hosts, s.outcome) else p.state.hosts
  }

  /** The part of the feed that belongs to one step. */
  function Announced<T>(p: Poller<T>, s: Step<T>): seq<Snapshot<T>> {
    if s.Settle? then
      var now, error := HostsAfter(p.state.hosts, s.outcome), ErrorAfter(s.outcome);
      [Snapshot(now, p.state.loading, error), Snapshot(now, false, error)]
    else []
  }

  lemma FeedUnfolds<T>(p: Poller<T>, steps: seq<Step<T>>)
    requires steps != []
    ensures Feed(Outcomes(steps), p.state.hosts, p.state.loading)
      == Announced(p, steps[0])
         + Feed(Outcomes(steps[1..]), HostsIn(p, steps[0]), p.state.loading && !steps[0].Settle?)
  {
    var s := steps[0];
    if s.Settle? {
      assert Outcomes(steps) == [s.outcome] + Outcomes(steps[1..]);
      assert Outcomes(steps)[1..] == Outcomes(steps[1..]);
    } else {
      assert Outcomes(steps) == Outcomes(steps[1..]);
    }
  }

  lemma StepPublishes<T>(p: Poller<T>, s: Step<T>)
    requires Inv(p) && Enabled(p, s) && !p.stopped
    ensures var q := Apply(p, s);
      && Follows(q, p.published + Announced(p, s))
      && (!q.stopped ==> q.state.hosts == HostsIn(p, s) && q.state.loading == (p.state.loading && !s.Settle?))
  {
    if s.Settle? {
      SettlePublishes(p, s.fetch, s.outcome, s.first, s.second);
      AnnouncedFollows(Apply(p, s), p, s);
    }
  }

  lemma AnnouncedFollows<T>(q: Poller<T>, p: Poller<T>, s: Step<T>)
    requires s.Settle? && q.stopped == (s.first || s.second)
    requires var now := Update(p.state, s.outcome);
      q.published == p.published + (if s.first then [now] else [now, now.(loading := false)])
    ensures Follows(q, p.published + Announced(p, s))
  {
    var now := Update(p.state, s.outcome);
    assert Announced(p, s) == [now, now.(loading := false)];
  }

  lemma SettlePublishes<T>(p: Poller<T>, fetch: nat, o: Outcome<T>, first: bool, second: bool)
    requires Fetching(p) && !p.stopped && fetch in p.waiting
    ensures var q, now := Settled(p, fetch, o, first, second), Update(p.state, o);
      && q.stopped == (first || second)
      && q.published == p.published + (if first then [now] else [now, now.(loading := false)])
      && (!q.stopped ==> q.state == now.(loading := false))
  {
    var a := Answered(p, fetch, o, first);
    assert a.published == p.published + [Update(p.state, o)] && a.stopped == first;
  }

  /** In every run from the start, listeners have seen the feed of its answers. */
  lemma PublishesTheFeed<T>(steps: seq<Step<T>>)
    requires Runs(Start(), steps)
    ensures Follows(After(Start(), steps), Feed(Outcomes(steps), [], true))
  {
    PublishesTheFeedFrom(Start(), steps);
  }

  /** A failed poll keeps the last good hosts: with answers that all fail after a
      good one, every later snapshot shows that one's hosts, and the error. */
  lemma {:induction false} FailuresKeepHosts<T>(outcomes: seq<Outcome<T>>, hosts: seq<T>, loading: bool, k: nat)
    requires forall o :: o in outcomes ==> o.Failed?
    requires k < |Feed(outcomes, hosts, loading)|
    ensures Feed(outcomes, hosts, loading)[k].hosts == hosts
    ensures Feed(outcomes, hosts, loading)[k].error.Some?
  {
    assert outcomes[0].Failed?;
    if k >= 2 { FailuresKeepHosts(outcomes[1..], hosts, false, k - 2); }
  }

  /** In every run: after an answer that was good, as long as all that follow fail, every
      snapshot shows that answer's hosts, and from the first failure on an error. */
  lemma LastGoodHostsStay<T>(before: seq<Step<T>>, good: Step<T>, after: seq<Step<T>>, k: nat)
    requires Runs(Start(), before) && Enabled(After(Start(), before), good) && !After(Start(), before).stopped
    requires good.Settle? && good.outcome.Fetched?
    requires Runs(Apply(After(Start(), before), good), after)
    requires forall o :: o in Outcomes(after) ==> o.Failed?
    ensures var p := After(Start(), before);
      var q := Apply(p, good);
      var end := After(q, after);
      |p.published| <= k < |end.published| ==>
        && end.published[k].hosts == HostsAfter(p.state.hosts, good.outcome)
        && (end.published[k].error.Some? <==> k >= |q.published|)
  {
    var p := After(Start(), before);
    var q := Apply(p, good);
    RunKeepsInv(Start(), before);
    GoodAnswerShows(p, good, q);
    FailuresShow(q, after, k);
  }

  lemma GoodAnswerShows<T>(p: Poller<T>, good: Step<T>, q: Poller<T>)
    requires Inv(p) && Enabled(p, good) && !p.stopped && good.Settle? && good.outcome.Fetched? && q == Apply(p, good)
    ensures Inv(q) && |p.published| <= |q.published| && q.state.hosts == HostsAfter(p.state.hosts, good.outcome)
    ensures forall k :: |p.published| <= k < |q.published| ==>
      q.published[k].hosts == q.state.hosts && q.published[k].error.None?
  {
    StepKeepsInv(p, good);
    SettlePublishes(p, good.fetch, good.outcome, good.first, good.second);
  }

  /** From a state between steps: failing answers add snapshots of its hosts with errors. */
  lemma FailuresShow<T>(q: Poller<T>, after: seq<Step<T>>, k: nat)
    requires Inv(q) && Runs(q, after) && forall o :: o in Outcomes(after) ==> o.Failed?
    ensures var end := After(q, after);
      && (k < |q.published| ==> k < |end.published| && end.published[k] == q.published[k])
      && (|q.published| <= k < |end.published| ==>
            end.published[k].hosts == q.state.hosts && end.published[k].error.Some?)
  {
    if q.stopped {
      NothingAfterStop(q, after);
    } else {
      FollowsAtLeast(q, after);
      PublishesTheFeedFrom(q, after);
      var feed := Feed(Outcomes(after), q.state.hosts, q.state.loading);
      if |q.published| <= k < |After(q, after).published| {
        FailuresKeepHosts(Outcomes(after), q.state.hosts, q.state.loading, k - |q.published|);
        assert (q.published + feed)[k] == feed[k - |q.published|];
      }
    }
  }

  /** What has been published stays published. */
  lemma {:induction false} FollowsAtLeast<T>(p: Poller<T>, steps: seq<Step<T>>)
    ensures Prefix(p.published, After(p, steps).published)
    decreases |steps|
  {
    if steps != [] { FollowsAtLeast(Apply(p, steps[0]), steps[1..]); }
  }

  // ------------------------------------------------------ the timer that may remain

  /** A stop leaves a timer armed exactly if it is called while the `loading: false` of a
      settled fetch is announced, and was not already called by the announcement before. */
  lemma StopLeavesTimer<T>(p: Poller<T>, s: Step<T>)
    requires Inv(p) && Enabled(p, s) && !p.stopped && Apply(p, s).stopped
    ensures Apply(p, s).timers != {} <==> s.Settle? && !s.first && s.second
  {
  }

  /** The very first settled fetch can be such a one. */
  lemma OneHarmlessTimer<T>(o: Outcome<T>)
    ensures var p := Apply(Start(), Settle(0, o, false, true));
      && p.stopped && p.timers == {0}
      && var q := Apply(p, Fire(0)); q.timers == {} && q.started == 1 && q.published == p.published
  {
  }

  /** After stop nothing arms a timer, and one that is armed goes when it fires. */
  lemma {:induction false} TimerGoesWhenItFires<T>(p: Poller<T>, steps: seq<Step<T>>)
    requires Inv(p) && p.stopped && Runs(p, steps)
    ensures After(p, steps).timers == {} <==> p.timers == {} || exists s :: s in steps && s.Fire?
    decreases |steps|
  {
    if steps != [] {
      var q := Apply(p, steps[0]);
      StepKeepsInv(p, steps[0]);
      TimerGoesWhenItFires(q, steps[1..]);
      assert steps == [steps[0]] + steps[1..];
    }
  }

  /** So after stop, in every run, a timer remains exactly if the stop was such a one and
      the timer has not fired since. No fetch starts when it does (`NothingAfterStop`). */
  lemma TimerRemainsExactly<T>(before: seq<Step<T>>, stop: Step<T>, after: seq<Step<T>>)
    requires Runs(Start(), before) && !After(Start(), before).stopped
    requires Enabled(After(Start(), before), stop) && Apply(After(Start(), before), stop).stopped
    requires Runs(Apply(After(Start(), before), stop), after)
    ensures After(Apply(After(Start(), before), stop), after).timers != {} <==>
      && stop.Settle? && !stop.first && stop.second
      && forall s :: s in after ==> !s.Fire?
  {
    RunKeepsInv(Start(), before);
    StopLeavesTimer(After(Start(), before), stop);
    StepKeepsInv(After(Start(), before), stop);
    TimerGoesWhenItFires(Apply(After(Start(), before), stop), after);
  }
}

/** `startHostPolling` as it runs: the closure's variables, reassigned by callbacks. */
module PollingCode {
  import opened Types
  import opened PollingSpec

  class HostPolling<T> {
    var state: Snapshot<T>
    var stopped: bool
    var timer: Option<nat>
    var activeController: Option<nat>

    // The browser's side: aborted controllers, unsettled fetches, armed timers, how
    // many of each there have been, and what `onState` has been given.
    var aborted: set<nat>
    var waiting: set<nat>
    var timers: set<nat>
    var started: nat
    var armed: nat
    var published: seq<Snapshot<T>>

    ghost function View(): Poller<T>
      reads this
    {
      Poller(state, stopped, timer, activeController, aborted, waiting, timers, started, armed, published)
    }

    constructor ()
      ensures View() == Start()
    {
      state, stopped, timer, activeController := Snapshot([], true, None), false, None, None;
      aborted, waiting, timers, started, armed, published := {}, {}, {}, 0, 0, [];
      new;
      LoadHosts();
    }

    method Publish(update: Snapshot<T>, stops: bool)
      modifies this
      ensures View() == PollingSpec.Publish(old(View()), update, stops)
    {
      if stopped { return; }
      state := update;
      published := published + [state];
      if stops { Stop(); }
    }

    /** `loadHosts` up to its `await`. */
    method LoadHosts()
      modifies this
      ensures View() == Load(old(View()))
    {
      if stopped { return; }
      var controller := started;
      activeController := Some(controller);
      started, waiting := started + 1, waiting + {controller};
    }

    /** `loadHosts` from its `await` on. */
    method Settle(controller: nat, outcome: Outcome<T>, first: bool, second: bool)
      requires controller in waiting
      modifies this
      ensures View() == Settled(old(View()), controller, outcome, first, second)
    {
      waiting := waiting - {controller};
      if !stopped && controller !in aborted {
        match outcome {
          case Fetched(hosts) =>
            Publish(state.(hosts := if hosts.Some? then hosts.value else [], error := None), first);
          case Failed(message) =>
            Publish(state.(error := Some(if message.Some? then message.value else FETCH_FAILED)), first);
        }
      }
      assert View() == Answered(old(View()), controller, outcome, first);
      Finally(controller, second);
    }

    method Finally(controller: nat, second: bool)
      modifies this
      ensures View() == WoundUp(old(View()), controller, second)
    {
      if activeController == Some(controller) { activeController := None; }
      if !stopped && controller !in aborted {
        Publish(state.(loading := false), second);
        timer := Some(armed);
        timers, armed := timers + {armed}, armed + 1;
      }
    }

    method Fire(id: nat)
      requires id in timers
      modifies this
      ensures View() == Fired(old(View()), id)
    {
      timers := timers - {id};
      timer := None;
      LoadHosts();
    }

    method Stop()
      modifies this
      ensures View() == Stopped(old(View()))
    {
      if stopped { return; }
      stopped := true;
      if timer.Some? { timers := timers - {timer.value}; }
      timer := None;
      if activeController.Some? { aborted := aborted + {activeController.value}; }
      activeController := None;
    }
  }
}
