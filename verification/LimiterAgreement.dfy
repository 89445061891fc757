/** When the limiter agrees with the reference limiter, exactly: as long as the key's
    record is not evicted. And when records are evicted, in terms of what is tracked. */
module LimiterAgreement {
  import opened Types
  import opened LimiterState
  import opened LimiterCalls

  // ------------------------------------------------- an eviction ends agreement

  ghost predicate Counted(m: Attempts) {
    forall k :: k in m ==> m[k].failures >= 1
  }

  lemma RecordedKeepsCounted(c: Config, m: Attempts, key: string, now: int, ev: set<string>)
    requires Counted(m)
    ensures Counted(Recorded(c, m, key, now, ev))
  {
  }

  lemma NextKeepsCounted(c: Config, s: State, call: Call)
    requires Counted(s.attempts)
    ensures Counted(Next(c, s, call).attempts)
  {
    if call.Fail? {
      var m := Swept(c, s, call.now).attempts;
      RecordedKeepsCounted(c, m, IpKey(call.ip), call.now, call.ev.0);
      RecordedKeepsCounted(c, Recorded(c, m, IpKey(call.ip), call.now, call.ev.0),
                           AccountKey(c, call.email), call.now, call.ev.1);
    }
  }

  lemma EvictedWasLive(c: Config, m: Attempts, key: string, now: int, ev: set<string>, k: string)
    requires RecordEvicts(c, m, key, now, ev) && k in ev
    ensures LiveAt(c, m, k, now).Some? && k != key && k !in Recorded(c, m, key, now, ev)
  {
  }

  lemma BumpedIsLive(c: Config, a: Option<Attempt>, now: int)
    requires c.window > 0 && c.backoff > 0 && (a.Some? ==> !Expired(c, a.value, now))
    ensures !Expired(c, BumpedFrom(c, a, now), now)
  {
  }

  lemma RefAfterFailure(c: Config, r: Attempts, call: Call, k: string)
    requires c.window > 0 && c.backoff > 0 && call.Fail?
    requires k in Touched(c, call)
    ensures LiveAt(c, RefNext(c, r, call), k, call.now)
      == Some(BumpedFrom(c, LiveAt(c, r, k, call.now), call.now))
  {
    KeysDiffer(c, call.ip, call.email);
    BumpedIsLive(c, LiveAt(c, r, k, call.now), call.now);
  }

  lemma EvictedForAddress(c: Config, s: State, r: Attempts, call: Call, k: string)
    requires c.window > 0 && c.backoff > 0 && Counted(s.attempts) && call.Fail?
    requires Possible(c, s, call) && k in call.ev.0
    requires LiveAt(c, s.attempts, k, call.now) == LiveAt(c, r, k, call.now)
    ensures LiveAt(c, Next(c, s, call).attempts, k, call.now) != LiveAt(c, RefNext(c, r, call), k, call.now)
  {
    var m := Swept(c, s, call.now).attempts;
    var first, second := IpKey(call.ip), AccountKey(c, call.email);
    EvictedWasLive(c, m, first, call.now, call.ev.0, k);
    var m1 := Recorded(c, m, first, call.now, call.ev.0);
    assert LiveAt(c, m, k, call.now) == LiveAt(c, s.attempts, k, call.now);
    if k == second {
      RefAfterFailure(c, r, call, k);
      assert Recorded(c, m1, second, call.now, call.ev.1)[k].failures == 1;
    } else {
      assert k !in Recorded(c, m1, second, call.now, call.ev.1);
    }
  }

  lemma EvictedForAccount(c: Config, s: State, r: Attempts, call: Call, k: string)
    requires c.window > 0 && c.backoff > 0 && call.Fail?
    requires Possible(c, s, call) && k in call.ev.1 && k !in call.ev.0
    requires LiveAt(c, s.attempts, k, call.now) == LiveAt(c, r, k, call.now)
    ensures LiveAt(c, Next(c, s, call).attempts, k, call.now) != LiveAt(c, RefNext(c, r, call), k, call.now)
  {
    var m := Swept(c, s, call.now).attempts;
    var first, second := IpKey(call.ip), AccountKey(c, call.email);
    var m1 := Recorded(c, m, first, call.now, call.ev.0);
    EvictedWasLive(c, m1, second, call.now, call.ev.1, k);
    if k == first {
      RefAfterFailure(c, r, call, k);
    } else {
      RecordedLookup(c, m, first, call.now, call.ev.0, k, call.now);
      assert LiveAt(c, m, k, call.now) == LiveAt(c, s.attempts, k, call.now);
    }
  }

  /** A call that evicts the record of `k` leaves the two limiters with different ones. */
  lemma EvictionDisagrees(c: Config, s: State, r: Attempts, clock: int, call: Call, k: string)
    requires c.window > 0 && c.backoff > 0 && Counted(s.attempts)
    requires Agree(c, s.attempts, r, k, clock) && Clock(clock, call) >= clock
    requires Possible(c, s, call) && k in Evicted(call)
    ensures !Agree(c, Next(c, s, call).attempts, RefNext(c, r, call), k, Clock(clock, call))
  {
    assert LiveAt(c, s.attempts, k, call.now) == LiveAt(c, r, k, call.now);
    if k in call.ev.0 {
      EvictedForAddress(c, s, r, call, k);
    } else {
      EvictedForAccount(c, s, r, call, k);
    }
  }

  /** After the first `n` calls the two limiters hold the same live record for `k`. */
  ghost predicate AgreeAfter(c: Config, s: State, r: Attempts, clock: int, calls: seq<Call>, k: string, n: nat)
    requires n <= |calls|
  {
    Agree(c, After(c, s, calls[..n]).attempts, RefAfter(c, r, calls[..n]), k, EndClock(clock, calls[..n]))
  }

  lemma {:induction false} RunsPrefix(c: Config, s: State, clock: int, calls: seq<Call>, n: nat)
    requires Runs(c, s, clock, calls) && n <= |calls|
    ensures Runs(c, s, clock, calls[..n])
    decreases |calls|
  {
    if n > 0 {
      RunsPrefix(c, Next(c, s, calls[0]), Clock(clock, calls[0]), calls[1..], n - 1);
      assert calls[..n][1..] == calls[1..][..n - 1];
    }
  }

  lemma AgreeAfterShifts(c: Config, s: State, r: Attempts, clock: int, calls: seq<Call>, k: string, n: nat)
    requires n < |calls|
    ensures AgreeAfter(c, s, r, clock, calls, k, n + 1) <==>
      AgreeAfter(c, Next(c, s, calls[0]), RefNext(c, r, calls[0]), Clock(clock, calls[0]), calls[1..], k, n)
  {
    assert calls[..n + 1][1..] == calls[1..][..n];
  }

  lemma {:induction false} AgreementMeansNoEviction(c: Config, s: State, r: Attempts, clock: int, calls: seq<Call>, k: string)
    requires c.window > 0 && c.backoff > 0 && Counted(s.attempts) && Runs(c, s, clock, calls)
    requires forall n :: 0 <= n <= |calls| ==> AgreeAfter(c, s, r, clock, calls, k, n)
    ensures NeverEvicted(calls, k)
    decreases |calls|
  {
    if calls != [] {
      var s1, r1, clock1 := Next(c, s, calls[0]), RefNext(c, r, calls[0]), Clock(clock, calls[0]);
      assert AgreeAfter(c, s, r, clock, calls, k, 0);
      AgreeAfterShifts(c, s, r, clock, calls, k, 0);
      assert AgreeAfter(c, s1, r1, clock1, calls[1..], k, 0);
      if k in Evicted(calls[0]) { EvictionDisagrees(c, s, r, clock, calls[0], k); }
      forall n | 0 <= n <= |calls[1..]| ensures AgreeAfter(c, s1, r1, clock1, calls[1..], k, n) {
        AgreeAfterShifts(c, s, r, clock, calls, k, n);
      }
      NextKeepsCounted(c, s, calls[0]);
      AgreementMeansNoEviction(c, s1, r1, clock1, calls[1..], k);
      assert forall i :: 0 < i < |calls| ==> calls[i] == calls[1..][i - 1];
    }
  }

  /** Throughout a run the limiter holds the same live record for `k` as the reference
      if and only if that record is never evicted. */
  lemma AgreesExactlyIfNeverEvicted(c: Config, clock: int, calls: seq<Call>, k: string)
    requires c.window > 0 && c.backoff > 0 && Runs(c, EMPTY, clock, calls)
    ensures NeverEvicted(calls, k) <==>
      forall n :: 0 <= n <= |calls| ==> AgreeAfter(c, EMPTY, map[], clock, calls, k, n)
  {
    if NeverEvicted(calls, k) {
      forall n | 0 <= n <= |calls| ensures AgreeAfter(c, EMPTY, map[], clock, calls, k, n) {
        RunsPrefix(c, EMPTY, clock, calls, n);
        RunAgrees(c, EMPTY, map[], clock, calls[..n], k);
      }
    }
    if forall n :: 0 <= n <= |calls| ==> AgreeAfter(c, EMPTY, map[], clock, calls, k, n) {
      AgreementMeansNoEviction(c, EMPTY, map[], clock, calls, k);
    }
  }

  // ------------------------------------------------------- when records are evicted

  /** There is room for `key`: it is tracked, or fewer live records than the cap are. */
  predicate HasRoom(c: Config, m: Attempts, key: string, now: int) {
    key in m || |Cleaned(c, m, now)| < c.maxTrackedKeys
  }

  lemma EvictsExactlyWithoutRoom(c: Config, m: Attempts, key: string, now: int, ev: set<string>)
    requires c.maxTrackedKeys >= 1 && RecordEvicts(c, m, key, now, ev)
    ensures ev == {} <==> HasRoom(c, m, key, now)
  {
    CleanedSize(c, m, now);
  }

  /** A failure evicts nothing exactly if there is room for the address's key and then
      for the account's. */
  lemma FailureEvictsExactlyWithoutRoom(c: Config, s: State, call: Call)
    requires c.maxTrackedKeys >= 1 && call.Fail? && Possible(c, s, call)
    ensures var m := Swept(c, s, call.now).attempts;
      Evicted(call) == {} <==>
      && HasRoom(c, m, IpKey(call.ip), call.now)
      && HasRoom(c, Recorded(c, m, IpKey(call.ip), call.now, {}), AccountKey(c, call.email), call.now)
  {
    var m, first := Swept(c, s, call.now).attempts, IpKey(call.ip);
    EvictsExactlyWithoutRoom(c, m, first, call.now, call.ev.0);
    EvictsExactlyWithoutRoom(c, Recorded(c, m, first, call.now, call.ev.0), AccountKey(c, call.email), call.now, call.ev.1);
  }

  /** The keys that the failures of a run are recorded for. */
  function FailedKeys(c: Config, calls: seq<Call>): set<string> {
    if calls == [] then {}
    else (if calls[0].Fail? then Touched(c, calls[0]) else {}) + FailedKeys(c, calls[1..])
  }

  lemma FitsWithin(c: Config, m: Attempts, key: string, now: int, ev: set<string>, keys: set<string>)
    requires c.maxTrackedKeys >= 1 && RecordEvicts(c, m, key, now, ev)
    requires m.Keys <= keys && key in keys && |keys| <= c.maxTrackedKeys
    ensures ev == {} && Recorded(c, m, key, now, ev).Keys <= keys
  {
    EvictsExactlyWithoutRoom(c, m, key, now, ev);
    CleanedSize(c, m, now);
    if key !in m {
      SubsetSize(m.Keys + {key}, keys);
      assert |m.Keys + {key}| == |m| + 1;
    }
  }

  lemma NextFitsWithin(c: Config, s: State, call: Call, keys: set<string>)
    requires c.maxTrackedKeys >= 1 && Possible(c, s, call)
    requires s.attempts.Keys <= keys && |keys| <= c.maxTrackedKeys
    requires call.Fail? ==> Touched(c, call) <= keys
    ensures Evicted(call) == {} && Next(c, s, call).attempts.Keys <= keys
  {
    if call.Fail? {
      var m, first := Swept(c, s, call.now).attempts, IpKey(call.ip);
      FitsWithin(c, m, first, call.now, call.ev.0, keys);
      FitsWithin(c, Recorded(c, m, first, call.now, call.ev.0), AccountKey(c, call.email), call.now, call.ev.1, keys);
    }
  }

  lemma {:induction false} FewKeysAreNeverEvicted(c: Config, s: State, clock: int, calls: seq<Call>, keys: set<string>, k: string)
    requires c.maxTrackedKeys >= 1 && Runs(c, s, clock, calls)
    requires s.attempts.Keys <= keys && FailedKeys(c, calls) <= keys && |keys| <= c.maxTrackedKeys
    ensures NeverEvicted(calls, k)
    decreases |calls|
  {
    if calls != [] {
      NextFitsWithin(c, s, calls[0], keys);
      FewKeysAreNeverEvicted(c, Next(c, s, calls[0]), Clock(clock, calls[0]), calls[1..], keys, k);
      assert forall i :: 0 < i < |calls| ==> calls[i] == calls[1..][i - 1];
    }
  }

  /** So every run that records failures for at most maxTrackedKeys different keys
      agrees with the reference, for every client and at every time. */
  lemma AgreesWithFewKeys(c: Config, clock: int, calls: seq<Call>, ip: string, email: string, now: int)
    requires c.maxTrackedKeys >= 1 && Runs(c, EMPTY, clock, calls) && EndClock(clock, calls) <= now
    requires |FailedKeys(c, calls)| <= c.maxTrackedKeys
    ensures RetryAfter(c, After(c, EMPTY, calls).attempts, ip, email, now)
      == RetryAfter(c, RefAfter(c, map[], calls), ip, email, now)
  {
    FewKeysAreNeverEvicted(c, EMPTY, clock, calls, FailedKeys(c, calls), IpKey(ip));
    FewKeysAreNeverEvicted(c, EMPTY, clock, calls, FailedKeys(c, calls), AccountKey(c, email));
    AgreesWithReference(c, clock, calls, ip, email, now);
  }

  // ------------------------------------------- two runs with room for one client

  lemma {:induction false} RunsOn(c: Config, s: State, r: Attempts, clock: int, calls: seq<Call>, call: Call)
    requires Runs(c, s, clock, calls)
    requires Possible(c, After(c, s, calls), call) && Clock(EndClock(clock, calls), call) >= EndClock(clock, calls)
    ensures Runs(c, s, clock, calls + [call])
    ensures After(c, s, calls + [call]) == Next(c, After(c, s, calls), call)
    ensures RefAfter(c, r, calls + [call]) == RefNext(c, RefAfter(c, r, calls), call)
    ensures EndClock(clock, calls + [call]) == Clock(EndClock(clock, calls), call)
    decreases |calls|
  {
    if calls == [] {
      assert [] + [call] == [call] && [call][1..] == [];
      assert Runs(c, Next(c, s, call), Clock(clock, call), []);
    } else {
      RunsOn(c, Next(c, s, calls[0]), RefNext(c, r, calls[0]), Clock(clock, calls[0]), calls[1..], call);
      assert (calls + [call])[1..] == calls[1..] + [call];
    }
  }

  /** The records a client's first failure leaves. */
  function FirstFailure(c: Config, now: int): Attempt {
    Bumped(c, Attempt(0, now, 0), now)
  }

  /** The table with the same record for both keys of a client. */
  function Pair(c: Config, ip: string, email: string, a: Attempt): Attempts {
    map[IpKey(ip) := a, AccountKey(c, email) := a]
  }

  /** Two clients that share neither address nor account. */
  predicate Strangers(c: Config, ip: string, email: string, ip2: string, email2: string) {
    IpKey(ip) != IpKey(ip2) && AccountKey(c, email) != AccountKey(c, email2)
  }

  predicate RoomForOneClient(c: Config) {
    c.maxTrackedKeys == 2 && c.window == 100 && c.backoff == 50
  }

  lemma FirstClient(c: Config, ip: string, email: string, now: int)
    requires RoomForOneClient(c)
    ensures var call := Fail(ip, email, now, ({}, {}));
      && Possible(c, EMPTY, call)
      && Next(c, EMPTY, call).attempts == Pair(c, ip, email, FirstFailure(c, now))
      && RefNext(c, map[], call) == Pair(c, ip, email, FirstFailure(c, now))
  {
    KeysDiffer(c, ip, email);
    assert Recorded(c, map[], IpKey(ip), now, {}) == map[IpKey(ip) := FirstFailure(c, now)];
  }

  /** A new key takes the place of the record that expires first. */
  lemma ReplacesOldest(c: Config, k: string, j: string, x: Attempt, y: Attempt, key: string, now: int)
    requires RoomForOneClient(c) && k != j && key !in {k, j}
    requires !Expired(c, x, now) && ExpiresAt(c, x) <= ExpiresAt(c, y)
    ensures var m := map[k := x, j := y];
      RecordEvicts(c, m, key, now, {k}) && Recorded(c, m, key, now, {k}) == map[j := y, key := FirstFailure(c, now)]
  {
    var m := map[k := x, j := y];
    TwoLive(c, k, j, x, y, now);
    assert m - {k} == map[j := y];
    assert WithRoom(c, m, now, {k}) == m - {k};
  }

  lemma TwoLive(c: Config, k: string, j: string, x: Attempt, y: Attempt, now: int)
    requires RoomForOneClient(c) && k != j && !Expired(c, x, now) && ExpiresAt(c, x) <= ExpiresAt(c, y)
    ensures var m := map[k := x, j := y];
      |m| == 2 && Cleaned(c, m, now) == m && EvictsFromLive(c, m, {k})
  {
    var m := map[k := x, j := y];
    assert m.Keys == {k, j} && |m| == |m.Keys|;
  }

  /** A second client's failure evicts both of the first one's records. */
  lemma Replaced(c: Config, s: State, ip: string, email: string, ip2: string, email2: string, x: Attempt, now: int)
    requires RoomForOneClient(c) && Strangers(c, ip, email, ip2, email2)
    requires s.attempts == Pair(c, ip, email, x)
    requires !Expired(c, x, now) && ExpiresAt(c, x) <= ExpiresAt(c, FirstFailure(c, now))
    ensures var call := Fail(ip2, email2, now, ({IpKey(ip)}, {AccountKey(c, email)}));
      && Possible(c, s, call)
      && Next(c, s, call).attempts == Pair(c, ip2, email2, FirstFailure(c, now))
  {
    var a, b, a2, b2 := IpKey(ip), AccountKey(c, email), IpKey(ip2), AccountKey(c, email2);
    KeysDiffer(c, ip, email);
    KeysDiffer(c, ip, email2);
    KeysDiffer(c, ip2, email);
    KeysDiffer(c, ip2, email2);
    assert Swept(c, s, now).attempts == s.attempts;
    ReplacesOldest(c, a, b, x, x, a2, now);
    ReplacesOldest(c, b, a2, x, FirstFailure(c, now), b2, now);
  }

  /** A further failure of the client whose live records fill the table. */
  lemma CountedAgain(c: Config, s: State, ip: string, email: string, x: Attempt, now: int)
    requires s.attempts == Pair(c, ip, email, x) && !Expired(c, x, now)
    ensures var call := Fail(ip, email, now, ({}, {}));
      Possible(c, s, call) && Next(c, s, call).attempts == Pair(c, ip, email, Bumped(c, x, now))
  {
    KeysDiffer(c, ip, email);
    assert Swept(c, s, now).attempts == s.attempts;
  }

  /** The reference holds `x` for both keys of a client. */
  predicate Holds(c: Config, r: Attempts, ip: string, email: string, x: Attempt) {
    IpKey(ip) in r && AccountKey(c, email) in r && r[IpKey(ip)] == x && r[AccountKey(c, email)] == x
  }

  lemma ReferenceHolds(c: Config, r: Attempts, ip: string, email: string, x: Attempt, call: Call)
    requires Holds(c, r, ip, email, x) && call.Fail?
    ensures Strangers(c, ip, email, call.ip, call.email) ==> Holds(c, RefNext(c, r, call), ip, email, x)
    ensures call.ip == ip && call.email == email ==>
      Holds(c, RefNext(c, r, call), ip, email, BumpedFrom(c, Still(c, Some(x), call.now), call.now))
  {
    KeysDiffer(c, ip, email);
    KeysDiffer(c, ip, call.email);
    KeysDiffer(c, call.ip, email);
    KeysDiffer(c, call.ip, call.email);
  }

  lemma Started(c: Config, s: State, r: Attempts, clock: int)
    ensures Runs(c, s, clock, []) && After(c, s, []) == s && RefAfter(c, r, []) == r && EndClock(clock, []) == clock
  {
  }

  /** The run of two clients that both examples begin with. */
  lemma TwoClients(c: Config, ip: string, email: string, ip2: string, email2: string) returns (calls: seq<Call>)
    requires RoomForOneClient(c) && Strangers(c, ip, email, ip2, email2)
    ensures Runs(c, EMPTY, 1, calls) && EndClock(1, calls) == 2
    ensures After(c, EMPTY, calls).attempts == Pair(c, ip2, email2, FirstFailure(c, 2))
    ensures Holds(c, RefAfter(c, map[], calls), ip, email, FirstFailure(c, 1))
  {
    var one, two := Fail(ip, email, 1, ({}, {})), Fail(ip2, email2, 2, ({IpKey(ip)}, {AccountKey(c, email)}));
    Started(c, EMPTY, map[], 1);
    FirstClient(c, ip, email, 1);
    RunsOn(c, EMPTY, map[], 1, [], one);
    var s := After(c, EMPTY, [] + [one]);
    Replaced(c, s, ip, email, ip2, email2, FirstFailure(c, 1), 2);
    RunsOn(c, EMPTY, map[], 1, [] + [one], two);
    calls := [] + [one] + [two];
    ReferenceHolds(c, RefNext(c, map[], one), ip, email, FirstFailure(c, 1), two);
  }

  /** An eviction can end a block: with maxFailures 1 the reference still blocks the
      first client, the limiter no longer does. */
  lemma EvictionCanEndABlock(c: Config, ip: string, email: string, ip2: string, email2: string) returns (calls: seq<Call>)
    requires RoomForOneClient(c) && c.maxFailures == 1 && Strangers(c, ip, email, ip2, email2)
    ensures Runs(c, EMPTY, 1, calls) && EndClock(1, calls) <= 3
    ensures RetryAfter(c, After(c, EMPTY, calls).attempts, ip, email, 3) == 0
    ensures RetryAfter(c, RefAfter(c, map[], calls), ip, email, 3) == 48
  {
    calls := TwoClients(c, ip, email, ip2, email2);
    KeysDiffer(c, ip, email2);
    KeysDiffer(c, ip2, email);
  }

  /** An eviction can start one, too: with maxFailures 3 the first client's record begins
      anew at 99, so that its failures at 102 and 103 fall into one window with it. */
  lemma EvictionCanStartABlock(c: Config, ip: string, email: string, ip2: string, email2: string) returns (calls: seq<Call>)
    requires RoomForOneClient(c) && c.maxFailures == 3 && Strangers(c, ip, email, ip2, email2)
    ensures Runs(c, EMPTY, 1, calls) && EndClock(1, calls) <= 104
    ensures RetryAfter(c, After(c, EMPTY, calls).attempts, ip, email, 104) == 49
    ensures RetryAfter(c, RefAfter(c, map[], calls), ip, email, 104) == 0
  {
    calls := BeginsAnew(c, ip, email, ip2, email2);
    calls := FailsAgain(c, calls, ip, email, Attempt(1, 99, 0), Attempt(2, 1, 0), 102);
    calls := FailsAgain(c, calls, ip, email, Attempt(2, 99, 0), Attempt(1, 102, 0), 103);
    KeysDiffer(c, ip, email);
  }

  lemma BeginsAnew(c: Config, ip: string, email: string, ip2: string, email2: string) returns (calls: seq<Call>)
    requires RoomForOneClient(c) && c.maxFailures == 3 && Strangers(c, ip, email, ip2, email2)
    ensures Runs(c, EMPTY, 1, calls) && EndClock(1, calls) == 99
    ensures After(c, EMPTY, calls).attempts == Pair(c, ip, email, Attempt(1, 99, 0))
    ensures Holds(c, RefAfter(c, map[], calls), ip, email, Attempt(2, 1, 0))
  {
    var two := TwoClients(c, ip, email, ip2, email2);
    var three := Fail(ip, email, 99, ({IpKey(ip2)}, {AccountKey(c, email2)}));
    Replaced(c, After(c, EMPTY, two), ip2, email2, ip, email, FirstFailure(c, 2), 99);
    ReferenceHolds(c, RefAfter(c, map[], two), ip, email, Attempt(1, 1, 0), three);
    RunsOn(c, EMPTY, map[], 1, two, three);
    calls := two + [three];
  }

  lemma FailsAgain(c: Config, calls: seq<Call>, ip: string, email: string, x: Attempt, y: Attempt, now: int)
      returns (longer: seq<Call>)
    requires Runs(c, EMPTY, 1, calls) && EndClock(1, calls) <= now
    requires After(c, EMPTY, calls).attempts == Pair(c, ip, email, x) && !Expired(c, x, now)
    requires Holds(c, RefAfter(c, map[], calls), ip, email, y)
    ensures Runs(c, EMPTY, 1, longer) && EndClock(1, longer) == now
    ensures After(c, EMPTY, longer).attempts == Pair(c, ip, email, Bumped(c, x, now))
    ensures Holds(c, RefAfter(c, map[], longer), ip, email, BumpedFrom(c, Still(c, Some(y), now), now))
  {
    var call := Fail(ip, email, now, ({}, {}));
    CountedAgain(c, After(c, EMPTY, calls), ip, email, x, now);
    ReferenceHolds(c, RefAfter(c, map[], calls), ip, email, y, call);
    RunsOn(c, EMPTY, map[], 1, calls, call);
    longer := calls + [call];
  }
}
