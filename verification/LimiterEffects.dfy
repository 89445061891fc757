/** What the limiter's calls do, in terms of addresses, accounts, counts and times: nothing
    here goes through the functions that the calls are specified by. */
module LimiterEffects {
  import opened Types
  import opened LimiterState
  import opened LimiterCalls
  import opened LimiterAgreement

  /** A record counts until its window and its block are both over. */
  predicate Counts(c: Config, a: Attempt, now: int) {
    now < a.windowStart + c.window || now < a.blockedUntil
  }

  lemma CountsUntilExpired(c: Config, a: Attempt, now: int)
    ensures Expired(c, a, now) <==> !Counts(c, a, now)
  {
  }

  /** The failures that count against a key. */
  function FailuresOf(c: Config, m: Attempts, key: string, now: int): int {
    if key in m && Counts(c, m[key], now) then m[key].failures else 0
  }

  // ------------------------------------------------------------------ the keys

  lemma SamePrefix(p: string, a: string, b: string)
    ensures p + a == p + b <==> a == b
  {
    assert (p + a)[|p|..] == a && (p + b)[|p|..] == b;
  }

  /** Two logins share a key exactly if they come from one address or are for one account,
      however that is spelled. */
  lemma KeysAreShared(c: Config, ip: string, email: string, ip2: string, email2: string)
    ensures IpKey(ip) == IpKey(ip2) <==> ip == ip2
    ensures AccountKey(c, email) == AccountKey(c, email2) <==> c.canonical(email) == c.canonical(email2)
    ensures IpKey(ip) != AccountKey(c, email2)
  {
    SamePrefix("ip:", ip, ip2);
    SamePrefix("account:", c.canonical(email), c.canonical(email2));
    KeysDiffer(c, ip, email2);
  }

  // ------------------------------------------------------------------- a check

  /** A check returns how long the longer block of the two keys still lasts, if any does. */
  lemma CheckReturnsLongestBlock(c: Config, m: Attempts, ip: string, email: string, now: int)
    ensures var d := RetryAfter(c, m, ip, email, now);
      var keys := {"ip:" + ip, "account:" + c.canonical(email)};
      && d >= 0
      && (forall k :: k in keys && k in m ==> d >= m[k].blockedUntil - now)
      && (d > 0 ==> exists k :: k in keys && k in m && d == m[k].blockedUntil - now)
  {
    var d := RetryAfter(c, m, ip, email, now);
    var keys := {"ip:" + ip, "account:" + c.canonical(email)};
    assert IpKey(ip) in keys && AccountKey(c, email) in keys;
    if d > 0 {
      var k := if d == Blocks(c, m, IpKey(ip), now) then IpKey(ip) else AccountKey(c, email);
      assert k in keys && k in m && d == m[k].blockedUntil - now;
    }
  }

  /** A check forgets records that no longer count, those of its own two keys at once,
      and nothing else. */
  lemma CheckForgetsOnlyExpired(c: Config, s: State, ip: string, email: string, now: int, k: string)
    ensures var after := Next(c, s, Check(ip, email, now)).attempts;
      && (k in after ==> k in s.attempts && after[k] == s.attempts[k])
      && (k in s.attempts && Counts(c, s.attempts[k], now) ==> k in after)
      && (k in {"ip:" + ip, "account:" + c.canonical(email)} && k in after ==> Counts(c, after[k], now))
  {
    if k in s.attempts { CountsUntilExpired(c, s.attempts[k], now); }
  }

  // ------------------------------------------------------------------ a failure

  /** What counts of a record, or an empty record begun now. */
  function Standing(c: Config, m: Attempts, k: string, now: int): Attempt {
    if k in m && Counts(c, m[k], now) then m[k] else Attempt(0, now, 0)
  }

  /** A failure adds one to the address's record and one to the account's, and from the
      maxFailures-th on blocks for a backoff from now. */
  lemma FailureCounts(c: Config, s: State, call: Call, k: string)
    requires c.window > 0 && c.backoff > 0
    requires call.Fail? && k in {"ip:" + call.ip, "account:" + c.canonical(call.email)}
    requires Possible(c, s, call) && k !in Evicted(call)
    ensures var after, a := Next(c, s, call).attempts, Standing(c, s.attempts, k, call.now);
      && k in after
      && after[k].failures == a.failures + 1 && after[k].windowStart == a.windowStart
      && after[k].blockedUntil == if a.failures + 1 >= c.maxFailures then call.now + c.backoff else a.blockedUntil
  {
    var first, second := IpKey(call.ip), AccountKey(c, call.email);
    KeysDiffer(c, call.ip, call.email);
    var m := Swept(c, s, call.now).attempts;
    var m1 := Recorded(c, m, first, call.now, call.ev.0);
    SweptStands(c, s, call.now, k);
    if k == first {
      RecordedAdds(c, m, first, call.now, call.ev.0);
      RecordedKeeps(c, m1, second, call.now, call.ev.1, k);
    } else {
      RecordedKeeps(c, m, first, call.now, call.ev.0, k);
      RecordedAdds(c, m1, second, call.now, call.ev.1);
    }
  }

  lemma SweptStands(c: Config, s: State, now: int, k: string)
    ensures Standing(c, Swept(c, s, now).attempts, k, now) == Standing(c, s.attempts, k, now)
  {
    if k in s.attempts { CountsUntilExpired(c, s.attempts[k], now); }
  }

  lemma RecordedAdds(c: Config, m: Attempts, key: string, now: int, ev: set<string>)
    ensures var after, a := Recorded(c, m, key, now, ev), Standing(c, m, key, now);
      && key in after
      && after[key].failures == a.failures + 1 && after[key].windowStart == a.windowStart
      && after[key].blockedUntil == (if a.failures + 1 >= c.maxFailures then now + c.backoff else a.blockedUntil)
      && (c.window > 0 && c.backoff > 0 ==> Counts(c, after[key], now))
  {
  }

  lemma RecordedKeeps(c: Config, m: Attempts, key: string, now: int, ev: set<string>, k: string)
    requires k != key && k !in ev
    ensures var after := Recorded(c, m, key, now, ev);
      && (k in after ==> k in m && after[k] == m[k])
      && (k in m && Counts(c, m[k], now) ==> k in after)
      && Standing(c, after, k, now) == Standing(c, m, k, now)
  {
    if k in m { CountsUntilExpired(c, m[k], now); }
  }

  /** And it leaves every other record that counts as it is, unless it evicts it. */
  lemma FailureLeavesOthers(c: Config, s: State, call: Call, k: string)
    requires call.Fail? && k !in {"ip:" + call.ip, "account:" + c.canonical(call.email)}
    requires k !in Evicted(call)
    ensures var after := Next(c, s, call).attempts;
      && (k in after ==> k in s.attempts && after[k] == s.attempts[k])
      && (k in s.attempts && Counts(c, s.attempts[k], call.now) ==> k in after)
  {
    var first, second := IpKey(call.ip), AccountKey(c, call.email);
    if k in s.attempts { CountsUntilExpired(c, s.attempts[k], call.now); }
    var m := Swept(c, s, call.now).attempts;
    RecordedKeeps(c, m, first, call.now, call.ev.0, k);
    RecordedKeeps(c, Recorded(c, m, first, call.now, call.ev.0), second, call.now, call.ev.1, k);
  }

  /** A success clears the address's and the account's record, and touches no other. */
  lemma SuccessClears(c: Config, s: State, ip: string, email: string, k: string)
    ensures var after := Next(c, s, Succeed(ip, email)).attempts;
      && (k in after <==> k in s.attempts && k != "ip:" + ip && k != "account:" + c.canonical(email))
      && (k in after ==> after[k] == s.attempts[k])
  {
  }

  // -------------------------------------------------- whom a call is held against

  /** A failure for one login counts against another login's address exactly if it is the
      same address, and against its account exactly if that is the same account. */
  lemma FailureCountsAgainst(c: Config, s: State, call: Call, ip2: string, email2: string)
    requires c.window > 0 && c.backoff > 0 && call.Fail? && Possible(c, s, call)
    requires IpKey(ip2) !in Evicted(call) && AccountKey(c, email2) !in Evicted(call)
    ensures var after, now := Next(c, s, call).attempts, call.now;
      && FailuresOf(c, after, IpKey(ip2), now)
           == FailuresOf(c, s.attempts, IpKey(ip2), now) + (if ip2 == call.ip then 1 else 0)
      && FailuresOf(c, after, AccountKey(c, email2), now)
           == FailuresOf(c, s.attempts, AccountKey(c, email2), now)
              + if c.canonical(email2) == c.canonical(call.email) then 1 else 0
  {
    KeysAreShared(c, call.ip, call.email, ip2, email2);
    KeysAreShared(c, ip2, email2, call.ip, call.email);
    KeyCounts(c, s, call, IpKey(ip2));
    KeyCounts(c, s, call, AccountKey(c, email2));
  }

  lemma KeyCounts(c: Config, s: State, call: Call, k: string)
    requires c.window > 0 && c.backoff > 0 && call.Fail? && Possible(c, s, call) && k !in Evicted(call)
    ensures FailuresOf(c, Next(c, s, call).attempts, k, call.now)
      == FailuresOf(c, s.attempts, k, call.now) + if k in {IpKey(call.ip), AccountKey(c, call.email)} then 1 else 0
  {
    if k in {IpKey(call.ip), AccountKey(c, call.email)} {
      FailureCounts(c, s, call, k);
    } else {
      FailureLeavesOthers(c, s, call, k);
    }
  }

  /** A login from another address for another account is answered after any call as it
      was before, unless one of its own two keys is evicted. */
  lemma StrangersAreUnaffected(c: Config, s: State, call: Call, ip2: string, email2: string, t: int)
    requires call.ip != ip2 && c.canonical(call.email) != c.canonical(email2)
    requires IpKey(ip2) !in Evicted(call) && AccountKey(c, email2) !in Evicted(call)
    requires !call.Succeed? ==> t >= call.now
    ensures RetryAfter(c, Next(c, s, call).attempts, ip2, email2, t) == RetryAfter(c, s.attempts, ip2, email2, t)
  {
    KeysAreShared(c, call.ip, call.email, ip2, email2);
    KeysAreShared(c, ip2, email2, call.ip, call.email);
    NextLookup(c, s, call, IpKey(ip2), t);
    NextLookup(c, s, call, AccountKey(c, email2), t);
  }

  /** All spellings of an account get the same answer. */
  lemma SpellingsAreAnsweredAlike(c: Config, m: Attempts, ip: string, email: string, email2: string, now: int)
    requires c.canonical(email) == c.canonical(email2)
    ensures RetryAfter(c, m, ip, email, now) == RetryAfter(c, m, ip, email2, now)
  {
    KeysAreShared(c, ip, email, ip, email2);
  }

  /** A failure that is at least the maxFailures-th of an account blocks every spelling of
      it, from every address, for the backoff. */
  lemma AccountIsBlockedEverywhere(c: Config, s: State, call: Call, ip2: string, email2: string, t: int)
    requires c.window > 0 && c.backoff > 0 && call.Fail? && Possible(c, s, call) && t >= call.now
    requires c.canonical(email2) == c.canonical(call.email) && AccountKey(c, call.email) !in Evicted(call)
    requires FailuresOf(c, s.attempts, AccountKey(c, call.email), call.now) + 1 >= c.maxFailures
    ensures RetryAfter(c, Next(c, s, call).attempts, ip2, email2, t) >= call.now + c.backoff - t
  {
    KeysAreShared(c, call.ip, call.email, ip2, email2);
    FailureCounts(c, s, call, AccountKey(c, call.email));
    CheckReturnsLongestBlock(c, Next(c, s, call).attempts, ip2, email2, t);
  }

  // ------------------------------------------------------------------- clean-up

  /** A check or a failure cleans up exactly if none has within the last interval, and
      sets the next time; a check that does not clean up drops only records of its keys. */
  lemma CleansUpOncePerInterval(c: Config, s: State, call: Call)
    requires !call.Succeed?
    ensures var due, after := s.nextCleanup == 0 || call.now >= s.nextCleanup, Next(c, s, call);
      && after.nextCleanup == (if due then call.now + c.cleanupInterval else s.nextCleanup)
      && (call.Check? && !due ==>
            forall k :: k in s.attempts && k != "ip:" + call.ip && k != "account:" + c.canonical(call.email) ==> k in after.attempts)
      && (call.Check? && due ==> forall k :: k in after.attempts ==> Counts(c, after.attempts[k], call.now))
  {
    forall k | k in s.attempts ensures Expired(c, s.attempts[k], call.now) <==> !Counts(c, s.attempts[k], call.now) {
      CountsUntilExpired(c, s.attempts[k], call.now);
    }
  }

  /** There is room for a new key exactly if fewer records than the cap still count. */
  lemma RoomIsForThoseThatCount(c: Config, m: Attempts, key: string, now: int, ev: set<string>)
    requires c.maxTrackedKeys >= 1 && RecordEvicts(c, m, key, now, ev)
    ensures ev == {} <==> key in m || |set k | k in m && Counts(c, m[k], now)| < c.maxTrackedKeys
  {
    forall k | k in m ensures Expired(c, m[k], now) <==> !Counts(c, m[k], now) {
      CountsUntilExpired(c, m[k], now);
    }
    assert Cleaned(c, m, now).Keys == set k | k in m && Counts(c, m[k], now);
    assert |Cleaned(c, m, now)| == |Cleaned(c, m, now).Keys|;
    EvictsExactlyWithoutRoom(c, m, key, now, ev);
  }

  /** Clean-up has a time when it last ran, at the earliest at the start; every record
      still counted then, or has been written to since. */
  ghost predicate SweptSince(c: Config, s: State, clock: int) {
    if s.nextCleanup == 0 then s.attempts == map[]
    else
      && s.nextCleanup - c.cleanupInterval <= clock
      && forall k :: k in s.attempts ==> Counts(c, s.attempts[k], s.nextCleanup - c.cleanupInterval)
  }

  lemma SweptIsSwept(c: Config, s: State, clock: int, now: int)
    requires c.cleanupInterval > 0 && SweptSince(c, s, clock) && clock <= now && now >= 0
    ensures var swept := Swept(c, s, now);
      && swept.nextCleanup > now && swept.nextCleanup - c.cleanupInterval <= now
      && forall k :: k in swept.attempts ==> Counts(c, swept.attempts[k], swept.nextCleanup - c.cleanupInterval)
  {
    forall k | k in s.attempts ensures Expired(c, s.attempts[k], now) <==> !Counts(c, s.attempts[k], now) {
      CountsUntilExpired(c, s.attempts[k], now);
    }
  }

  lemma RecordedStaysSwept(c: Config, m: Attempts, key: string, now: int, ev: set<string>, since: int)
    requires c.window > 0 && c.backoff > 0 && since <= now
    requires forall k :: k in m ==> Counts(c, m[k], since)
    ensures forall k :: k in Recorded(c, m, key, now, ev) ==> Counts(c, Recorded(c, m, key, now, ev)[k], since)
  {
  }

  lemma NextStaysSwept(c: Config, s: State, clock: int, call: Call)
    requires c.cleanupInterval > 0 && c.window > 0 && c.backoff > 0 && clock >= 0
    requires SweptSince(c, s, clock) && Clock(clock, call) >= clock
    ensures SweptSince(c, Next(c, s, call), Clock(clock, call))
    ensures !call.Succeed? ==> Next(c, s, call).nextCleanup > call.now
  {
    if !call.Succeed? {
      SweptIsSwept(c, s, clock, call.now);
      if call.Fail? {
        var swept, first := Swept(c, s, call.now), IpKey(call.ip);
        var since := swept.nextCleanup - c.cleanupInterval;
        RecordedStaysSwept(c, swept.attempts, first, call.now, call.ev.0, since);
        RecordedStaysSwept(c, Recorded(c, swept.attempts, first, call.now, call.ev.0),
                           AccountKey(c, call.email), call.now, call.ev.1, since);
      }
    }
  }

  lemma {:induction false} RunStaysSwept(c: Config, s: State, clock: int, calls: seq<Call>)
    requires c.cleanupInterval > 0 && c.window > 0 && c.backoff > 0 && clock >= 0
    requires SweptSince(c, s, clock) && Runs(c, s, clock, calls)
    ensures SweptSince(c, After(c, s, calls), EndClock(clock, calls)) && EndClock(clock, calls) >= clock
    decreases |calls|
  {
    if calls != [] {
      NextStaysSwept(c, s, clock, calls[0]);
      RunStaysSwept(c, Next(c, s, calls[0]), Clock(clock, calls[0]), calls[1..]);
    }
  }

  /** No record outlives what it counts for by a clean-up interval: after every check or
      failure, in every run, each record that is tracked still counted an interval before. */
  lemma RecordsGoWithinAnInterval(c: Config, calls: seq<Call>, call: Call, k: string)
    requires c.cleanupInterval > 0 && c.window > 0 && c.backoff > 0 && Runs(c, EMPTY, 0, calls)
    requires !call.Succeed? && call.now >= EndClock(0, calls) && Possible(c, After(c, EMPTY, calls), call)
    requires k in Next(c, After(c, EMPTY, calls), call).attempts
    ensures Counts(c, Next(c, After(c, EMPTY, calls), call).attempts[k], call.now - c.cleanupInterval)
  {
    RunStaysSwept(c, EMPTY, 0, calls);
    NextStaysSwept(c, After(c, EMPTY, calls), EndClock(0, calls), call);
  }
}
