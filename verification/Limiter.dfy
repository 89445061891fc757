/** The login limiter of backend/internal/auth/limiter.go: its map as a value, what
    each call does to it, and the imperative limiter that is proved to do just that.
    Times are nanoseconds since Go's zero `time.Time`, so the zero time is 0. */
module LimiterState {
  import opened Types

  datatype Attempt = Attempt(failures: int, windowStart: int, blockedUntil: int)

  type Attempts = map<string, Attempt>

  /** `canonical` is `strings.ToLower(strings.TrimSpace(_))`, a library function. */
  datatype Config = Config(
    maxFailures: int,
    window: int,
    backoff: int,
    maxTrackedKeys: int,
    cleanupInterval: int,
    canonical: string -> string)

  datatype State = State(attempts: Attempts, nextCleanup: int)

  function IpKey(ip: string): string {
    "ip:" + ip
  }

  function AccountKey(c: Config, email: string): string {
    "account:" + c.canonical(email)
  }

  function Keys(c: Config, ip: string, email: string): seq<string> {
    [IpKey(ip), AccountKey(c, email)]
  }

  function ExpiresAt(c: Config, a: Attempt): int {
    if a.blockedUntil > a.windowStart + c.window then a.blockedUntil else a.windowStart + c.window
  }

  predicate Expired(c: Config, a: Attempt, now: int) {
    now >= ExpiresAt(c, a)
  }

  function Cleaned(c: Config, m: Attempts, now: int): Attempts {
    map k | k in m && !Expired(c, m[k], now) :: m[k]
  }

  /** The clean-up every timed call starts with, at most once per interval. */
  function Swept(c: Config, s: State, now: int): State {
    if s.nextCleanup != 0 && now < s.nextCleanup then s
    else State(Cleaned(c, s.attempts, now), now + c.cleanupInterval)
  }

  function DropExpired(c: Config, m: Attempts, key: string, now: int): Attempts {
    if key in m && Expired(c, m[key], now) then m - {key} else m
  }

  /** How many keys recording a failure for `key` adds. */
  function NewKey(m: Attempts, key: string): nat {
    if key in m then 0 else 1
  }

  /** The record that still counts for `key` at time `now`. */
  function LiveAt(c: Config, m: Attempts, key: string, now: int): Option<Attempt> {
    if key in m && !Expired(c, m[key], now) then Some(m[key]) else None
  }

  function Max(a: int, b: int): int {
    if a >= b then a else b
  }

  /** How long the record of `key` still blocks a login: never negative. */
  function Blocks(c: Config, m: Attempts, key: string, now: int): int {
    match LiveAt(c, m, key, now)
    case Some(a) => Max(0, a.blockedUntil - now)
    case None => 0
  }

  function RetryAfter(c: Config, m: Attempts, ip: string, email: string, now: int): int {
    Max(Blocks(c, m, IpKey(ip), now), Blocks(c, m, AccountKey(c, email), now))
  }

  function Checked(c: Config, s: State, ip: string, email: string, now: int): State {
    var swept := Swept(c, s, now);
    var m := DropExpired(c, swept.attempts, IpKey(ip), now);
    swept.(attempts := DropExpired(c, m, AccountKey(c, email), now))
  }

  /** One more failure at `now`. */
  function Bumped(c: Config, a: Attempt, now: int): Attempt {
    var n := a.failures + 1;
    Attempt(n, a.windowStart, if n >= c.maxFailures then now + c.backoff else a.blockedUntil)
  }

  /** How many of `n` live records `makeRoomLocked` evicts. */
  function Excess(n: nat, max: int): nat {
    if n < max then 0 else if max >= 1 then n - max + 1 else n
  }

  ghost predicate IsOldest(c: Config, m: Attempts, key: string) {
    key in m && forall k :: k in m ==> ExpiresAt(c, m[key]) <= ExpiresAt(c, m[k])
  }

  ghost predicate FirstToExpire(c: Config, live: Attempts, ev: set<string>) {
    forall k, j :: k in ev && k in live && j in live && j !in ev ==> ExpiresAt(c, live[k]) <= ExpiresAt(c, live[j])
  }

  ghost predicate EvictsFromLive(c: Config, live: Attempts, ev: set<string>) {
    ev <= live.Keys && |ev| == Excess(|live|, c.maxTrackedKeys) && FirstToExpire(c, live, ev)
  }

  /** `ev` is what `makeRoomLocked` may evict: just as many live records as needed,
      none of them expiring after a record that is kept. The map's iteration order
      decides between equal expiries. */
  ghost predicate Evicts(c: Config, m: Attempts, now: int, ev: set<string>) {
    if |m| < c.maxTrackedKeys then ev == {}
    else EvictsFromLive(c, Cleaned(c, m, now), ev)
  }

  function WithRoom(c: Config, m: Attempts, now: int, ev: set<string>): Attempts {
    if |m| < c.maxTrackedKeys then m else Cleaned(c, m, now) - ev
  }

  ghost predicate RecordEvicts(c: Config, m: Attempts, key: string, now: int, ev: set<string>) {
    if key in m then ev == {} else Evicts(c, m, now, ev)
  }

  /** A failure counted for `key`; a missing or expired record starts afresh. */
  function Recorded(c: Config, m: Attempts, key: string, now: int, ev: set<string>): Attempts {
    var unused := Attempt(0, now, 0);
    if key !in m then WithRoom(c, m, now, ev)[key := Bumped(c, unused, now)]
    else m[key := Bumped(c, if Expired(c, m[key], now) then unused else m[key], now)]
  }

  /** Whether `RecordFailure` may evict `ev[0]` for the address and `ev[1]` for the account. */
  ghost predicate FailureEvicts(c: Config, s: State, ip: string, email: string, now: int, ev: (set<string>, set<string>)) {
    var m := Swept(c, s, now).attempts;
    RecordEvicts(c, m, IpKey(ip), now, ev.0)
    && RecordEvicts(c, Recorded(c, m, IpKey(ip), now, ev.0), AccountKey(c, email), now, ev.1)
  }

  function Failed(c: Config, s: State, ip: string, email: string, now: int, ev: (set<string>, set<string>)): State {
    var swept := Swept(c, s, now);
    var m := Recorded(c, swept.attempts, IpKey(ip), now, ev.0);
    swept.(attempts := Recorded(c, m, AccountKey(c, email), now, ev.1))
  }

  function Succeeded(c: Config, s: State, ip: string, email: string): State {
    s.(attempts := s.attempts - {IpKey(ip), AccountKey(c, email)})
  }

  lemma KeysDiffer(c: Config, ip: string, email: string)
    ensures IpKey(ip) != AccountKey(c, email)
    ensures IpKey(ip) != "" && AccountKey(c, email) != ""
  {
    assert IpKey(ip)[0] == 'i' && AccountKey(c, email)[0] == 'a';
  }

  lemma SizeWith(m: Attempts, key: string, a: Attempt)
    ensures |m[key := a]| == |m| + NewKey(m, key)
  {
    assert m[key := a].Keys == m.Keys + {key};
    assert |m[key := a]| == |m[key := a].Keys|;
  }

  lemma SizeWithout(m: Attempts, key: string)
    requires key in m
    ensures |m - {key}| == |m| - 1
  {
    SizeWithoutAll(m, {key});
  }

  lemma SizeWithoutAll(m: Attempts, gone: set<string>)
    requires gone <= m.Keys
    ensures |m - gone| == |m| - |gone|
  {
    assert (m - gone).Keys == m.Keys - gone;
    assert |m - gone| == |(m - gone).Keys|;
  }

  lemma CleanedSize(c: Config, m: Attempts, now: int)
    ensures |Cleaned(c, m, now)| <= |m|
  {
    SubsetSize(Cleaned(c, m, now).Keys, m.Keys);
  }
}

module LoginLimiterCode {
  import opened Types
  import opened LimiterState

  const TWO_64 := 0x1_0000_0000_0000_0000

  datatype Metrics = Metrics(failed: int, rateLimited: int, tracked: int, evicted: int)

  class LoginAttemptLimiter {
    const config: Config
    var attempts: Attempts
    var nextCleanup: int
    // The counters are 64 bits wide; what is read of them is their value modulo 2^64.
    var failedAttemptsTotal: nat
    var rateLimitedAttemptsTotal: nat
    var evictedKeysTotal: nat

    // Keys ever put into the map, and where those that were not evicted went.
    ghost var inserted: nat
    ghost var expired: nat
    ghost var cleared: nat

    /** Every key ever inserted is accounted for, and no key is the empty string
        that `makeRoomLocked` uses for "none yet". */
    ghost predicate Accounted()
      reads this
    {
      && "" !in attempts
      && inserted == |attempts| + evictedKeysTotal + expired + cleared
    }

    ghost predicate Valid()
      reads this
    {
      Accounted() && (config.maxTrackedKeys >= 1 ==> |attempts| <= config.maxTrackedKeys)
    }

    ghost function View(): State
      reads this
    {
      State(attempts, nextCleanup)
    }

    constructor (config: Config)
      ensures this.config == config && Valid() && View() == State(map[], 0)
      ensures inserted == failedAttemptsTotal == rateLimitedAttemptsTotal == 0
    {
      this.config := config;
      attempts, nextCleanup := map[], 0;
      failedAttemptsTotal, rateLimitedAttemptsTotal, evictedKeysTotal := 0, 0, 0;
      inserted, expired, cleared := 0, 0, 0;
    }

    method CleanupExpired(now: int)
      requires Accounted()
      modifies this`attempts, this`expired
      ensures Accounted() && attempts == Cleaned(config, old(attempts), now)
    {
      ghost var was := attempts;
      var todo := attempts.Keys;
      while todo != {}
        invariant todo <= was.Keys
        invariant forall k :: k in attempts <==> k in was && (k in todo || !Expired(config, was[k], now))
        invariant forall k :: k in attempts ==> attempts[k] == was[k]
        invariant Accounted()
        decreases todo
      {
        var key :| key in todo;
        if Expired(config, attempts[key], now) {
          attempts := attempts - {key};
          expired := expired + 1;
        }
        todo := todo - {key};
      }
    }

    method CleanupIfDue(now: int)
      requires Valid()
      modifies this`attempts, this`expired, this`nextCleanup
      ensures Valid() && View() == Swept(config, old(View()), now)
    {
      if nextCleanup != 0 && now < nextCleanup { return; }
      ghost var was := attempts;
      CleanupExpired(now);
      CleanedSize(config, was, now);
      nextCleanup := now + config.cleanupInterval;
    }

    /** The scan for the record that expires first. */
    method Oldest() returns (oldestKey: string)
      requires "" !in attempts
      ensures oldestKey == "" <==> attempts == map[]
      ensures oldestKey != "" ==> IsOldest(config, attempts, oldestKey)
    {
      oldestKey := "";
      var oldestExpiry := 0;
      var todo := attempts.Keys;
      while todo != {}
        invariant todo <= attempts.Keys
        invariant oldestKey == "" ==> todo == attempts.Keys
        invariant oldestKey != "" ==>
          && oldestKey in attempts && oldestExpiry == ExpiresAt(config, attempts[oldestKey])
          && forall k :: k in attempts && k !in todo ==> oldestExpiry <= ExpiresAt(config, attempts[k])
        decreases todo
      {
        var key :| key in todo;
        var expiresAt := ExpiresAt(config, attempts[key]);
        if oldestKey == "" || expiresAt < oldestExpiry {
          oldestKey, oldestExpiry := key, expiresAt;
        }
        todo := todo - {key};
      }
    }

    method Evict(key: string)
      requires Accounted() && key in attempts
      modifies this`attempts, this`evictedKeysTotal
      ensures Accounted() && attempts == old(attempts) - {key}
      ensures |attempts| == |old(attempts)| - 1 && evictedKeysTotal == old(evictedKeysTotal) + 1
    {
      SizeWithout(attempts, key);
      attempts := attempts - {key};
      evictedKeysTotal := evictedKeysTotal + 1;
    }

    /** The eviction loop of `makeRoomLocked`. */
    method EvictOldest() returns (ghost ev: set<string>)
      requires Accounted()
      modifies this`attempts, this`evictedKeysTotal
      ensures Accounted()
      ensures EvictsFromLive(config, old(attempts), ev)
      ensures attempts == old(attempts) - ev && evictedKeysTotal == old(evictedKeysTotal) + |ev|
    {
      ghost var live := attempts;
      ev := {};
      while |attempts| >= config.maxTrackedKeys
        invariant Accounted()
        invariant ev <= live.Keys && attempts == live - ev && |attempts| == |live| - |ev|
        invariant ev == {} || |attempts| >= config.maxTrackedKeys - 1
        invariant FirstToExpire(config, live, ev)
        invariant evictedKeysTotal == old(evictedKeysTotal) + |ev|
        decreases |attempts|
      {
        var oldestKey := Oldest();
        if oldestKey == "" { return; }
        Evict(oldestKey);
        FirstToExpireGrows(config, live, ev, oldestKey);
        ev := ev + {oldestKey};
      }
    }

    method MakeRoom(now: int) returns (ghost ev: set<string>)
      requires Accounted()
      modifies this`attempts, this`expired, this`evictedKeysTotal
      ensures Accounted()
      ensures Evicts(config, old(attempts), now, ev)
      ensures attempts == WithRoom(config, old(attempts), now, ev)
      ensures evictedKeysTotal == old(evictedKeysTotal) + |ev|
    {
      ev := {};
      if |attempts| < config.maxTrackedKeys { return; }
      CleanupExpired(now);
      ev := EvictOldest();
    }

    /** One turn of the loop in `RetryAfter`. */
    method CheckKey(key: string, now: int, longest: int) returns (r: int)
      requires Valid() && longest >= 0
      modifies this`attempts, this`expired
      ensures Valid() && attempts == DropExpired(config, old(attempts), key, now)
      ensures r == Max(longest, Blocks(config, old(attempts), key, now))
    {
      r := longest;
      if key !in attempts { return; }
      var attempt := attempts[key];
      if Expired(config, attempt, now) {
        SizeWithout(attempts, key);
        attempts := attempts - {key};
        expired := expired + 1;
        return;
      }
      var remaining := attempt.blockedUntil - now;
      if remaining > longest { r := remaining; }
    }

    /** The loop over the two keys is written out. */
    method RetryAfter(ip: string, email: string, now: int) returns (longest: int)
      requires Valid()
      modifies this`attempts, this`expired, this`nextCleanup
      ensures Valid() && View() == Checked(config, old(View()), ip, email, now)
      ensures longest == LimiterState.RetryAfter(config, old(attempts), ip, email, now)
    {
      var keys := Keys(config, ip, email);
      KeysDiffer(config, ip, email);
      SweptKeepsBlocks(config, View(), keys[0], now);
      SweptKeepsBlocks(config, View(), keys[1], now);
      CleanupIfDue(now);
      longest := CheckKey(keys[0], now, 0);
      longest := CheckKey(keys[1], now, longest);
    }

    method Record(key: string, now: int) returns (ghost ev: set<string>)
      requires Valid() && key != ""
      modifies this`attempts, this`expired, this`inserted, this`evictedKeysTotal
      ensures Valid()
      ensures RecordEvicts(config, old(attempts), key, now, ev)
      ensures attempts == Recorded(config, old(attempts), key, now, ev)
      ensures evictedKeysTotal == old(evictedKeysTotal) + |ev| && (config.maxTrackedKeys >= 1 ==> |ev| <= 1)
      ensures inserted == old(inserted) + NewKey(old(attempts), key)
    {
      ev := {};
      ghost var was := attempts;
      var attempt := Attempt(0, now, 0);
      if key in attempts {
        if !Expired(config, attempts[key], now) { attempt := attempts[key]; }
      } else {
        ev := MakeRoom(now);
        RoomIsMade(config, was, now, ev);
        inserted := inserted + 1;
      }
      ghost var counted := attempt;
      attempt := attempt.(failures := attempt.failures + 1);
      if attempt.failures >= config.maxFailures {
        attempt := attempt.(blockedUntil := now + config.backoff);
      }
      assert attempt == Bumped(config, counted, now);
      SizeWith(attempts, key, attempt);
      attempts := attempts[key := attempt];
      assert attempts == Recorded(config, was, key, now, ev);
    }

    /** The loop of `RecordFailure` over the two keys, written out. */
    method RecordBoth(ip: string, email: string, now: int) returns (ghost ev: (set<string>, set<string>))
      requires Valid()
      modifies this`attempts, this`expired, this`inserted, this`evictedKeysTotal
      ensures Valid()
      ensures RecordEvicts(config, old(attempts), IpKey(ip), now, ev.0)
      ensures var m := Recorded(config, old(attempts), IpKey(ip), now, ev.0);
        && RecordEvicts(config, m, AccountKey(config, email), now, ev.1)
        && attempts == Recorded(config, m, AccountKey(config, email), now, ev.1)
        && inserted == old(inserted) + NewKey(old(attempts), IpKey(ip)) + NewKey(m, AccountKey(config, email))
      ensures evictedKeysTotal == old(evictedKeysTotal) + |ev.0| + |ev.1|
    {
      KeysDiffer(config, ip, email);
      var keys := Keys(config, ip, email);
      ghost var first := Record(keys[0], now);
      ghost var second := Record(keys[1], now);
      ev := (first, second);
    }

    method RecordFailure(ip: string, email: string, now: int) returns (ghost ev: (set<string>, set<string>))
      requires Valid()
      modifies this`failedAttemptsTotal, this`attempts, this`nextCleanup, this`expired, this`inserted, this`evictedKeysTotal
      ensures Valid() && FailureEvicts(config, old(View()), ip, email, now, ev)
      ensures View() == Failed(config, old(View()), ip, email, now, ev)
      ensures evictedKeysTotal == old(evictedKeysTotal) + |ev.0| + |ev.1|
      ensures var m := Swept(config, old(View()), now).attempts;
        inserted == old(inserted) + NewKey(m, IpKey(ip))
          + NewKey(Recorded(config, m, IpKey(ip), now, ev.0), AccountKey(config, email))
      ensures failedAttemptsTotal == old(failedAttemptsTotal) + 1
    {
      failedAttemptsTotal := failedAttemptsTotal + 1;
      CleanupIfDue(now);
      ev := RecordBoth(ip, email, now);
    }

    method RecordRateLimited()
      modifies this`rateLimitedAttemptsTotal
      ensures rateLimitedAttemptsTotal == old(rateLimitedAttemptsTotal) + 1
    {
      rateLimitedAttemptsTotal := rateLimitedAttemptsTotal + 1;
    }

    method RecordSuccess(ip: string, email: string)
      requires Valid()
      modifies this`attempts, this`cleared
      ensures Valid() && View() == Succeeded(config, old(View()), ip, email)
      ensures cleared == old(cleared) + |old(attempts).Keys * {IpKey(ip), AccountKey(config, email)}|
    {
      var keys := Keys(config, ip, email);
      ghost var gone := attempts.Keys * {keys[0], keys[1]};
      assert attempts - {keys[0], keys[1]} == attempts - gone;
      SizeWithoutAll(attempts, gone);
      attempts := attempts - {keys[0], keys[1]};
      cleared := cleared + |gone|;
    }

    method ReadMetrics() returns (r: Metrics)
      requires Valid()
      ensures r.failed == failedAttemptsTotal % TWO_64 && r.rateLimited == rateLimitedAttemptsTotal % TWO_64
      ensures r.tracked == |attempts| == inserted - evictedKeysTotal - expired - cleared
      ensures r.evicted == evictedKeysTotal % TWO_64
    {
      r := Metrics(failedAttemptsTotal % TWO_64, rateLimitedAttemptsTotal % TWO_64, |attempts|, evictedKeysTotal % TWO_64);
    }
  }

  lemma SweptKeepsBlocks(c: Config, s: State, key: string, now: int)
    ensures Blocks(c, Swept(c, s, now).attempts, key, now) == Blocks(c, s.attempts, key, now)
  {
  }

  lemma FirstToExpireGrows(c: Config, live: Attempts, ev: set<string>, key: string)
    requires ev <= live.Keys && FirstToExpire(c, live, ev) && IsOldest(c, live - ev, key)
    ensures FirstToExpire(c, live, ev + {key})
    ensures live - (ev + {key}) == (live - ev) - {key}
    ensures |ev + {key}| == |ev| + 1
  {
    forall k, j | k in ev + {key} && k in live && j in live && j !in ev + {key}
      ensures ExpiresAt(c, live[k]) <= ExpiresAt(c, live[j])
    {
      assert j in live - ev;
    }
  }

  /** After making room there is space for one more key. */
  lemma RoomIsMade(c: Config, m: Attempts, now: int, ev: set<string>)
    requires Evicts(c, m, now, ev) && (c.maxTrackedKeys >= 1 ==> |m| <= c.maxTrackedKeys)
    ensures c.maxTrackedKeys >= 1 ==> |WithRoom(c, m, now, ev)| < c.maxTrackedKeys && |ev| <= 1
  {
    if |m| >= c.maxTrackedKeys {
      var live := Cleaned(c, m, now);
      CleanedSize(c, m, now);
      assert (live - ev).Keys == live.Keys - ev;
      assert |live - ev| == |(live - ev).Keys| == |live.Keys| - |ev|;
    }
  }
}
