/** What the login limiter guarantees over sequences of calls. */
module LimiterCalls {
  import opened Types
  import opened LimiterState

  /** A call, with the evictions that the map's iteration order decided. */
  datatype Call =
    | Check(ip: string, email: string, now: int)
    | Fail(ip: string, email: string, now: int, ev: (set<string>, set<string>))
    | Succeed(ip: string, email: string)

  ghost predicate Possible(c: Config, s: State, call: Call) {
    call.Fail? ==> FailureEvicts(c, s, call.ip, call.email, call.now, call.ev)
  }

  function Next(c: Config, s: State, call: Call): State {
    match call
    case Check(ip, email, now) => Checked(c, s, ip, email, now)
    case Fail(ip, email, now, ev) => Failed(c, s, ip, email, now, ev)
    case Succeed(ip, email) => Succeeded(c, s, ip, email)
  }

  function Touched(c: Config, call: Call): set<string> {
    {IpKey(call.ip), AccountKey(c, call.email)}
  }

  function Evicted(call: Call): set<string> {
    if call.Fail? then call.ev.0 + call.ev.1 else {}
  }

  function Clock(clock: int, call: Call): int {
    if call.Succeed? then clock else call.now
  }

  /** A sequence of calls whose times do not go back. */
  ghost predicate Runs(c: Config, s: State, clock: int, calls: seq<Call>)
    decreases |calls|
  {
    calls == [] ||
    (Possible(c, s, calls[0]) && Clock(clock, calls[0]) >= clock
     && Runs(c, Next(c, s, calls[0]), Clock(clock, calls[0]), calls[1..]))
  }

  function After(c: Config, s: State, calls: seq<Call>): State
    decreases |calls|
  {
    if calls == [] then s else After(c, Next(c, s, calls[0]), calls[1..])
  }

  function EndClock(clock: int, calls: seq<Call>): int
    decreases |calls|
  {
    if calls == [] then clock else EndClock(Clock(clock, calls[0]), calls[1..])
  }

  const EMPTY := State(map[], 0)

  // ----------------------------------------- what one call does to one record

  /** `a` if it still counts at time `t`. */
  function Still(c: Config, a: Option<Attempt>, t: int): Option<Attempt> {
    if a.Some? && !Expired(c, a.value, t) then a else None
  }

  function BumpedFrom(c: Config, a: Option<Attempt>, now: int): Attempt {
    Bumped(c, if a.Some? then a.value else Attempt(0, now, 0), now)
  }

  lemma RecordedLookup(c: Config, m: Attempts, key: string, now: int, ev: set<string>, k: string, t: int)
    requires t >= now && k !in ev
    ensures LiveAt(c, Recorded(c, m, key, now, ev), k, t) ==
      if k == key then Still(c, Some(BumpedFrom(c, LiveAt(c, m, k, now), now)), t) else LiveAt(c, m, k, t)
  {
  }

  lemma FailedLookup(c: Config, s: State, call: Call, k: string, t: int)
    requires call.Fail? && t >= call.now && k !in Evicted(call)
    ensures LiveAt(c, Next(c, s, call).attempts, k, t) ==
      if k in Touched(c, call) then Still(c, Some(BumpedFrom(c, LiveAt(c, s.attempts, k, call.now), call.now)), t)
      else LiveAt(c, s.attempts, k, t)
  {
    var first, second := IpKey(call.ip), AccountKey(c, call.email);
    KeysDiffer(c, call.ip, call.email);
    var swept := Swept(c, s, call.now);
    var m := Recorded(c, swept.attempts, first, call.now, call.ev.0);
    RecordedLookup(c, swept.attempts, first, call.now, call.ev.0, k, t);
    RecordedLookup(c, swept.attempts, first, call.now, call.ev.0, k, call.now);
    RecordedLookup(c, m, second, call.now, call.ev.1, k, t);
  }

  /** Unless `k` is evicted: a failure bumps its record or starts one, a success
      removes it, and all else leaves it alone until it expires. */
  lemma NextLookup(c: Config, s: State, call: Call, k: string, t: int)
    requires k !in Evicted(call) && (!call.Succeed? ==> t >= call.now)
    ensures LiveAt(c, Next(c, s, call).attempts, k, t) ==
      if k !in Touched(c, call) || call.Check? then LiveAt(c, s.attempts, k, t)
      else if call.Succeed? then None
      else Still(c, Some(BumpedFrom(c, LiveAt(c, s.attempts, k, call.now), call.now)), t)
  {
    if call.Fail? {
      FailedLookup(c, s, call, k, t);
    }
  }

  /** A failure changes how long a key blocks exactly from the maxFailures-th failure
      of its live record on: then the key blocks for a backoff from now. */
  lemma FailureStartsBlock(c: Config, m: Attempts, key: string, now: int, ev: set<string>, t: int)
    requires t >= now >= 0
    ensures Blocks(c, Recorded(c, m, key, now, ev), key, t) ==
      var before := LiveAt(c, m, key, now);
      if (if before.Some? then before.value.failures else 0) + 1 >= c.maxFailures then Max(0, now + c.backoff - t)
      else Blocks(c, m, key, t)
  {
  }

  // ---------------------------------------------------------------- the bound

  /** An insertion into a map within the cap evicts at most one record, which is
      still live and expires no later than any record that is kept. */
  lemma InsertionEvictsAtMostOne(c: Config, m: Attempts, key: string, now: int, ev: set<string>)
    requires c.maxTrackedKeys >= 1 && |m| <= c.maxTrackedKeys && RecordEvicts(c, m, key, now, ev)
    ensures |ev| <= 1 && (ev != {} ==> key !in m && |m| == c.maxTrackedKeys)
    ensures forall k :: k in ev ==>
      && LiveAt(c, m, k, now).Some?
      && forall j :: j != key && j in Recorded(c, m, key, now, ev) ==> ExpiresAt(c, m[k]) <= ExpiresAt(c, m[j])
    ensures |Recorded(c, m, key, now, ev)| <= c.maxTrackedKeys
  {
    if key in m {
      SizeWith(m, key, Recorded(c, m, key, now, ev)[key]);
    } else {
      CleanedSize(c, m, now);
      SizeWith(WithRoom(c, m, now, ev), key, Recorded(c, m, key, now, ev)[key]);
      if |m| >= c.maxTrackedKeys { SizeWithoutAll(Cleaned(c, m, now), ev); }
    }
  }

  lemma NextKeepsCap(c: Config, s: State, call: Call)
    requires c.maxTrackedKeys >= 1 && |s.attempts| <= c.maxTrackedKeys && Possible(c, s, call)
    ensures |Next(c, s, call).attempts| <= c.maxTrackedKeys
  {
    if call.Succeed? {
      SubsetSize(Next(c, s, call).attempts.Keys, s.attempts.Keys);
    } else {
      var swept := Swept(c, s, call.now).attempts;
      CleanedSize(c, s.attempts, call.now);
      var first := IpKey(call.ip);
      if call.Check? {
        SubsetSize(Next(c, s, call).attempts.Keys, swept.Keys);
      } else {
        InsertionEvictsAtMostOne(c, swept, first, call.now, call.ev.0);
        InsertionEvictsAtMostOne(c, Recorded(c, swept, first, call.now, call.ev.0), AccountKey(c, call.email), call.now, call.ev.1);
      }
    }
  }

  /** Over every sequence of calls the map stays within its cap. */
  lemma {:induction false} CapHolds(c: Config, s: State, clock: int, calls: seq<Call>)
    requires c.maxTrackedKeys >= 1 && |s.attempts| <= c.maxTrackedKeys && Runs(c, s, clock, calls)
    ensures |After(c, s, calls).attempts| <= c.maxTrackedKeys
    decreases |calls|
  {
    if calls != [] {
      NextKeepsCap(c, s, calls[0]);
      CapHolds(c, Next(c, s, calls[0]), Clock(clock, calls[0]), calls[1..]);
    }
  }

  // ----------------------------------------------------- the reference limiter

  /** The reference has no cap, never cleans up and deletes only on success. */
  function RefNext(c: Config, r: Attempts, call: Call): Attempts {
    var first, second := IpKey(call.ip), AccountKey(c, call.email);
    match call
    case Check(_, _, _) => r
    case Succeed(_, _) => r - {first, second}
    case Fail(_, _, now, _) =>
      r[first := BumpedFrom(c, LiveAt(c, r, first, now), now)]
       [second := BumpedFrom(c, LiveAt(c, r, second, now), now)]
  }

  function RefAfter(c: Config, r: Attempts, calls: seq<Call>): Attempts
    decreases |calls|
  {
    if calls == [] then r else RefAfter(c, RefNext(c, r, calls[0]), calls[1..])
  }

  /** From `clock` on both hold the same live record for `k`. */
  ghost predicate Agree(c: Config, m: Attempts, r: Attempts, k: string, clock: int) {
    forall t :: t >= clock ==> LiveAt(c, m, k, t) == LiveAt(c, r, k, t)
  }

  lemma NextAgrees(c: Config, s: State, r: Attempts, clock: int, call: Call, k: string)
    requires Agree(c, s.attempts, r, k, clock) && Clock(clock, call) >= clock && k !in Evicted(call)
    ensures Agree(c, Next(c, s, call).attempts, RefNext(c, r, call), k, Clock(clock, call))
  {
    KeysDiffer(c, call.ip, call.email);
    forall t | t >= Clock(clock, call)
      ensures LiveAt(c, Next(c, s, call).attempts, k, t) == LiveAt(c, RefNext(c, r, call), k, t)
    {
      NextLookup(c, s, call, k, t);
      assert LiveAt(c, s.attempts, k, t) == LiveAt(c, r, k, t);
      if call.Fail? {
        assert LiveAt(c, s.attempts, k, call.now) == LiveAt(c, r, k, call.now);
      }
    }
  }

  predicate NeverEvicted(calls: seq<Call>, k: string) {
    forall i :: 0 <= i < |calls| ==> k !in Evicted(calls[i])
  }

  lemma {:induction false} RunAgrees(c: Config, s: State, r: Attempts, clock: int, calls: seq<Call>, k: string)
    requires Runs(c, s, clock, calls) && Agree(c, s.attempts, r, k, clock) && NeverEvicted(calls, k)
    ensures Agree(c, After(c, s, calls).attempts, RefAfter(c, r, calls), k, EndClock(clock, calls))
    decreases |calls|
  {
    if calls != [] {
      NextAgrees(c, s, r, clock, calls[0], k);
      RunAgrees(c, Next(c, s, calls[0]), RefNext(c, r, calls[0]), Clock(clock, calls[0]), calls[1..], k);
    }
  }

  /** Cleaning up, whenever it happens, is invisible: after every sequence of calls
      that evicted neither of the two keys, a check returns what the reference
      limiter returns. Evictions of other keys do not matter. */
  lemma AgreesWithReference(c: Config, clock: int, calls: seq<Call>, ip: string, email: string, now: int)
    requires Runs(c, EMPTY, clock, calls) && EndClock(clock, calls) <= now
    requires NeverEvicted(calls, IpKey(ip)) && NeverEvicted(calls, AccountKey(c, email))
    ensures RetryAfter(c, After(c, EMPTY, calls).attempts, ip, email, now)
      == RetryAfter(c, RefAfter(c, map[], calls), ip, email, now)
  {
    RunAgrees(c, EMPTY, map[], clock, calls, IpKey(ip));
    RunAgrees(c, EMPTY, map[], clock, calls, AccountKey(c, email));
  }

  // --------------------------------------------------------------- Retry-After

  const SECOND := 1_000_000_000

  /** The Retry-After header: the remaining time in seconds, rounded up. */
  function HeaderSeconds(d: int): int {
    (d + SECOND - 1) / SECOND
  }

  /** `strconv.Itoa(int(math.Ceil(d.Seconds())))`: seconds and nanoseconds are converted
      to floating point and added, and the sum is rounded up. `round` is the rounding
      of a real number to the nearest double. */
  function HeaderOf(round: real -> real, d: int): int
    requires d >= 0
  {
    Ceil(round((d / SECOND) as real + round((d % SECOND) as real / SECOND as real)))
  }

  function Ceil(x: real): int {
    -(-x).Floor
  }

  /** A multiple of 2^-30. */
  function Fraction30(k: int): real {
    k as real / 1073741824.0
  }

  /** All that is used of the rounding: it is monotone, and keeps the multiples of 2^-30
      up to 2^23, which doubles represent exactly. */
  ghost predicate RoundsAsDoubles(round: real -> real) {
    && (forall x, y :: x <= y ==> round(x) <= round(y))
    && forall k :: 0 <= k <= 0x20_0000_0000_0000 ==> round(Fraction30(k)) == Fraction30(k)
  }

  const LONGEST_EXACT := 0x80_0000 * SECOND

  /** Up to 2^23 seconds (97 days) the floating-point header is the exact one. */
  lemma HeaderIsRoundedExactly(round: real -> real, d: int)
    requires RoundsAsDoubles(round) && 0 <= d <= LONGEST_EXACT
    ensures HeaderOf(round, d) == HeaderSeconds(d)
  {
    var s, n := d / SECOND, d % SECOND;
    if n == 0 {
      WholeSeconds(round, 0);
      WholeSeconds(round, s);
      assert round(n as real / SECOND as real) == 0.0;
    } else {
      PartOfASecond(round, n);
      RoundedUp(round, s, round(n as real / SECOND as real));
    }
  }

  lemma WholeSeconds(round: real -> real, s: nat)
    requires RoundsAsDoubles(round) && s <= 0x80_0000
    ensures round(s as real) == s as real
  {
    assert round(Fraction30(s * 1073741824)) == Fraction30(s * 1073741824);
  }

  lemma RoundedUp(round: real -> real, s: nat, part: real)
    requires RoundsAsDoubles(round) && s < 0x80_0000 && Fraction30(1) <= part <= 1.0
    ensures Ceil(round(s as real + part)) == s + 1
  {
    var k := s * 1073741824;
    assert round(Fraction30(k + 1)) == Fraction30(k + 1) == s as real + Fraction30(1);
    assert round(Fraction30(k + 1)) <= round(s as real + part);
    WholeSeconds(round, s + 1);
    assert round(s as real + part) <= round((s + 1) as real);
  }

  lemma PartOfASecond(round: real -> real, n: int)
    requires RoundsAsDoubles(round) && 0 < n < SECOND
    ensures Fraction30(1) <= round(n as real / SECOND as real) <= 1.0
  {
    var x := n as real / SECOND as real;
    assert Fraction30(1073741824) == 1.0;
    assert Fraction30(1) <= x <= Fraction30(1073741824);
    assert round(Fraction30(1)) <= round(x) <= round(Fraction30(1073741824));
  }

  predicate Leaves(c: Config, calls: seq<Call>, k: string) {
    forall i :: 0 <= i < |calls| ==> k !in Evicted(calls[i]) && (calls[i].Check? || k !in Touched(c, calls[i]))
  }

  lemma {:induction false} LeftAlone(c: Config, s: State, clock: int, calls: seq<Call>, k: string, t: int)
    requires Runs(c, s, clock, calls) && Leaves(c, calls, k) && EndClock(clock, calls) <= t
    ensures LiveAt(c, After(c, s, calls).attempts, k, t) == LiveAt(c, s.attempts, k, t)
    decreases |calls|
  {
    if calls != [] {
      ClockRises(c, Next(c, s, calls[0]), Clock(clock, calls[0]), calls[1..]);
      NextLookup(c, s, calls[0], k, t);
      LeftAlone(c, Next(c, s, calls[0]), Clock(clock, calls[0]), calls[1..], k, t);
    }
  }

  lemma {:induction false} ClockRises(c: Config, s: State, clock: int, calls: seq<Call>)
    requires Runs(c, s, clock, calls)
    ensures EndClock(clock, calls) >= clock
    decreases |calls|
  {
    if calls != [] {
      ClockRises(c, Next(c, s, calls[0]), Clock(clock, calls[0]), calls[1..]);
    }
  }

  /** A block runs down second by second and nothing else ends it: whatever other
      clients do in between, and whether or not clean-up runs. */
  lemma BlockRunsDown(c: Config, s: State, ip: string, email: string, now: int, calls: seq<Call>, later: int)
    requires RetryAfter(c, s.attempts, ip, email, now) > 0 && later >= now
    requires Runs(c, Checked(c, s, ip, email, now), now, calls) && EndClock(now, calls) <= later
    requires Leaves(c, calls, IpKey(ip)) && Leaves(c, calls, AccountKey(c, email))
    ensures RetryAfter(c, After(c, Checked(c, s, ip, email, now), calls).attempts, ip, email, later)
      == Max(0, RetryAfter(c, s.attempts, ip, email, now) - (later - now))
  {
    var checked := Checked(c, s, ip, email, now);
    var first, second := IpKey(ip), AccountKey(c, email);
    NextLookup(c, s, Check(ip, email, now), first, later);
    NextLookup(c, s, Check(ip, email, now), second, later);
    LeftAlone(c, checked, now, calls, first, later);
    LeftAlone(c, checked, now, calls, second, later);
    BlockLater(c, s.attempts, first, now, later);
    BlockLater(c, s.attempts, second, now, later);
  }

  lemma BlockLater(c: Config, m: Attempts, k: string, now: int, later: int)
    requires later >= now
    ensures Blocks(c, m, k, later) == Max(0, Blocks(c, m, k, now) - (later - now))
  {
  }

  /** Retry-After is exact: without a new failure, success or eviction on either key,
      waiting the advertised seconds ends the block and one second less does not. The
      header is the floating-point one wherever that is exact. */
  lemma HeaderIsExact(c: Config, s: State, ip: string, email: string, now: int, calls: seq<Call>, later: int, round: real -> real)
    requires RetryAfter(c, s.attempts, ip, email, now) > 0 && later >= now
    requires Runs(c, Checked(c, s, ip, email, now), now, calls) && EndClock(now, calls) <= later
    requires Leaves(c, calls, IpKey(ip)) && Leaves(c, calls, AccountKey(c, email))
    requires RoundsAsDoubles(round)
    ensures var wait := RetryAfter(c, s.attempts, ip, email, now);
      var n := HeaderSeconds(wait);
      var waited := RetryAfter(c, After(c, Checked(c, s, ip, email, now), calls).attempts, ip, email, later);
      && n >= 1
      && (wait <= LONGEST_EXACT ==> HeaderOf(round, wait) == n)
      && (later >= now + n * 1_000_000_000 ==> waited == 0)
      && (later <= now + (n - 1) * 1_000_000_000 ==> waited > 0)
  {
    BlockRunsDown(c, s, ip, email, now, calls, later);
    if RetryAfter(c, s.attempts, ip, email, now) <= LONGEST_EXACT {
      HeaderIsRoundedExactly(round, RetryAfter(c, s.attempts, ip, email, now));
    }
  }
}
