/** How many failures the limiter lets through when logins do not overlap: the
    check and the record of one login come before those of the next. */
module LimiterRate {
  import opened Types
  import opened LimiterState
  import opened LimiterCalls

  datatype Outcome = WrongPassword | Accepted | Neither

  /** One login request: it checks at `checkAt` and, if let through, ends at `recordAt`. */
  datatype Login = Login(
    ip: string, email: string, checkAt: int, recordAt: int, outcome: Outcome, ev: (set<string>, set<string>))

  predicate Limited(c: Config, s: State, l: Login) {
    RetryAfter(c, s.attempts, l.ip, l.email, l.checkAt) > 0
  }

  function Recording(l: Login): Call {
    Fail(l.ip, l.email, l.recordAt, l.ev)
  }

  /** What the login's outcome is told to the limiter. */
  function Concluded(c: Config, s: State, l: Login): State {
    match l.outcome
    case WrongPassword => Next(c, s, Recording(l))
    case Accepted => Next(c, s, Succeed(l.ip, l.email))
    case Neither => s
  }

  function Served(c: Config, s: State, l: Login): State {
    var checked := Next(c, s, Check(l.ip, l.email, l.checkAt));
    if Limited(c, s, l) then checked else Concluded(c, checked, l)
  }

  predicate Concerns(c: Config, l: Login, k: string) {
    k in {IpKey(l.ip), AccountKey(c, l.email)}
  }

  /** The login records a failure for `k`. */
  predicate Counts(c: Config, s: State, l: Login, k: string) {
    !Limited(c, s, l) && l.outcome == WrongPassword && Concerns(c, l, k)
  }

  /** The login neither evicts `k` nor clears it by succeeding. */
  predicate Keeps(c: Config, s: State, l: Login, k: string) {
    Limited(c, s, l) || l.outcome == Neither
    || (l.outcome == WrongPassword && k !in l.ev.0 + l.ev.1)
    || (l.outcome == Accepted && !Concerns(c, l, k))
  }

  /** Non-overlapping logins none of which evicts or clears `k`. */
  ghost predicate Logins(c: Config, s: State, clock: int, ls: seq<Login>, k: string)
    decreases |ls|
  {
    ls == [] ||
    (clock <= ls[0].checkAt <= ls[0].recordAt && Keeps(c, s, ls[0], k)
     && Logins(c, Served(c, s, ls[0]), ls[0].recordAt, ls[1..], k))
  }

  /** A recorded failure: when, in the record begun when, and the how-manieth in it. */
  datatype Entry = Entry(time: int, start: int, ordinal: int)

  function EntryOf(c: Config, s: State, l: Login, k: string): Entry {
    var checked := Next(c, s, Check(l.ip, l.email, l.checkAt));
    var a := BumpedFrom(c, LiveAt(c, checked.attempts, k, l.recordAt), l.recordAt);
    Entry(l.recordAt, a.windowStart, a.failures)
  }

  /** The failures recorded for `k`, in order. */
  function Log(c: Config, s: State, ls: seq<Login>, k: string): seq<Entry>
    decreases |ls|
  {
    if ls == [] then []
    else
      var entries := if Counts(c, s, ls[0], k) then [EntryOf(c, s, ls[0], k)] else [];
      entries + Log(c, Served(c, s, ls[0]), ls[1..], k)
  }

  /** The entry's place in its own record: from the maxFailures-th failure on, each
      further one came at least a backoff later, and still inside the window. */
  predicate EntryFits(c: Config, e: Entry) {
    && e.ordinal >= 1 && e.time >= e.start
    && (e.ordinal >= c.maxFailures ==> e.time - e.start >= (e.ordinal - c.maxFailures) * c.backoff)
    && (e.ordinal > c.maxFailures ==> e.time - e.start < c.window)
  }

  predicate Begins(e: Entry) {
    e.ordinal == 1 && e.time == e.start
  }

  /** `e` is the next failure of the same record, a backoff later if that record blocks,
      or begins a record a window or more later. */
  predicate Follows(c: Config, prev: Entry, e: Entry) {
    && e.time >= prev.time
    && (if e.ordinal == 1 then Begins(e) && e.start >= prev.start + c.window
        else
          && e.start == prev.start && e.ordinal == prev.ordinal + 1
          && (prev.ordinal >= c.maxFailures ==> e.time >= prev.time + c.backoff))
  }

  /** What the table holds for `k` after the failure `last`. */
  ghost predicate Tracks(c: Config, s: State, clock: int, k: string, last: Option<Entry>) {
    && (last.Some? ==> EntryFits(c, last.value) && last.value.time <= clock)
    && forall t :: t >= clock ==>
      match LiveAt(c, s.attempts, k, t)
      case Some(a) =>
        && last.Some? && a.windowStart == last.value.start && a.failures == last.value.ordinal
        && a.blockedUntil == (if last.value.ordinal >= c.maxFailures then last.value.time + c.backoff else 0)
      case None => last.Some? ==> t >= last.value.start + c.window
  }

  lemma CheckKeepsTrack(c: Config, s: State, clock: int, k: string, last: Option<Entry>, l: Login)
    requires Tracks(c, s, clock, k, last) && clock <= l.checkAt
    ensures Tracks(c, Next(c, s, Check(l.ip, l.email, l.checkAt)), l.checkAt, k, last)
  {
    forall t | t >= l.checkAt
      ensures LiveAt(c, Next(c, s, Check(l.ip, l.email, l.checkAt)).attempts, k, t) == LiveAt(c, s.attempts, k, t)
    {
      NextLookup(c, s, Check(l.ip, l.email, l.checkAt), k, t);
    }
  }

  lemma NextBackoff(n: int, d: int)
    ensures (n + 1) * d == n * d + d
  {
  }

  /** A failure that is let through fits its record and follows the one before. */
  lemma FailureFits(c: Config, s: State, clock: int, k: string, last: Option<Entry>, l: Login)
    requires c.maxFailures >= 1 && Tracks(c, s, clock, k, last)
    requires clock <= l.checkAt <= l.recordAt && Counts(c, s, l, k)
    ensures var e := EntryOf(c, s, l, k);
      EntryFits(c, e) && if last.Some? then Follows(c, last.value, e) else Begins(e)
  {
    CheckKeepsTrack(c, s, clock, k, last, l);
    var checked := Next(c, s, Check(l.ip, l.email, l.checkAt));
    var a := LiveAt(c, checked.attempts, k, l.recordAt);
    if a.Some? {
      NextLookup(c, s, Check(l.ip, l.email, l.checkAt), k, l.recordAt);
      assert LiveAt(c, s.attempts, k, l.checkAt) == a;
      assert Blocks(c, s.attempts, k, l.checkAt) == 0;
      NextBackoff(last.value.ordinal - c.maxFailures, c.backoff);
    }
  }

  lemma FailureKeepsTrack(c: Config, s: State, clock: int, k: string, last: Option<Entry>, l: Login)
    requires c.maxFailures >= 1 && Tracks(c, s, clock, k, last)
    requires clock <= l.checkAt <= l.recordAt && Counts(c, s, l, k) && Keeps(c, s, l, k)
    ensures Tracks(c, Served(c, s, l), l.recordAt, k, Some(EntryOf(c, s, l, k)))
  {
    FailureFits(c, s, clock, k, last, l);
    CheckKeepsTrack(c, s, clock, k, last, l);
    var checked := Next(c, s, Check(l.ip, l.email, l.checkAt));
    var a := LiveAt(c, checked.attempts, k, l.recordAt);
    forall t | t >= l.recordAt
      ensures LiveAt(c, Served(c, s, l).attempts, k, t) == Still(c, Some(BumpedFrom(c, a, l.recordAt)), t)
    {
      NextLookup(c, checked, Recording(l), k, t);
    }
  }

  lemma OtherKeepsTrack(c: Config, s: State, clock: int, k: string, last: Option<Entry>, l: Login)
    requires Tracks(c, s, clock, k, last)
    requires clock <= l.checkAt <= l.recordAt && !Counts(c, s, l, k) && Keeps(c, s, l, k)
    ensures Tracks(c, Served(c, s, l), l.recordAt, k, last)
  {
    CheckKeepsTrack(c, s, clock, k, last, l);
    var checked := Next(c, s, Check(l.ip, l.email, l.checkAt));
    if !Limited(c, s, l) && l.outcome != Neither {
      var call := if l.outcome == Accepted then Succeed(l.ip, l.email) else Recording(l);
      forall t | t >= l.recordAt
        ensures LiveAt(c, Served(c, s, l).attempts, k, t) == LiveAt(c, checked.attempts, k, t)
      {
        NextLookup(c, checked, call, k, t);
      }
    }
  }

  ghost predicate LogFits(c: Config, log: seq<Entry>) {
    && (forall i :: 0 <= i < |log| ==> EntryFits(c, log[i]))
    && (forall i :: 0 < i < |log| ==> Follows(c, log[i - 1], log[i]))
  }

  lemma {:induction false} LogsFit(c: Config, s: State, clock: int, ls: seq<Login>, k: string, last: Option<Entry>)
    requires c.maxFailures >= 1 && Logins(c, s, clock, ls, k) && Tracks(c, s, clock, k, last)
    ensures LogFits(c, Log(c, s, ls, k))
    ensures last.Some? && Log(c, s, ls, k) != [] ==> Follows(c, last.value, Log(c, s, ls, k)[0])
    decreases |ls|
  {
    if ls != [] {
      var n, l := Served(c, s, ls[0]), ls[0];
      if Counts(c, s, l, k) {
        FailureFits(c, s, clock, k, last, l);
        FailureKeepsTrack(c, s, clock, k, last, l);
        LogsFit(c, n, l.recordAt, ls[1..], k, Some(EntryOf(c, s, l, k)));
      } else {
        OtherKeepsTrack(c, s, clock, k, last, l);
        LogsFit(c, n, l.recordAt, ls[1..], k, last);
        assert Log(c, s, ls, k) == Log(c, n, ls[1..], k);
      }
    }
  }

  // ------------------------------------------------------------ the two bounds

  /** A run of non-overlapping logins in which `k` starts without a live record and
      is neither evicted nor cleared. */
  ghost predicate FreshRun(c: Config, s: State, clock: int, ls: seq<Login>, k: string) {
    && c.maxFailures >= 1
    && Logins(c, s, clock, ls, k)
    && forall t :: t >= clock ==> LiveAt(c, s.attempts, k, t).None?
  }

  /** A record that collects N > maxFailures failures has room for the backoffs
      between them: (N - maxFailures) * backoff < window. */
  lemma FailuresPerRecord(c: Config, s: State, clock: int, ls: seq<Login>, k: string, i: nat)
    requires FreshRun(c, s, clock, ls, k) && i < |Log(c, s, ls, k)|
    ensures var n := Log(c, s, ls, k)[i].ordinal;
      n > c.maxFailures ==> (n - c.maxFailures) * c.backoff < c.window
  {
    LogsFit(c, s, clock, ls, k, None);
    FitsOneRecord(c, Log(c, s, ls, k)[i]);
  }

  lemma FitsOneRecord(c: Config, e: Entry)
    requires EntryFits(c, e)
    ensures e.ordinal > c.maxFailures ==> (e.ordinal - c.maxFailures) * c.backoff < c.window
  {
  }

  /** With the default settings a record never collects more than 19 failures. */
  lemma DefaultFailuresPerRecord(c: Config, s: State, clock: int, ls: seq<Login>, k: string, i: nat)
    requires FreshRun(c, s, clock, ls, k) && i < |Log(c, s, ls, k)|
    requires DefaultSettings(c)
    ensures Log(c, s, ls, k)[i].ordinal <= 19
  {
    FailuresPerRecord(c, s, clock, ls, k, i);
  }

  /** The most failures one record can collect. */
  function PerRecord(c: Config): int
    requires c.backoff > 0
  {
    c.maxFailures + (c.window - 1) / c.backoff
  }

  lemma Quotient(n: int, d: int, w: int)
    requires d > 0 && n * d < w
    ensures n <= (w - 1) / d
  {
    var q := (w - 1) / d;
    assert w - 1 == q * d + (w - 1) % d;
    NextBackoff(q, d);
    if n >= q + 1 {
      TimesMonotone(q + 1, n, d);
      assert false;
    }
  }

  lemma TimesMonotone(a: int, b: int, d: int)
    requires a <= b && d >= 0
    ensures a * d <= b * d
  {
  }

  lemma OrdinalsAreBounded(c: Config, log: seq<Entry>, i: nat)
    requires LogFits(c, log) && c.backoff > 0 && c.window > 0 && i < |log|
    ensures log[i].ordinal <= PerRecord(c)
  {
    var e := log[i];
    if e.ordinal > c.maxFailures {
      Quotient(e.ordinal - c.maxFailures, c.backoff, c.window);
    }
  }

  /** Between two failures of one record the ordinals count; otherwise a later record began. */
  lemma {:induction false} SameRecordOrLater(c: Config, log: seq<Entry>, i: nat, j: nat)
    requires LogFits(c, log) && c.window > 0 && i <= j < |log|
    ensures log[j].time >= log[i].time
    ensures (log[j].start == log[i].start && log[j].ordinal == log[i].ordinal + (j - i))
      || (log[j].start >= log[i].start + c.window && log[j].start >= log[i].time)
    decreases j
  {
    if i < j {
      SameRecordOrLater(c, log, i, j - 1);
    }
  }

  lemma {:induction false} RecordsAreSpaced(c: Config, log: seq<Entry>, i: nat, j: nat, q: nat)
    requires LogFits(c, log) && c.backoff > 0 && c.window > 0 && j < |log|
    requires q >= 1 && j - i >= q * PerRecord(c)
    requires PerRecord(c) >= 1
    ensures i < j && log[j].start >= log[i].time + (q - 1) * c.window
    decreases q
  {
    var m := PerRecord(c);
    TimesMonotone(1, q, m);
    assert j - i >= m;
    if q == 1 {
      SameRecordOrLater(c, log, i, j);
      OrdinalsAreBounded(c, log, j);
    } else {
      NextBackoff(q - 1, m);
      RecordsAreSpaced(c, log, i, j - m, q - 1);
      SameRecordOrLater(c, log, j - m, j);
      OrdinalsAreBounded(c, log, j);
      NextBackoff(q - 2, c.window);
    }
  }

  /** q * PerRecord + 1 consecutive failures for one key take at least (q - 1) windows. */
  lemma FailureRate(c: Config, s: State, clock: int, ls: seq<Login>, k: string, i: nat, j: nat, q: nat)
    requires FreshRun(c, s, clock, ls, k) && c.backoff > 0 && c.window > 0
    requires q >= 1 && j < |Log(c, s, ls, k)| && j - i >= q * PerRecord(c)
    ensures i < j && Log(c, s, ls, k)[j].time - Log(c, s, ls, k)[i].time >= (q - 1) * c.window
  {
    LogsFit(c, s, clock, ls, k, None);
    PerRecordIsPositive(c);
    RecordsAreSpaced(c, Log(c, s, ls, k), i, j, q);
  }

  lemma PerRecordIsPositive(c: Config)
    requires c.maxFailures >= 1 && c.backoff > 0 && c.window > 0
    ensures PerRecord(c) >= 1
  {
  }

  // -------------------------------------------------- failures in a span of time

  /** How many records the failures `i` to `j` of a log belong to. */
  function Records(log: seq<Entry>, i: nat, j: nat): (n: nat)
    requires i <= j < |log|
    ensures n >= 1
    decreases j
  {
    if i == j then 1 else Records(log, i, j - 1) + if log[j].ordinal == 1 then 1 else 0
  }

  /** How many of them, up to `j`, belong to the record of `j`. */
  function Together(log: seq<Entry>, i: nat, j: nat): (n: nat)
    requires i <= j < |log|
    ensures n >= 1
    decreases j
  {
    if i == j || log[j].ordinal == 1 then 1 else Together(log, i, j - 1) + 1
  }

  /** How many of them are at least the (max + 1)-th of them in their record. */
  function Beyond(log: seq<Entry>, i: nat, j: nat, max: int): nat
    requires i <= j < |log|
    decreases j
  {
    if i == j then 0 else Beyond(log, i, j - 1, max) + if Together(log, i, j) > max then 1 else 0
  }

  lemma {:induction false} TogetherIsOrdered(c: Config, log: seq<Entry>, i: nat, j: nat)
    requires LogFits(c, log) && i <= j < |log|
    ensures Together(log, i, j) <= log[j].ordinal
    decreases j
  {
    if i < j { TogetherIsOrdered(c, log, i, j - 1); }
  }

  /** Each record contributes maxFailures at most, apart from those beyond. */
  lemma {:induction false} CountedByRecord(log: seq<Entry>, i: nat, j: nat, max: int)
    requires i <= j < |log| && max >= 1
    ensures var t := Together(log, i, j);
      j - i + 1 <= (Records(log, i, j) - 1) * max + (if t <= max then t else max) + Beyond(log, i, j, max)
    decreases j
  {
    if i < j {
      CountedByRecord(log, i, j - 1, max);
      if log[j].ordinal == 1 { NextBackoff(Records(log, i, j - 1) - 1, max); }
    }
  }

  /** Those beyond come a backoff apart. */
  lemma {:induction false} BeyondTakesTime(c: Config, log: seq<Entry>, i: nat, j: nat)
    requires LogFits(c, log) && c.maxFailures >= 1 && i <= j < |log|
    ensures Beyond(log, i, j, c.maxFailures) * c.backoff <= log[j].time - log[i].time
    decreases j
  {
    if i < j {
      BeyondTakesTime(c, log, i, j - 1);
      TogetherIsOrdered(c, log, i, j - 1);
      if Together(log, i, j) > c.maxFailures { NextBackoff(Beyond(log, i, j - 1, c.maxFailures), c.backoff); }
    }
  }

  /** Records begin a window apart, all but the first within the span. */
  lemma {:induction false} RecordsTakeTime(c: Config, log: seq<Entry>, i: nat, j: nat)
    requires LogFits(c, log) && c.window > 0 && i <= j < |log|
    ensures Records(log, i, j) == 1 ==> log[j].start == log[i].start
    ensures log[j].time >= log[i].time
    ensures var n := Records(log, i, j); n >= 2 ==> log[j].start >= log[i].time + (n - 2) * c.window
    decreases j
  {
    if i < j {
      RecordsTakeTime(c, log, i, j - 1);
      if log[j].ordinal == 1 && Records(log, i, j) > 2 { NextBackoff(Records(log, i, j) - 3, c.window); }
    }
  }

  /** The most failures a key can collect in a span of time: maxFailures for each record
      that fits, and one more for each backoff. */
  function MostIn(c: Config, span: int): int
    requires c.backoff > 0 && c.window > 0
  {
    (span / c.window + 2) * c.maxFailures + span / c.backoff
  }

  function Span(log: seq<Entry>, i: nat, j: nat): int
    requires i <= j < |log|
  {
    log[j].time - log[i].time
  }

  lemma SpanOfLog(c: Config, log: seq<Entry>, i: nat, j: nat)
    requires LogFits(c, log) && c.maxFailures >= 1 && c.backoff > 0 && c.window > 0 && i <= j < |log|
    ensures Span(log, i, j) >= 0 && j - i + 1 <= MostIn(c, Span(log, i, j))
  {
    CountedByRecord(log, i, j, c.maxFailures);
    BeyondTakesTime(c, log, i, j);
    RecordsTakeTime(c, log, i, j);
    AddsUp(c, Span(log, i, j), Records(log, i, j), Beyond(log, i, j, c.maxFailures));
    NextBackoff(Records(log, i, j) - 1, c.maxFailures);
  }

  lemma AddsUp(c: Config, span: int, records: nat, beyond: nat)
    requires c.maxFailures >= 1 && c.backoff > 0 && c.window > 0 && span >= 0
    requires records >= 2 ==> (records - 2) * c.window <= span
    requires beyond * c.backoff <= span
    ensures records * c.maxFailures + beyond <= MostIn(c, span)
  {
    Quotient(beyond, c.backoff, span + 1);
    if records >= 2 { Quotient(records - 2, c.window, span + 1); }
    TimesMonotone(records, span / c.window + 2, c.maxFailures);
  }

  /** The bound in any span of time. */
  lemma FailuresInSpan(c: Config, s: State, clock: int, ls: seq<Login>, k: string, i: nat, j: nat)
    requires FreshRun(c, s, clock, ls, k) && c.backoff > 0 && c.window > 0
    requires i <= j < |Log(c, s, ls, k)|
    ensures Span(Log(c, s, ls, k), i, j) >= 0
    ensures j - i + 1 <= MostIn(c, Span(Log(c, s, ls, k), i, j))
  {
    LogsFit(c, s, clock, ls, k, None);
    SpanOfLog(c, Log(c, s, ls, k), i, j);
  }

  predicate DefaultSettings(c: Config) {
    c.maxFailures == 5 && c.window == 15 * 60 * SECOND && c.backoff == 60 * SECOND
  }

  /** With the default settings no span shorter than a window has more than 24. */
  lemma DefaultFailuresInSpan(c: Config, s: State, clock: int, ls: seq<Login>, k: string, i: nat, j: nat)
    requires FreshRun(c, s, clock, ls, k) && i <= j < |Log(c, s, ls, k)|
    requires DefaultSettings(c) && Span(Log(c, s, ls, k), i, j) < c.window
    ensures j - i + 1 <= 24
  {
    FailuresInSpan(c, s, clock, ls, k, i, j);
    DefaultMost(c, Span(Log(c, s, ls, k), i, j));
  }

  lemma DefaultMost(c: Config, span: int)
    requires DefaultSettings(c) && 0 <= span < c.window
    ensures MostIn(c, span) <= 24
  {
    assert span / c.window == 0;
    assert span / c.backoff <= 14;
  }
}
