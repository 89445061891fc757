/** `HandleLogin` and `HandleLogout` (backend/internal/server/auth_handlers.go) from
    beginning to end, over one limiter and one store, with nothing in between. What
    happens when requests interleave is the subject of `AccountRuns`. */
module LoginHandlerSpec {
  import opened Types
  import opened AccountState
  import opened AccountRuns
  import LimiterState
  import LimiterCalls
  import LimiterRate

  /** Which of the handler's calls fail for reasons of their own. */
  datatype Faults = Faults(fetch: bool, admins: bool, create: bool, refetch: bool, sign: bool)

  /** A request and what the handler's surroundings answer: `email` is the validated
      address, `strong` whether the password would do for a new account, `hash` what
      hashing it gives, `newId` the row id an insertion would get, and the two times
      are those of the limiter's check and of its record. */
  datatype Request = Request(
    ip: string,
    email: Option<string>,
    password: string,
    strong: bool,
    hash: Option<string>,
    newId: nat,
    faults: Faults,
    checkAt: int,
    recordAt: int)

  datatype Verdict =
    | Refused
    | WeakPassword
    | HashFailed
    | SetupFailed
    | NotRetrieved
    | Admitted(id: nat, row: User, setup: Option<Setup>)

  datatype Reply = BadRequest | TooMany(seconds: int) | Unauthorized | ServerError | LoggedIn(token: Token)

  /** What a lookup by address may find. */
  predicate Finds(users: Users, email: string, fails: bool, found: Option<nat>) {
    if fails then found.None?
    else (found.None? ==> !EmailTaken(users, email)) && (found.Some? ==> IsRowOf(users, found.value, email))
  }

  /** A login where there is no administrator: the table it leaves and the verdict. */
  function SetUpDecided(users: Users, email: string, r: Request): (Users, Verdict) {
    if !r.strong then (users, WeakPassword)
    else if r.hash.None? then (users, HashFailed)
    else if r.faults.create || EmailTaken(users, email) then (users, SetupFailed)
    else
      var row := User(email, r.hash.value, true, 0);
      (users[r.newId := row],
       if r.faults.refetch then NotRetrieved else Admitted(r.newId, row, Some(Setup(r.newId, r.hash.value))))
  }

  /** The store's part of a login. */
  function Decided(check: Check, users: Users, found: Option<nat>, email: string, r: Request): (Users, Verdict)
    requires found.Some? ==> found.value in users
  {
    if found.Some? then
      var row := users[found.value];
      (users, if check(r.password, row.passwordHash) then Admitted(found.value, row, None) else Refused)
    else if r.faults.admins || Admins(users) != {} then (users, Refused)
    else SetUpDecided(users, email, r)
  }

  function TokenOf(v: Verdict, r: Request): Token
    requires v.Admitted?
  {
    Token(v.id, v.row.tokenVersion, v.row, r.password, v.setup)
  }

  function ReplyTo(v: Verdict, r: Request): Reply {
    match v
    case Refused => Unauthorized
    case WeakPassword => BadRequest
    case Admitted(_, _, _) => if r.faults.sign then ServerError else LoggedIn(TokenOf(v, r))
    case _ => ServerError
  }

  /** What the limiter is told. */
  function OutcomeOf(v: Verdict): LimiterRate.Outcome {
    match v
    case Refused => LimiterRate.WrongPassword
    case Admitted(_, _, _) => LimiterRate.Accepted
    case _ => LimiterRate.Neither
  }

  /** The login that a request amounts to for the limiter. */
  function LoginOf(r: Request, v: Option<Verdict>, ev: (set<string>, set<string>)): LimiterRate.Login
    requires r.email.Some?
  {
    LimiterRate.Login(r.ip, r.email.value, r.checkAt, r.recordAt, if v.Some? then OutcomeOf(v.value) else LimiterRate.Neither, ev)
  }

  // ------------------------------------ the answer, in terms of the table alone

  ghost predicate HasAddress(users: Users, email: string) {
    exists id :: id in users && users[id].email == email
  }

  ghost predicate KnowsPassword(check: Check, users: Users, email: string, password: string) {
    exists id :: id in users && users[id].email == email && check(password, users[id].passwordHash)
  }

  /** The address is one of a row, and the database finds it. */
  ghost predicate Known(users: Users, email: string, r: Request) {
    !r.faults.fetch && HasAddress(users, email)
  }

  /** No row is found and there is no administrator: the request may set up the first one. */
  ghost predicate Unclaimed(users: Users, email: string, r: Request) {
    !Known(users, email, r) && !r.faults.admins && !HasAdmin(users)
  }

  /** The setup goes as far as inserting a row. */
  ghost predicate SetsUpAccount(users: Users, email: string, r: Request) {
    Unclaimed(users, email, r) && r.strong && r.hash.Some? && !r.faults.create && !HasAddress(users, email)
  }

  ghost predicate LetsIn(check: Check, users: Users, email: string, r: Request) {
    if Known(users, email, r) then KnowsPassword(check, users, email, r.password)
    else SetsUpAccount(users, email, r) && !r.faults.refetch
  }

  /** The answer to a login that the limiter lets through, and the table it leaves. */
  ghost predicate Answers(check: Check, users: Users, after: Users, email: string, r: Request, reply: Reply) {
    && after == (if SetsUpAccount(users, email, r) then users[r.newId := User(email, r.hash.value, true, 0)] else users)
    && !reply.TooMany?
    && (reply.LoggedIn? <==> LetsIn(check, users, email, r) && !r.faults.sign)
    && (reply.Unauthorized? <==>
          if Known(users, email, r) then !KnowsPassword(check, users, email, r.password) else !Unclaimed(users, email, r))
    && (reply.BadRequest? <==> Unclaimed(users, email, r) && !r.strong)
    && (reply.LoggedIn? ==> IsTokenFor(check, users, after, email, r, reply.token))
  }

  /** The token is for the row of the address as it is now, and that row's hash verifies
      the password or was made for it. */
  ghost predicate IsTokenFor(check: Check, users: Users, after: Users, email: string, r: Request, t: Token) {
    && t.id in after && after[t.id].email == email && t.version == after[t.id].tokenVersion
    && (if Known(users, email, r) then check(r.password, after[t.id].passwordHash)
        else t.id == r.newId && r.hash == Some(after[t.id].passwordHash))
  }

  lemma DecidedAnswers(check: Check, users: Users, found: Option<nat>, email: string, r: Request)
    requires UniqueEmails(users) && Finds(users, email, r.faults.fetch, found)
    ensures var (after, v) := Decided(check, users, found, email, r);
      && Answers(check, users, after, email, r, ReplyTo(v, r))
      && (v.Admitted? <==> LetsIn(check, users, email, r))
      && (v.Refused? <==> ReplyTo(v, r).Unauthorized?)
  {
    assert forall id :: id in Admins(users) <==> id in users && users[id].isAdmin;
    assert found.Some? <==> Known(users, email, r);
  }

  /** What the limiter is told: a failure for a refusal, a success for a login that is let
      in even if signing its token fails, and otherwise nothing. */
  ghost predicate TellsLimiter(c: LimiterState.Config, checked: LimiterState.State, after: LimiterState.State,
                               email: string, r: Request, letIn: bool, reply: Reply, ev: (set<string>, set<string>)) {
    if reply.Unauthorized? then
      var call := LimiterCalls.Fail(r.ip, email, r.recordAt, ev);
      LimiterCalls.Possible(c, checked, call) && after == LimiterCalls.Next(c, checked, call)
    else after == if letIn then LimiterCalls.Next(c, checked, LimiterCalls.Succeed(r.ip, email)) else checked
  }

  /** The handler's statements, in order, as a run of login `l` of the interleaved
      system: it leaves the same table and signs the same token. */
  lemma DecidedIsARun(check: Check, s: System, l: nat, found: Option<nat>, email: string, r: Request)
      returns (steps: seq<Step>)
    requires !Has(s, l) && r.newId !in s.db.used && Finds(s.db.users, email, r.faults.fetch, found)
    requires r.hash.Some? ==> check(r.password, r.hash.value)
    ensures Runs(check, s, steps)
    ensures var (users, v) := Decided(check, s.db.users, found, email, r);
      && After(check, s, steps).db.users == users
      && After(check, s, steps).tokens
           == s.tokens + if v.Admitted? && !r.faults.sign then {TokenOf(v, r)} else {}
  {
    RunsOn(check, s, [], Start(l, email, r.password));
    steps := [] + [Start(l, email, r.password)];
    RunsOn(check, s, steps, Fetch(l, found));
    steps := steps + [Fetch(l, found)];
    if found.Some? {
      if Decided(check, s.db.users, found, email, r).1.Admitted? { steps := SignedRun(check, s, l, steps, r); }
    } else if Decided(check, s.db.users, found, email, r).1 != Refused {
      steps := SetUpRun(check, s, l, steps, email, r);
    }
  }

  /** The end of a run whose login is about to sign. */
  lemma SignedRun(check: Check, s: System, l: nat, steps: seq<Step>, r: Request) returns (longer: seq<Step>)
    requires Runs(check, s, steps)
    requires var m := After(check, s, steps); Has(m, l) && m.logins[l].Issuing? && m.logins[l].password == r.password
    ensures Runs(check, s, longer)
    ensures var m, n := After(check, s, steps), After(check, s, longer);
      var x := m.logins[l];
      && n.db == m.db
      && n.tokens == m.tokens + if r.faults.sign then {} else {TokenOf(Admitted(x.id, x.row, x.setup), r)}
  {
    longer := steps;
    if !r.faults.sign {
      RunsOn(check, s, steps, Issue(l));
      longer := steps + [Issue(l)];
    }
  }

  lemma SetUpRun(check: Check, s: System, l: nat, steps: seq<Step>, email: string, r: Request) returns (longer: seq<Step>)
    requires Runs(check, s, steps) && r.newId !in s.db.used && Admins(s.db.users) == {}
    requires r.hash.Some? ==> check(r.password, r.hash.value)
    requires var m := After(check, s, steps);
      && m.db == s.db && m.tokens == s.tokens
      && Has(m, l) && m.logins[l] == NoUser(email, r.password)
    requires !r.faults.admins
    ensures Runs(check, s, longer)
    ensures var (users, v) := Decided(check, s.db.users, None, email, r);
      && After(check, s, longer).db.users == users
      && After(check, s, longer).tokens
           == s.tokens + if v.Admitted? && !r.faults.sign then {TokenOf(v, r)} else {}
  {
    var v := Decided(check, s.db.users, None, email, r).1;
    longer := steps;
    if v.NotRetrieved? || v.Admitted? {
      RunsOn(check, s, longer, ReadAdmins(l, r.hash));
      longer := longer + [ReadAdmins(l, r.hash)];
      RunsOn(check, s, longer, SetUp(l, r.newId));
      longer := longer + [SetUp(l, r.newId)];
      if v.Admitted? {
        RunsOn(check, s, longer, Refetch(l, Some(r.newId)));
        longer := longer + [Refetch(l, Some(r.newId))];
        longer := SignedRun(check, s, l, longer, r);
      }
    }
  }

  /** A signed token is accepted at once, and its login either knew the password of
      the row or was the one to set up the first administrator. */
  lemma TokenWorksAtOnce(check: Check, users: Users, found: Option<nat>, email: string, r: Request)
    requires 0 !in users && r.newId != 0 && r.newId !in users && Finds(users, email, r.faults.fetch, found)
    requires r.hash.Some? ==> check(r.password, r.hash.value)
    requires ReplyTo(Decided(check, users, found, email, r).1, r).LoggedIn?
    ensures var (later, t) := (Decided(check, users, found, email, r).0, ReplyTo(Decided(check, users, found, email, r).1, r).token);
      && Accepts(later, t)
      && later[t.id].email == email && check(r.password, later[t.id].passwordHash)
      && (later != users ==> Admins(users) == {} && Admins(later) == {t.id})
  {
  }
}

module LoginHandlerCode {
  import opened Types
  import opened AccountState
  import opened AccountStore
  import opened AccountRuns
  import opened LoginHandlerSpec
  import opened LoginLimiterCode
  import LimiterState
  import LimiterCalls
  import LimiterRate

  /** `GetUserByEmail`, of which only the row's id and contents matter here. */
  method GetUserByEmail(store: Store, email: string, fails: bool) returns (found: Option<nat>)
    ensures Finds(store.users, email, fails, found)
  {
    if fails { return None; }
    var todo := store.users.Keys;
    while todo != {}
      invariant todo <= store.users.Keys
      invariant forall id :: id in store.users && id !in todo ==> store.users[id].email != email
      decreases todo
    {
      var id :| id in todo;
      if store.users[id].email == email { return Some(id); }
      todo := todo - {id};
    }
    found := None;
  }

  /** The handler between the limiter's check and its record. */
  method Authenticate(store: Store, check: Check, email: string, r: Request)
      returns (v: Verdict, ghost found: Option<nat>)
    requires r.newId !in store.users
    modifies store`users
    ensures Finds(old(store.users), email, r.faults.fetch, found)
    ensures (store.users, v) == Decided(check, old(store.users), found, email, r)
  {
    var row := GetUserByEmail(store, email, r.faults.fetch);
    found := row;
    if row.Some? {
      var user := store.users[row.value];
      if !check(r.password, user.passwordHash) { return Refused, found; }
      return Admitted(row.value, user, None), found;
    }
    var hasAdmins := store.HasAdmins();
    assert hasAdmins <==> Admins(store.users) != {} by {
      assert forall id :: id in Admins(store.users) <==> id in store.users && store.users[id].isAdmin;
    }
    if r.faults.admins || hasAdmins { return Refused, found; }
    v := SetUpAccount(store, email, r);
  }

  method SetUpAccount(store: Store, email: string, r: Request) returns (v: Verdict)
    requires r.newId !in store.users && Admins(store.users) == {}
    modifies store`users
    ensures (store.users, v) == SetUpDecided(old(store.users), email, r)
  {
    if !r.strong { return WeakPassword; }
    if r.hash.None? { return HashFailed; }
    if r.faults.create { return SetupFailed; }
    var made := store.CreateInitialAdmin(r.newId, email, r.hash.value);
    if made.Err? {
      return if made.error == InitialAdminExists then Refused else SetupFailed;
    }
    assert store.users[r.newId].email == email;
    var row := GetUserByEmail(store, email, r.faults.refetch);
    if row.None? { return NotRetrieved; }
    v := Admitted(row.value, store.users[row.value], Some(Setup(r.newId, r.hash.value)));
  }

  /** `HandleLogin`. A request without a valid body or address changes nothing; one
      that is limited is told for how many seconds; any other gets the store's
      verdict. The limiter ends up as after one login of `LimiterRate`. */
  method HandleLogin(limiter: LoginAttemptLimiter, store: Store, check: Check, r: Request)
      returns (reply: Reply, ghost v: Option<Verdict>, ghost found: Option<nat>, ghost ev: (set<string>, set<string>))
    requires limiter.Valid() && r.newId !in store.users
    modifies limiter, store`users
    ensures limiter.Valid()
    ensures r.email.None? ==> reply == BadRequest && v == None && limiter.View() == old(limiter.View())
    ensures r.email.Some? ==>
      var wait := LimiterState.RetryAfter(limiter.config, old(limiter.attempts), r.ip, r.email.value, r.checkAt);
      && limiter.View() == LimiterRate.Served(limiter.config, old(limiter.View()), LoginOf(r, v, ev))
      && (v.None? <==> wait > 0)
      && (v.None? ==> reply == TooMany(LimiterCalls.HeaderSeconds(wait)))
    ensures v.None? ==> store.users == old(store.users)
    ensures v.Some? ==>
      && r.email.Some? && Finds(old(store.users), r.email.value, r.faults.fetch, found)
      && (store.users, v.value) == Decided(check, old(store.users), found, r.email.value, r)
      && reply == ReplyTo(v.value, r)
    ensures v == Some(Refused) ==>
      var checked := LimiterState.Checked(limiter.config, old(limiter.View()), r.ip, r.email.value, r.checkAt);
      LimiterState.FailureEvicts(limiter.config, checked, r.ip, r.email.value, r.recordAt, ev)
    ensures v.Some? && UniqueEmails(old(store.users)) ==>
      var checked := LimiterState.Checked(limiter.config, old(limiter.View()), r.ip, r.email.value, r.checkAt);
      && Answers(check, old(store.users), store.users, r.email.value, r, reply)
      && TellsLimiter(limiter.config, checked, limiter.View(), r.email.value, r,
                      LetsIn(check, old(store.users), r.email.value, r), reply, ev)
    ensures v.Some? && reply.LoggedIn? ==>
      "ip:" + r.ip !in limiter.attempts && "account:" + limiter.config.canonical(r.email.value) !in limiter.attempts
    ensures (reply.Unauthorized? <==> v == Some(Refused)) && (reply.TooMany? <==> v.None? && r.email.Some?)
    ensures limiter.failedAttemptsTotal == old(limiter.failedAttemptsTotal) + if v == Some(Refused) then 1 else 0
    ensures limiter.rateLimitedAttemptsTotal
      == old(limiter.rateLimitedAttemptsTotal) + if v.None? && r.email.Some? then 1 else 0
  {
    v, found, ev := None, None, ({}, {});
    if r.email.None? { return BadRequest, v, found, ev; }
    var retryAfter := limiter.RetryAfter(r.ip, r.email.value, r.checkAt);
    if retryAfter > 0 {
      limiter.RecordRateLimited();
      return TooMany(LimiterCalls.HeaderSeconds(retryAfter)), v, found, ev;
    }
    ghost var verdict;
    reply, verdict, found, ev := Proceed(limiter, store, check, r);
    v := Some(verdict);
  }

  /** The handler after the limiter has let the login through. */
  method Proceed(limiter: LoginAttemptLimiter, store: Store, check: Check, r: Request)
      returns (reply: Reply, ghost v: Verdict, ghost found: Option<nat>, ghost ev: (set<string>, set<string>))
    requires limiter.Valid() && r.newId !in store.users && r.email.Some?
    modifies limiter, store`users
    ensures limiter.Valid()
    ensures limiter.View() == LimiterRate.Concluded(limiter.config, old(limiter.View()), LoginOf(r, Some(v), ev))
    ensures Finds(old(store.users), r.email.value, r.faults.fetch, found)
    ensures (store.users, v) == Decided(check, old(store.users), found, r.email.value, r)
    ensures reply == ReplyTo(v, r)
    ensures v == Refused ==>
      LimiterState.FailureEvicts(limiter.config, old(limiter.View()), r.ip, r.email.value, r.recordAt, ev)
    ensures UniqueEmails(old(store.users)) ==>
      && Answers(check, old(store.users), store.users, r.email.value, r, reply)
      && TellsLimiter(limiter.config, old(limiter.View()), limiter.View(), r.email.value, r,
                      LetsIn(check, old(store.users), r.email.value, r), reply, ev)
    ensures reply.LoggedIn? ==>
      "ip:" + r.ip !in limiter.attempts && "account:" + limiter.config.canonical(r.email.value) !in limiter.attempts
    ensures (reply.Unauthorized? <==> v == Refused) && !reply.TooMany?
    ensures limiter.failedAttemptsTotal == old(limiter.failedAttemptsTotal) + if v == Refused then 1 else 0
    ensures limiter.rateLimitedAttemptsTotal == old(limiter.rateLimitedAttemptsTotal)
  {
    var verdict;
    verdict, found := Authenticate(store, check, r.email.value, r);
    ev := Tell(limiter, r, verdict);
    reply, v := ReplyTo(verdict, r), verdict;
    if UniqueEmails(old(store.users)) { DecidedAnswers(check, old(store.users), found, r.email.value, r); }
  }

  /** The calls `RecordFailure` and `RecordSuccess` of the handler. */
  method Tell(limiter: LoginAttemptLimiter, r: Request, verdict: Verdict) returns (ghost ev: (set<string>, set<string>))
    requires limiter.Valid() && r.email.Some?
    modifies limiter
    ensures limiter.Valid()
    ensures limiter.View() == LimiterRate.Concluded(limiter.config, old(limiter.View()), LoginOf(r, Some(verdict), ev))
    ensures verdict == Refused ==>
      LimiterState.FailureEvicts(limiter.config, old(limiter.View()), r.ip, r.email.value, r.recordAt, ev)
    ensures limiter.failedAttemptsTotal
      == old(limiter.failedAttemptsTotal) + if verdict == Refused then 1 else 0
    ensures limiter.rateLimitedAttemptsTotal == old(limiter.rateLimitedAttemptsTotal)
  {
    ev := ({}, {});
    match verdict {
      case Refused => ev := limiter.RecordFailure(r.ip, r.email.value, r.recordAt);
      case Admitted(_, _, _) => limiter.RecordSuccess(r.ip, r.email.value);
      case _ =>
    }
  }

  /** `AuthMiddleware` for the claims of a token that is signed and has not expired:
      the request goes on as the current row, or not at all. */
  method Authorize(store: Store, subject: nat, version: nat) returns (row: Option<User>)
    ensures row.Some? <==> subject != 0 && subject in store.users && store.users[subject].tokenVersion == version
    ensures row.Some? ==> row.value == store.users[subject] && row.value.tokenVersion == version
  {
    if subject == 0 || subject !in store.users { return None; }
    var user := store.users[subject];
    row := if user.tokenVersion != version then None else Some(user);
  }

  /** A logout behind `AuthMiddleware`: it succeeds exactly if the token was accepted,
      and leaves it refused and every other row as it was. */
  method HandleLogout(store: Store, t: Token) returns (ok: bool)
    modifies store`users
    ensures ok <==> Accepts(old(store.users), t)
    ensures ok <==> t.id != 0 && t.id in old(store.users) && old(store.users)[t.id].tokenVersion == t.version
    ensures !Accepts(store.users, t)
    ensures store.users.Keys == old(store.users).Keys
    ensures forall id :: id in store.users ==>
      store.users[id].tokenVersion == old(store.users)[id].tokenVersion + if ok && id == t.id then 1 else 0
    ensures forall id :: id in store.users && (id != t.id || !ok) ==> store.users[id] == old(store.users)[id]
    ensures forall id :: id in store.users ==> SameCredentials(store.users[id], old(store.users)[id])
  {
    var row := Authorize(store, t.id, t.version);
    if row.None? { return false; }
    var r := store.RevokeUserTokens(t.id, row.value.tokenVersion);
    ok := r.Ok?;
  }
}
