/** Logins, user administration and logouts, interleaved statement by statement. */
module AccountRuns {
  import opened Types
  import opened AccountState

  /** `used` are the row ids ever assigned. That the database never assigns one of
      them again is the hypothesis of every result here (see `Enabled`). */
  datatype Database = Database(users: Users, used: set<nat>)

  /** The row a setup login inserted, and the hash it made of its password. */
  datatype Setup = Setup(id: nat, hash: string)

  /** Where a run of `HandleLogin` stands. */
  datatype Login =
    | Fetching(email: string, password: string)
    | NoUser(email: string, password: string)
    | Creating(email: string, password: string, hash: string)
    | Refetching(email: string, password: string, made: Setup)
    | Issuing(id: nat, row: User, password: string, setup: Option<Setup>)
    | Ended

  /** A signed token: what its claims hold, and how its login came by them.
      `setup` is None when the password was checked against `row`. */
  datatype Token = Token(id: nat, version: nat, row: User, password: string, setup: Option<Setup>)

  datatype System = System(db: Database, logins: map<nat, Login>, tokens: set<Token>)

  datatype Step =
    | Create(newId: nat, email: string, hash: string, isAdmin: bool)
    | Update(id: nat, newHash: Option<string>, role: Option<bool>)
    | Delete(id: nat)
    | Revoke(id: nat, version: nat)
    | Start(login: nat, email: string, password: string)
    | Fetch(login: nat, found: Option<nat>)
    | ReadAdmins(login: nat, made: Option<string>)
    | SetUp(login: nat, newId: nat)
    | Refetch(login: nat, found: Option<nat>)
    | Issue(login: nat)

  /** `CheckPasswordHash`. */
  type Check = (string, string) -> bool

  predicate IsRowOf(users: Users, id: nat, email: string) {
    id in users && users[id].email == email
  }

  predicate Has(s: System, login: nat) {
    login in s.logins
  }

  /** A lookup that finds nothing may also be one that failed. A hash is made only
      where no administrator was read, and verifies the login's password. */
  predicate Enabled(check: Check, s: System, step: Step) {
    match step
    case Create(newId, _, _, _) => newId !in s.db.used
    case Update(_, _, _) => true
    case Delete(_) => true
    case Revoke(_, _) => true
    case Start(l, _, _) => !Has(s, l)
    case Fetch(l, found) => Has(s, l) && s.logins[l].Fetching?
        && (found.Some? ==> IsRowOf(s.db.users, found.value, s.logins[l].email))
    case ReadAdmins(l, hash) => Has(s, l) && s.logins[l].NoUser?
        && (hash.Some? ==> Admins(s.db.users) == {} && check(s.logins[l].password, hash.value))
    case SetUp(l, newId) => Has(s, l) && s.logins[l].Creating? && newId !in s.db.used
    case Refetch(l, found) => Has(s, l) && s.logins[l].Refetching?
        && (found.Some? ==> IsRowOf(s.db.users, found.value, s.logins[l].email))
    case Issue(l) => Has(s, l) && s.logins[l].Issuing?
  }

  function Insert(db: Database, id: nat, u: User): Database {
    Database(db.users[id := u], db.used + {id})
  }

  function AfterFetch(check: Check, users: Users, l: Login, found: Option<nat>): Login
    requires l.Fetching? && (found.Some? ==> found.value in users)
  {
    if found.None? then NoUser(l.email, l.password)
    else if check(l.password, users[found.value].passwordHash)
    then Issuing(found.value, users[found.value], l.password, None)
    else Ended
  }

  function Apply(check: Check, s: System, step: Step): System
    requires Enabled(check, s, step)
  {
    var users := s.db.users;
    match step
    case Create(newId, email, hash, isAdmin) =>
      if MayInsert(users, email) then s.(db := Insert(s.db, newId, User(email, hash, isAdmin, 0))) else s
    case Update(id, hash, role) => s.(db := s.db.(users := Updated(users, id, hash, role)))
    case Delete(id) => s.(db := s.db.(users := Deleted(users, id)))
    case Revoke(id, version) => s.(db := s.db.(users := Revoked(users, id, version)))
    case Start(l, email, password) => s.(logins := s.logins[l := Fetching(email, password)])
    case Fetch(l, found) => s.(logins := s.logins[l := AfterFetch(check, users, s.logins[l], found)])
    case ReadAdmins(l, hash) =>
      var x := s.logins[l];
      s.(logins := s.logins[l := if hash.Some? then Creating(x.email, x.password, hash.value) else Ended])
    case SetUp(l, newId) =>
      var x := s.logins[l];
      if MaySetUp(users, x.email) then
        System(Insert(s.db, newId, User(x.email, x.hash, true, 0)),
               s.logins[l := Refetching(x.email, x.password, Setup(newId, x.hash))],
               s.tokens)
      else s.(logins := s.logins[l := Ended])
    case Refetch(l, found) =>
      var x := s.logins[l];
      s.(logins := s.logins[l := if found.None? then Ended
                                 else Issuing(found.value, users[found.value], x.password, Some(x.made))])
    case Issue(l) =>
      var x := s.logins[l];
      s.(logins := s.logins[l := Ended],
         tokens := s.tokens + {Token(x.id, x.row.tokenVersion, x.row, x.password, x.setup)})
  }

  /** `AuthMiddleware`, for a token whose signature and expiry are in order. */
  predicate Accepts(users: Users, t: Token) {
    t.id != 0 && t.id in users && users[t.id].tokenVersion == t.version
  }

  predicate Init(s: System) {
    s.logins == map[] && s.tokens == {} && s.db.users.Keys <= s.db.used
  }

  predicate Runs(check: Check, s: System, steps: seq<Step>)
    decreases |steps|
  {
    steps == [] || (Enabled(check, s, steps[0]) && Runs(check, Apply(check, s, steps[0]), steps[1..]))
  }

  function After(check: Check, s: System, steps: seq<Step>): System
    requires Runs(check, s, steps)
    decreases |steps|
  {
    if steps == [] then s else After(check, Apply(check, s, steps[0]), steps[1..])
  }

  // -------------------------------------- a version determines hash and role

  predicate SameCredentials(u: User, v: User) {
    u.passwordHash == v.passwordHash && u.isAdmin == v.isAdmin
  }

  /** `later` is what may have become of `row` since. */
  predicate Succeeds(row: User, later: User) {
    && later.email == row.email
    && row.tokenVersion <= later.tokenVersion
    && (row.tokenVersion == later.tokenVersion ==> SameCredentials(row, later))
  }

  /** Rows only move forward, and a row once deleted never comes back. */
  ghost predicate Evolves(a: Database, b: Database) {
    && a.used <= b.used
    && (forall id :: id in a.users && id in b.users ==> Succeeds(a.users[id], b.users[id]))
    && (forall id :: id in a.used && id in b.users ==> id in a.users)
  }

  ghost predicate KnowsIds(db: Database) {
    db.users.Keys <= db.used
  }

  lemma StepEvolves(check: Check, s: System, step: Step)
    requires KnowsIds(s.db) && Enabled(check, s, step)
    ensures KnowsIds(Apply(check, s, step).db)
    ensures Evolves(s.db, Apply(check, s, step).db)
  {
  }

  lemma {:induction false} RunEvolves(check: Check, s: System, steps: seq<Step>)
    requires KnowsIds(s.db) && Runs(check, s, steps)
    ensures KnowsIds(After(check, s, steps).db)
    ensures Evolves(s.db, After(check, s, steps).db)
    decreases |steps|
  {
    if steps != [] {
      var n := Apply(check, s, steps[0]);
      StepEvolves(check, s, steps[0]);
      RunEvolves(check, n, steps[1..]);
      EvolvesOn(s.db, n.db, After(check, n, steps[1..]).db);
    }
  }

  lemma EvolvesOn(a: Database, b: Database, c: Database)
    requires KnowsIds(a) && Evolves(a, b) && Evolves(b, c)
    ensures Evolves(a, c)
  {
    forall id | id in a.users && id in c.users ensures Succeeds(a.users[id], c.users[id]) {
      assert id in a.used && id in b.used && id in b.users;
    }
  }

  /** In every run, whatever interleaves with what: a user's token_version never
      decreases, and a user id with a token_version stands for one password hash
      and one role. */
  lemma VersionDeterminesCredentials(check: Check, s: System, steps: seq<Step>, more: seq<Step>, id: nat)
    requires Init(s) && Runs(check, s, steps) && Runs(check, After(check, s, steps), more)
    requires id in After(check, s, steps).db.users && id in After(check, After(check, s, steps), more).db.users
    ensures var early, late := After(check, s, steps).db.users[id], After(check, After(check, s, steps), more).db.users[id];
      && early.tokenVersion <= late.tokenVersion
      && (early.tokenVersion == late.tokenVersion ==> SameCredentials(early, late))
  {
    RunEvolves(check, s, steps);
    RunEvolves(check, After(check, s, steps), more);
  }

  // ------------------------------------------------------------------- tokens

  /** `row` was a row of user `id` at some earlier time. */
  ghost predicate Seen(db: Database, id: nat, row: User) {
    id in db.used && (id in db.users ==> Succeeds(row, db.users[id]))
  }

  ghost predicate SetupSound(check: Check, db: Database, email: string, password: string, made: Setup) {
    check(password, made.hash) && Seen(db, made.id, User(email, made.hash, true, 0))
  }

  /** What a login knows when it is about to sign `row`. */
  ghost predicate Sound(check: Check, db: Database, id: nat, row: User, password: string, setup: Option<Setup>) {
    && Seen(db, id, row)
    && (setup.None? ==> check(password, row.passwordHash))
    && (setup.Some? ==> check(password, setup.value.hash))
    && (setup.Some? && id == setup.value.id ==> Succeeds(User(row.email, setup.value.hash, true, 0), row))
  }

  ghost predicate LoginSound(check: Check, db: Database, l: Login) {
    match l
    case Creating(_, password, hash) => check(password, hash)
    case Refetching(email, password, made) => SetupSound(check, db, email, password, made)
    case Issuing(id, row, password, setup) => Sound(check, db, id, row, password, setup)
    case _ => true
  }

  ghost predicate TokenSound(check: Check, db: Database, t: Token) {
    t.version == t.row.tokenVersion && Sound(check, db, t.id, t.row, t.password, t.setup)
  }

  ghost predicate Inv(check: Check, s: System) {
    && KnowsIds(s.db)
    && (forall l :: l in s.logins ==> LoginSound(check, s.db, s.logins[l]))
    && (forall t :: t in s.tokens ==> TokenSound(check, s.db, t))
  }

  lemma SeenStays(a: Database, b: Database, id: nat, row: User)
    requires Seen(a, id, row) && Evolves(a, b)
    ensures Seen(b, id, row)
  {
  }

  lemma LoginSoundStays(check: Check, a: Database, b: Database, l: Login)
    requires LoginSound(check, a, l) && Evolves(a, b)
    ensures LoginSound(check, b, l)
  {
    match l
    case Refetching(email, _, made) => SeenStays(a, b, made.id, User(email, made.hash, true, 0));
    case Issuing(id, row, _, _) => SeenStays(a, b, id, row);
    case _ =>
  }

  lemma InvStays(check: Check, a: Database, b: Database, logins: map<nat, Login>, tokens: set<Token>)
    requires Inv(check, System(a, logins, tokens)) && Evolves(a, b) && KnowsIds(b)
    ensures Inv(check, System(b, logins, tokens))
  {
    forall l | l in logins ensures LoginSound(check, b, logins[l]) {
      LoginSoundStays(check, a, b, logins[l]);
    }
    forall t | t in tokens ensures TokenSound(check, b, t) {
      SeenStays(a, b, t.id, t.row);
    }
  }

  lemma StepKeepsInv(check: Check, s: System, step: Step)
    requires Inv(check, s) && Enabled(check, s, step)
    ensures Inv(check, Apply(check, s, step))
  {
    var n := Apply(check, s, step);
    StepEvolves(check, s, step);
    InvStays(check, s.db, n.db, s.logins, s.tokens);
  }

  lemma {:induction false} RunKeepsInv(check: Check, s: System, steps: seq<Step>)
    requires Inv(check, s) && Runs(check, s, steps)
    ensures Inv(check, After(check, s, steps))
    decreases |steps|
  {
    if steps != [] {
      StepKeepsInv(check, s, steps[0]);
      RunKeepsInv(check, Apply(check, s, steps[0]), steps[1..]);
    }
  }

  /** A token that is accepted stands for the credentials its login read: the hash
      still stored and the role still held. If the login checked a password, that
      password is the one the stored hash verifies. */
  lemma AcceptedTokensMatchTheStoredHash(check: Check, s: System, steps: seq<Step>, t: Token)
    requires Init(s) && Runs(check, s, steps) && t in After(check, s, steps).tokens
    requires Accepts(After(check, s, steps).db.users, t)
    ensures var u := After(check, s, steps).db.users[t.id];
      && SameCredentials(u, t.row)
      && (t.setup.None? ==> check(t.password, u.passwordHash))
  {
    RunKeepsInv(check, s, steps);
  }

  /** In the setup branch the password was checked against nothing. A token for the
      inserted id and version 0 is for the very row the setup inserted, whose hash
      verifies the password; `SetupTokensForTheNewRow` says when it is one. */
  lemma SetupTokenVerifies(check: Check, s: System, steps: seq<Step>, t: Token)
    requires Init(s) && Runs(check, s, steps) && t in After(check, s, steps).tokens && t.setup.Some?
    requires t.id == t.setup.value.id && t.version == 0
    ensures t.row == User(t.row.email, t.setup.value.hash, true, 0) && check(t.password, t.row.passwordHash)
  {
    RunKeepsInv(check, s, steps);
  }

  // ------------------------------------------ whom a setup token is for, exactly

  /** The unique index on the address. */
  ghost predicate UniqueEmails(users: Users) {
    forall a, b :: a in users && b in users && users[a].email == users[b].email ==> a == b
  }

  lemma StepKeepsUniqueEmails(check: Check, s: System, step: Step)
    requires Enabled(check, s, step) && UniqueEmails(s.db.users)
    ensures UniqueEmails(Apply(check, s, step).db.users)
  {
  }

  lemma {:induction false} RunKeepsUniqueEmails(check: Check, s: System, steps: seq<Step>)
    requires Runs(check, s, steps) && UniqueEmails(s.db.users)
    ensures UniqueEmails(After(check, s, steps).db.users)
    decreases |steps|
  {
    if steps != [] {
      StepKeepsUniqueEmails(check, s, steps[0]);
      RunKeepsUniqueEmails(check, Apply(check, s, steps[0]), steps[1..]);
    }
  }

  /** The refetch finds the inserted row exactly if that row is still there. */
  lemma RefetchFindsInserted(check: Check, s: System, l: nat, id: nat)
    requires Inv(check, s) && UniqueEmails(s.db.users) && Enabled(check, s, Refetch(l, Some(id)))
    ensures var made := s.logins[l].made; id == made.id <==> made.id in s.db.users
  {
    assert LoginSound(check, s.db, s.logins[l]);
  }

  /** Some step of the run deletes the row `id`, and takes effect. */
  predicate Deletes(check: Check, s: System, steps: seq<Step>, id: nat)
    requires Runs(check, s, steps)
    decreases |steps|
  {
    steps != [] && ((steps[0] == Delete(id) && MayLoseAdmin(s.db.users, id))
                    || Deletes(check, Apply(check, s, steps[0]), steps[1..], id))
  }

  /** Some step of the run gives the row `id` a new version. */
  predicate Renews(check: Check, s: System, steps: seq<Step>, id: nat)
    requires Runs(check, s, steps)
    decreases |steps|
  {
    steps != [] && (Bumps(s.db.users, steps[0], id) || Renews(check, Apply(check, s, steps[0]), steps[1..], id))
  }

  lemma StepDeletes(check: Check, s: System, step: Step, id: nat)
    requires KnowsIds(s.db) && Enabled(check, s, step) && id in s.db.users
    ensures id in Apply(check, s, step).db.users <==> !(step == Delete(id) && MayLoseAdmin(s.db.users, id))
  {
  }

  lemma {:induction false} GoneExactlyIfDeleted(check: Check, s: System, steps: seq<Step>, id: nat)
    requires KnowsIds(s.db) && Runs(check, s, steps) && id in s.db.users
    ensures id in After(check, s, steps).db.users <==> !Deletes(check, s, steps, id)
    decreases |steps|
  {
    if steps != [] {
      var n := Apply(check, s, steps[0]);
      StepDeletes(check, s, steps[0], id);
      StepEvolves(check, s, steps[0]);
      if id in n.db.users {
        GoneExactlyIfDeleted(check, n, steps[1..], id);
      } else {
        RunEvolves(check, n, steps[1..]);
      }
    }
  }

  /** A row that survives has its version exactly if no step gave it a new one. */
  lemma {:induction false} SameVersionExactlyIfNotRenewed(check: Check, s: System, steps: seq<Step>, id: nat)
    requires KnowsIds(s.db) && Runs(check, s, steps) && id in s.db.users && id in After(check, s, steps).db.users
    ensures After(check, s, steps).db.users[id].tokenVersion == s.db.users[id].tokenVersion
      <==> !Renews(check, s, steps, id)
    decreases |steps|
  {
    if steps != [] {
      var n := Apply(check, s, steps[0]);
      StepEvolves(check, s, steps[0]);
      RunEvolves(check, n, steps[1..]);
      assert id in n.db.users;
      BumpsAreTheNewVersions(check, s, steps[0], id);
      SameVersionExactlyIfNotRenewed(check, n, steps[1..], id);
    }
  }

  predicate PastRefetch(l: Login) {
    l.Issuing? || l.Ended?
  }

  /** A setup login keeps what it made until it refetches, and then never refetches again. */
  lemma {:induction false} SetupIsRemembered(check: Check, s: System, steps: seq<Step>, l: nat)
    requires Runs(check, s, steps) && Has(s, l) && (s.logins[l].Refetching? || PastRefetch(s.logins[l]))
    ensures var n := After(check, s, steps);
      Has(n, l) && (PastRefetch(n.logins[l]) || n.logins[l] == s.logins[l])
    decreases |steps|
  {
    if steps != [] { SetupIsRemembered(check, Apply(check, s, steps[0]), steps[1..], l); }
  }

  predicate AsInserted(x: Login, newId: nat, row: User)
    requires x.Issuing?
  {
    x.id == newId && x.row == row
  }

  /** A setup login inserts its row, other steps follow, and it reads a row back, for which
      it will sign a token. In every run, that is the row it inserted if and only if none of
      the steps between deleted that row; and it is as inserted, with the hash of the
      login's password, if and only if besides none gave it a new version. */
  lemma SetupTokensForTheNewRow(check: Check, s: System, before: seq<Step>, l: nat, newId: nat, between: seq<Step>, id: nat)
    requires Init(s) && UniqueEmails(s.db.users) && Runs(check, s, before)
    requires Enabled(check, After(check, s, before), SetUp(l, newId)) && SetsUp(After(check, s, before), SetUp(l, newId))
    requires Runs(check, Apply(check, After(check, s, before), SetUp(l, newId)), between)
    requires Enabled(check, After(check, Apply(check, After(check, s, before), SetUp(l, newId)), between), Refetch(l, Some(id)))
    ensures var made := Apply(check, After(check, s, before), SetUp(l, newId));
      var found := After(check, made, between);
      var x := Apply(check, found, Refetch(l, Some(id))).logins[l];
      && x.Issuing? && x.id == id && x.setup == Some(made.logins[l].made)
      && (id == newId <==> !Deletes(check, made, between, newId))
      && (AsInserted(x, newId, made.db.users[newId]) <==>
            !Deletes(check, made, between, newId) && !Renews(check, made, between, newId))
      && check(x.password, made.db.users[newId].passwordHash)
  {
    var start := After(check, s, before);
    var made := Apply(check, start, SetUp(l, newId));
    var found := After(check, made, between);
    RunKeepsInv(check, s, before);
    StepKeepsInv(check, start, SetUp(l, newId));
    RunKeepsInv(check, made, between);
    RunKeepsUniqueEmails(check, s, before);
    StepKeepsUniqueEmails(check, start, SetUp(l, newId));
    RunKeepsUniqueEmails(check, made, between);
    SetupIsRemembered(check, made, between, l);
    RefetchFindsInserted(check, found, l, id);
    GoneExactlyIfDeleted(check, made, between, newId);
    if id == newId {
      SameVersionExactlyIfNotRenewed(check, made, between, newId);
      RunEvolves(check, made, between);
    }
  }

  /** A token refused for its version or a missing user is refused ever after. */
  lemma RejectedStaysRejected(check: Check, s: System, steps: seq<Step>, more: seq<Step>, t: Token)
    requires Init(s) && Runs(check, s, steps) && Runs(check, After(check, s, steps), more)
    requires t in After(check, s, steps).tokens && !Accepts(After(check, s, steps).db.users, t)
    ensures !Accepts(After(check, After(check, s, steps), more).db.users, t)
  {
    RunKeepsInv(check, s, steps);
    RunEvolves(check, After(check, s, steps), more);
  }

  /** A password change, a real role change or a logout of `id`, carried out. */
  predicate Bumps(users: Users, step: Step, id: nat) {
    match step
    case Update(i, hash, role) =>
      i == id && MayUpdate(users, id, role) && (SetsPassword(hash) || (role.Some? && role.value != users[id].isAdmin))
    case Revoke(i, version) => i == id && MayRevoke(users, id, version)
    case _ => false
  }

  /** Those steps, and no others, give a user a new version: the next one. */
  lemma BumpsAreTheNewVersions(check: Check, s: System, step: Step, id: nat)
    requires KnowsIds(s.db) && Enabled(check, s, step) && id in s.db.users && id in Apply(check, s, step).db.users
    ensures Apply(check, s, step).db.users[id].tokenVersion
      == s.db.users[id].tokenVersion + if Bumps(s.db.users, step, id) then 1 else 0
  {
  }

  /** Such a step kills every token of the user that exists, and every token that a
      login which had already read the row goes on to sign. */
  lemma BumpKillsEarlierTokens(check: Check, s: System, steps: seq<Step>, step: Step, id: nat, more: seq<Step>, t: Token)
    requires Init(s) && Runs(check, s, steps)
    requires Enabled(check, After(check, s, steps), step) && Bumps(After(check, s, steps).db.users, step, id)
    requires Runs(check, Apply(check, After(check, s, steps), step), more)
    requires t.id == id
    requires t in After(check, s, steps).tokens
      || exists l :: l in After(check, s, steps).logins && After(check, s, steps).logins[l].Issuing?
           && After(check, s, steps).logins[l].id == id && After(check, s, steps).logins[l].row.tokenVersion == t.version
    ensures !Accepts(After(check, Apply(check, After(check, s, steps), step), more).db.users, t)
  {
    var mid := After(check, s, steps);
    RunKeepsInv(check, s, steps);
    assert t.version <= mid.db.users[id].tokenVersion;
    StepEvolves(check, mid, step);
    RunEvolves(check, Apply(check, mid, step), more);
  }

  /** Of all logouts with one user id and version, at most one succeeds. */
  lemma RevokeSucceedsOnce(check: Check, s: System, id: nat, version: nat, more: seq<Step>)
    requires KnowsIds(s.db) && Enabled(check, s, Revoke(id, version)) && MayRevoke(s.db.users, id, version)
    requires Runs(check, Apply(check, s, Revoke(id, version)), more)
    ensures !MayRevoke(After(check, Apply(check, s, Revoke(id, version)), more).db.users, id, version)
  {
    StepEvolves(check, s, Revoke(id, version));
    RunEvolves(check, Apply(check, s, Revoke(id, version)), more);
  }

  // ----------------------------------------------------------- administrators

  ghost predicate HasAdmin(users: Users) {
    exists id :: id in users && users[id].isAdmin
  }

  lemma AnotherAdmin(users: Users, id: nat) returns (other: nat)
    requires |Admins(users)| > 1
    ensures other in users && users[other].isAdmin && other != id
  {
    var rest := Admins(users) - {id};
    assert Admins(users) <= rest + {id};
    assert |rest| >= |Admins(users)| - 1;
    other :| other in rest;
  }

  lemma StepKeepsAdmin(check: Check, s: System, step: Step)
    requires KnowsIds(s.db) && HasAdmin(s.db.users) && Enabled(check, s, step)
    ensures HasAdmin(Apply(check, s, step).db.users)
  {
    var users, later := s.db.users, Apply(check, s, step).db.users;
    var id :| id in users && users[id].isAdmin;
    if id in later && later[id].isAdmin {
    } else {
      assert step.Update? || step.Delete?;
      var other := AnotherAdmin(users, id);
      assert other in later && later[other].isAdmin;
    }
  }

  /** Once there is an administrator every run keeps one. */
  lemma {:induction false} RunKeepsAdmin(check: Check, s: System, steps: seq<Step>)
    requires KnowsIds(s.db) && HasAdmin(s.db.users) && Runs(check, s, steps)
    ensures HasAdmin(After(check, s, steps).db.users)
    decreases |steps|
  {
    if steps != [] {
      StepKeepsAdmin(check, s, steps[0]);
      StepEvolves(check, s, steps[0]);
      RunKeepsAdmin(check, Apply(check, s, steps[0]), steps[1..]);
    }
  }

  predicate SetsUp(s: System, step: Step) {
    step.SetUp? && Has(s, step.login) && s.logins[step.login].Creating?
    && MaySetUp(s.db.users, s.logins[step.login].email)
  }

  /** How many `CreateInitialAdmin` statements of a run insert a row. */
  function SetUps(check: Check, s: System, steps: seq<Step>): nat
    requires Runs(check, s, steps)
    decreases |steps|
  {
    if steps == [] then 0
    else (if SetsUp(s, steps[0]) then 1 else 0) + SetUps(check, Apply(check, s, steps[0]), steps[1..])
  }

  lemma {:induction false} NoSetUpWithAdmin(check: Check, s: System, steps: seq<Step>)
    requires KnowsIds(s.db) && HasAdmin(s.db.users) && Runs(check, s, steps)
    ensures SetUps(check, s, steps) == 0
    decreases |steps|
  {
    if steps != [] {
      var id :| id in s.db.users && s.db.users[id].isAdmin;
      assert id in Admins(s.db.users);
      StepKeepsAdmin(check, s, steps[0]);
      StepEvolves(check, s, steps[0]);
      NoSetUpWithAdmin(check, Apply(check, s, steps[0]), steps[1..]);
    }
  }

  /** In any run at most one setup creates the initial administrator, although each
      read the absence of administrators in an earlier step. */
  lemma {:induction false} SetUpSucceedsOnce(check: Check, s: System, steps: seq<Step>)
    requires KnowsIds(s.db) && Runs(check, s, steps)
    ensures SetUps(check, s, steps) <= 1
    decreases |steps|
  {
    if steps != [] {
      var n := Apply(check, s, steps[0]);
      StepEvolves(check, s, steps[0]);
      if SetsUp(s, steps[0]) {
        assert steps[0].newId in n.db.users && n.db.users[steps[0].newId].isAdmin;
        NoSetUpWithAdmin(check, n, steps[1..]);
      } else {
        SetUpSucceedsOnce(check, n, steps[1..]);
      }
    }
  }

  // ---------------------------------------- where the claims about tokens end

  const PLAIN: Check := (password, hash) => password == hash

  lemma {:induction false} RunsOn(check: Check, s: System, steps: seq<Step>, step: Step)
    requires Runs(check, s, steps) && Enabled(check, After(check, s, steps), step)
    ensures Runs(check, s, steps + [step])
    ensures After(check, s, steps + [step]) == Apply(check, After(check, s, steps), step)
    decreases |steps|
  {
    if steps == [] {
      assert steps + [step] == [step];
      assert [step][1..] == [];
      assert Runs(check, Apply(check, s, step), []);
    } else {
      RunsOn(check, Apply(check, s, steps[0]), steps[1..], step);
      assert (steps + [step])[1..] == steps[1..] + [step];
    }
  }

  const NOBODY := System(Database(map[], {}), map[], {})

  /** A setup login for the address `a` that has inserted row 1, before it reads the
      row back. */
  lemma SetUpSoFar() returns (steps: seq<Step>)
    ensures Runs(PLAIN, NOBODY, steps)
    ensures After(PLAIN, NOBODY, steps) ==
      System(Database(map[1 := User("a", "p", true, 0)], {1}), map[0 := Refetching("a", "p", Setup(1, "p"))], {})
  {
    var check, s := PLAIN, NOBODY;
    RunsOn(check, s, [], Start(0, "a", "p"));
    RunsOn(check, s, [] + [Start(0, "a", "p")], Fetch(0, None));
    var two := [] + [Start(0, "a", "p")] + [Fetch(0, None)];
    RunsOn(check, s, two, ReadAdmins(0, Some("p")));
    RunsOn(check, s, two + [ReadAdmins(0, Some("p"))], SetUp(0, 1));
    steps := two + [ReadAdmins(0, Some("p"))] + [SetUp(0, 1)];
  }

  const OTHERS := map[1 := User("a", "p", true, 0), 2 := User("b", "q", true, 0)]

  /** The same login when, before it reads the row back, another administrator is
      created, row 1 deleted and the address `a` given to a new user. */
  lemma SetUpOvertaken(steps: seq<Step>) returns (longer: seq<Step>)
    requires Runs(PLAIN, NOBODY, steps)
    requires After(PLAIN, NOBODY, steps) ==
      System(Database(map[1 := User("a", "p", true, 0)], {1}), map[0 := Refetching("a", "p", Setup(1, "p"))], {})
    ensures Runs(PLAIN, NOBODY, longer)
    ensures After(PLAIN, NOBODY, longer) ==
      System(Database(map[2 := User("b", "q", true, 0), 3 := User("a", "r", false, 0)], {1, 2, 3}),
             map[0 := Refetching("a", "p", Setup(1, "p"))], {})
  {
    RunsOn(PLAIN, NOBODY, steps, Create(2, "b", "q", true));
    longer := steps + [Create(2, "b", "q", true)];
    assert After(PLAIN, NOBODY, longer).db.users == OTHERS;
    longer := SetUpDeleted(longer);
  }

  lemma SetUpDeleted(steps: seq<Step>) returns (longer: seq<Step>)
    requires Runs(PLAIN, NOBODY, steps)
    requires After(PLAIN, NOBODY, steps) ==
      System(Database(OTHERS, {1, 2}), map[0 := Refetching("a", "p", Setup(1, "p"))], {})
    ensures Runs(PLAIN, NOBODY, longer)
    ensures After(PLAIN, NOBODY, longer) ==
      System(Database(map[2 := User("b", "q", true, 0), 3 := User("a", "r", false, 0)], {1, 2, 3}),
             map[0 := Refetching("a", "p", Setup(1, "p"))], {})
  {
    assert Admins(OTHERS) == {1, 2};
    RunsOn(PLAIN, NOBODY, steps, Delete(1));
    longer := steps + [Delete(1)];
    assert After(PLAIN, NOBODY, longer).db.users == map[2 := User("b", "q", true, 0)];
    RunsOn(PLAIN, NOBODY, longer, Create(3, "a", "r", false));
    longer := longer + [Create(3, "a", "r", false)];
  }

  /** So a token of the setup branch can be accepted for a user whose stored hash
      does not verify the password the login was given. */
  lemma SetupTokenForAnotherUser() returns (steps: seq<Step>, t: Token)
    ensures Init(NOBODY) && Runs(PLAIN, NOBODY, steps) && t in After(PLAIN, NOBODY, steps).tokens
    ensures var users := After(PLAIN, NOBODY, steps).db.users;
      Accepts(users, t) && !PLAIN(t.password, users[t.id].passwordHash)
  {
    var first := SetUpSoFar();
    var longer := SetUpOvertaken(first);
    RunsOn(PLAIN, NOBODY, longer, Refetch(0, Some(3)));
    RunsOn(PLAIN, NOBODY, longer + [Refetch(0, Some(3))], Issue(0));
    steps := longer + [Refetch(0, Some(3))] + [Issue(0)];
    t := Token(3, 0, User("a", "r", false, 0), "p", Some(Setup(1, "p")));
  }

  /** The hypothesis on row ids is needed: if a deleted user's id is assigned again, the
      new row's version decides, whoever it is, which of the deleted user's tokens are
      accepted again. A new row has version 0, so those of version 0 are. */
  lemma ReusedIdRevivesTokens(users: Users, id: nat, t: Token, next: User)
    requires id != 0 && MayLoseAdmin(users, id) && t.id == id
    ensures !Accepts(Deleted(users, id), t)
    ensures Accepts(Deleted(users, id)[id := next], t) <==> t.version == next.tokenVersion
  {
  }
}
