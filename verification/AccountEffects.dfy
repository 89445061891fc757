/** What each step does to the table of users and to the logins, in terms of rows, hashes
    and versions, and what that means for the logins that follow. */
module AccountEffects {
  import opened Types
  import opened AccountState
  import opened AccountRuns

  predicate Given(hash: Option<string>) {
    hash.Some? && hash.value != ""
  }

  /** An update that takes effect: there is the row, and the last administrator stays one. */
  ghost predicate TakesEffect(users: Users, step: Step) {
    step.Update? && step.id in users && !TakesLastAdmin(users, step.id, step.role)
  }

  /** The row after an update that takes effect; the other rows stay. */
  lemma UpdateChangesRow(check: Check, s: System, step: Step)
    requires Enabled(check, s, step) && TakesEffect(s.db.users, step)
    ensures var users, after := s.db.users, Apply(check, s, step).db.users;
      && step.id in after && after == users[step.id := after[step.id]]
      && after[step.id].email == users[step.id].email
      && after[step.id].passwordHash == (if Given(step.newHash) then step.newHash.value else users[step.id].passwordHash)
      && after[step.id].isAdmin == (if step.role.Some? then step.role.value else users[step.id].isAdmin)
      && after[step.id].tokenVersion == users[step.id].tokenVersion +
           if Given(step.newHash) || after[step.id].isAdmin != users[step.id].isAdmin then 1 else 0
  {
    OnlyLastAdminMayNot(s.db.users, step.id);
  }

  /** What every other step does to the table. */
  lemma StepChangesTable(check: Check, s: System, step: Step)
    requires Enabled(check, s, step)
    ensures var users, after := s.db.users, Apply(check, s, step).db.users;
      && (step.Create? ==>
            var taken := exists id :: id in users && users[id].email == step.email;
            after == if taken then users else users[step.newId := User(step.email, step.hash, step.isAdmin, 0)])
      && (step.Update? && !TakesEffect(users, step) ==> after == users)
      && (step.Delete? ==> after == if LastAdmin(users, step.id) then users else users - {step.id})
      && (step.Revoke? ==>
            var current := step.id in users && users[step.id].tokenVersion == step.version;
            after == if current then users[step.id := users[step.id].(tokenVersion := step.version + 1)] else users)
      && (step.SetUp? ==>
            var x := s.logins[step.login];
            var barred := exists id :: id in users && (users[id].isAdmin || users[id].email == x.email);
            after == if barred then users else users[step.newId := User(x.email, x.hash, true, 0)])
      && (!step.Create? && !step.Update? && !step.Delete? && !step.Revoke? && !step.SetUp? ==> after == users)
  {
    match step
    case Update(id, _, _) => OnlyLastAdminMayNot(s.db.users, id);
    case Delete(id) =>
      OnlyLastAdminMayNot(s.db.users, id);
      if id !in s.db.users { assert s.db.users - {id} == s.db.users; }
    case SetUp(_, _) =>
      assert forall id :: id in Admins(s.db.users) <==> id in s.db.users && s.db.users[id].isAdmin;
    case _ =>
  }

  // -------------------------------------------------------------------- logins

  /** A login that finds its row goes on to sign exactly if the row's hash verifies the
      password, and for that row; otherwise it ends. */
  lemma FetchDecides(check: Check, s: System, l: nat, id: nat)
    requires Enabled(check, s, Fetch(l, Some(id)))
    ensures var x, row := s.logins[l], s.db.users[id];
      Apply(check, s, Fetch(l, Some(id))).logins[l]
        == if check(x.password, row.passwordHash) then Issuing(id, row, x.password, None) else Ended
  {
  }

  /** A login that is to sign for a row signs a token of its id and version, and that token
      is accepted as long as there is such a row of that version. */
  lemma IssueSigns(check: Check, s: System, l: nat, users: Users)
    requires Enabled(check, s, Issue(l))
    ensures var x := s.logins[l];
      var t := Token(x.id, x.row.tokenVersion, x.row, x.password, x.setup);
      && Apply(check, s, Issue(l)).tokens == s.tokens + {t}
      && (Accepts(users, t) <==> x.id != 0 && x.id in users && users[x.id].tokenVersion == x.row.tokenVersion)
  {
  }

  // ----------------------------------------------------------- a changed password

  ghost predicate ChangesPassword(users: Users, step: Step, id: nat) {
    TakesEffect(users, step) && step.id == id && Given(step.newHash)
  }

  ghost predicate KeepsPassword(check: Check, s: System, steps: seq<Step>, id: nat)
    requires Runs(check, s, steps)
    decreases |steps|
  {
    steps == [] || (!ChangesPassword(s.db.users, steps[0], id) && KeepsPassword(check, Apply(check, s, steps[0]), steps[1..], id))
  }

  lemma StepKeepsHash(check: Check, s: System, step: Step, id: nat)
    requires KnowsIds(s.db) && Enabled(check, s, step) && !ChangesPassword(s.db.users, step, id)
    requires id in s.db.users && id in Apply(check, s, step).db.users
    ensures Apply(check, s, step).db.users[id].passwordHash == s.db.users[id].passwordHash
  {
    if TakesEffect(s.db.users, step) {
      UpdateChangesRow(check, s, step);
    } else {
      StepChangesTable(check, s, step);
    }
  }

  lemma {:induction false} RunKeepsHash(check: Check, s: System, steps: seq<Step>, id: nat)
    requires KnowsIds(s.db) && Runs(check, s, steps) && KeepsPassword(check, s, steps, id)
    requires id in s.db.users && id in After(check, s, steps).db.users
    ensures After(check, s, steps).db.users[id].passwordHash == s.db.users[id].passwordHash
    decreases |steps|
  {
    if steps != [] {
      var n := Apply(check, s, steps[0]);
      StepEvolves(check, s, steps[0]);
      RunEvolves(check, n, steps[1..]);
      assert id in n.db.users;
      StepKeepsHash(check, s, steps[0], id);
      RunKeepsHash(check, n, steps[1..], id);
    }
  }

  /** Once a password change has taken effect, a login for that user is let in with exactly
      the passwords that the new hash verifies, until the next password change: whatever
      else happens in between, and however many steps later. */
  lemma NewPasswordLetsIn(check: Check, s: System, step: Step, more: seq<Step>, l: nat)
    requires KnowsIds(s.db) && Enabled(check, s, step) && TakesEffect(s.db.users, step) && Given(step.newHash)
    requires Runs(check, Apply(check, s, step), more) && KeepsPassword(check, Apply(check, s, step), more, step.id)
    requires Enabled(check, After(check, Apply(check, s, step), more), Fetch(l, Some(step.id)))
    ensures var n := After(check, Apply(check, s, step), more);
      var x := Apply(check, n, Fetch(l, Some(step.id))).logins[l];
      && (x.Issuing? <==> check(n.logins[l].password, step.newHash.value))
      && (x.Issuing? ==> x.id == step.id && x.row == n.db.users[step.id])
      && (!x.Issuing? ==> x == Ended)
  {
    var s1 := Apply(check, s, step);
    UpdateChangesRow(check, s, step);
    StepEvolves(check, s, step);
    RunKeepsHash(check, s1, more, step.id);
    FetchDecides(check, After(check, s1, more), l, step.id);
  }

  /** A new user is let in with exactly the passwords that the hash it was created with
      verifies, until its password is changed. */
  lemma CreatedUserIsLetIn(check: Check, s: System, step: Step, more: seq<Step>, l: nat)
    requires KnowsIds(s.db) && Enabled(check, s, step) && step.Create?
    requires forall id :: id in s.db.users ==> s.db.users[id].email != step.email
    requires Runs(check, Apply(check, s, step), more) && KeepsPassword(check, Apply(check, s, step), more, step.newId)
    requires Enabled(check, After(check, Apply(check, s, step), more), Fetch(l, Some(step.newId)))
    ensures var n := After(check, Apply(check, s, step), more);
      Apply(check, n, Fetch(l, Some(step.newId))).logins[l].Issuing? <==> check(n.logins[l].password, step.hash)
  {
    var s1 := Apply(check, s, step);
    StepChangesTable(check, s, step);
    StepEvolves(check, s, step);
    RunKeepsHash(check, s1, more, step.newId);
    FetchDecides(check, After(check, s1, more), l, step.newId);
  }
}
