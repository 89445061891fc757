/** The account store of backend/internal/store: the users table as a value, what
    each statement does to it, and the imperative store that does just that. */
module AccountState {
  import opened Types

  datatype User = User(email: string, passwordHash: string, isAdmin: bool, tokenVersion: nat)

  type Users = map<nat, User>

  datatype UserDevice = UserDevice(userId: nat, deviceId: string)

  datatype StoreError = RecordNotFound | LastAdministrator | InitialAdminExists | EmailInUse | TokenNoLongerValid | DatabaseFailed

  function Admins(users: Users): set<nat> {
    set id | id in users && users[id].isAdmin
  }

  predicate EmailTaken(users: Users, email: string) {
    exists id :: id in users && users[id].email == email
  }

  predicate MayInsert(users: Users, email: string) {
    !EmailTaken(users, email)
  }

  predicate MaySetUp(users: Users, email: string) {
    Admins(users) == {} && !EmailTaken(users, email)
  }

  /** The WHERE clause that keeps the last administrator. */
  predicate MayLoseAdmin(users: Users, id: nat) {
    id in users && (!users[id].isAdmin || |Admins(users)| > 1)
  }

  /** `id` is the only administrator. */
  ghost predicate LastAdmin(users: Users, id: nat) {
    id in users && users[id].isAdmin && forall other :: other in users && users[other].isAdmin ==> other == id
  }

  lemma OnlyLastAdminMayNot(users: Users, id: nat)
    ensures MayLoseAdmin(users, id) <==> id in users && !LastAdmin(users, id)
  {
    var admins := Admins(users);
    if id in users && users[id].isAdmin {
      assert id in admins && |admins - {id}| == |admins| - 1;
      if LastAdmin(users, id) {
        assert admins == {id};
      } else {
        var other :| other in users && users[other].isAdmin && other != id;
        assert other in admins - {id};
      }
    }
  }

  /** An UPDATE of `id` would take the last administrator's role. */
  ghost predicate TakesLastAdmin(users: Users, id: nat, isAdmin: Option<bool>) {
    isAdmin == Some(false) && LastAdmin(users, id)
  }

  predicate MayUpdate(users: Users, id: nat, isAdmin: Option<bool>) {
    id in users && (isAdmin == Some(false) ==> MayLoseAdmin(users, id))
  }

  predicate SetsPassword(hash: Option<string>) {
    hash.Some? && hash.value != ""
  }

  function UpdatedUser(u: User, hash: Option<string>, isAdmin: Option<bool>): User {
    var role := if isAdmin.Some? then isAdmin.value else u.isAdmin;
    User(u.email,
         if SetsPassword(hash) then hash.value else u.passwordHash,
         role,
         u.tokenVersion + if SetsPassword(hash) || role != u.isAdmin then 1 else 0)
  }

  function Updated(users: Users, id: nat, hash: Option<string>, isAdmin: Option<bool>): Users {
    if MayUpdate(users, id, isAdmin) then users[id := UpdatedUser(users[id], hash, isAdmin)] else users
  }

  function Deleted(users: Users, id: nat): Users {
    if MayLoseAdmin(users, id) then users - {id} else users
  }

  predicate MayRevoke(users: Users, id: nat, version: nat) {
    id in users && users[id].tokenVersion == version
  }

  function Revoked(users: Users, id: nat, version: nat): Users {
    if MayRevoke(users, id, version) then users[id := users[id].(tokenVersion := version + 1)] else users
  }

  /** The device ids assigned to a user, in the order of their rows. */
  function DevicesOf(rows: seq<UserDevice>, userId: nat): seq<string> {
    if rows == [] then []
    else (if rows[0].userId == userId then [rows[0].deviceId] else []) + DevicesOf(rows[1..], userId)
  }

  function WithoutDevicesOf(rows: seq<UserDevice>, userId: nat): seq<UserDevice> {
    if rows == [] then []
    else (if rows[0].userId == userId then [] else [rows[0]]) + WithoutDevicesOf(rows[1..], userId)
  }

  lemma {:induction false} DevicesOfAppends(a: seq<UserDevice>, b: seq<UserDevice>, userId: nat)
    ensures DevicesOf(a + b, userId) == DevicesOf(a, userId) + DevicesOf(b, userId)
  {
    if a == [] {
      assert a + b == b;
    } else {
      DevicesOfAppends(a[1..], b, userId);
      assert (a + b)[1..] == a[1..] + b;
      var head := if a[0].userId == userId then [a[0].deviceId] else [];
      assert head + (DevicesOf(a[1..], userId) + DevicesOf(b, userId)) == (head + DevicesOf(a[1..], userId)) + DevicesOf(b, userId);
    }
  }

  /** A user's list has each device as often as the rows have it for that user. */
  lemma {:induction false} DevicesOfCounts(rows: seq<UserDevice>, userId: nat, d: string)
    ensures multiset(DevicesOf(rows, userId))[d] == multiset(rows)[UserDevice(userId, d)]
  {
    if rows != [] {
      DevicesOfCounts(rows[1..], userId, d);
      assert rows == [rows[0]] + rows[1..];
      var head := if rows[0].userId == userId then [rows[0].deviceId] else [];
      assert multiset(head + DevicesOf(rows[1..], userId)) == multiset(head) + multiset(DevicesOf(rows[1..], userId));
    }
  }

  lemma {:induction false} WithoutDevices(rows: seq<UserDevice>, userId: nat, other: nat)
    ensures DevicesOf(WithoutDevicesOf(rows, userId), other)
      == if other == userId then [] else DevicesOf(rows, other)
  {
    if rows != [] {
      WithoutDevices(rows[1..], userId, other);
      var head := if rows[0].userId == userId then [] else [rows[0]];
      DevicesOfAppends(head, WithoutDevicesOf(rows[1..], userId), other);
      assert rows[0].userId != userId ==> head[1..] == [];
    }
  }
}

module AccountStore {
  import opened Types
  import opened AccountState

  datatype VersionRule = Same | Increment | IncrementIfRoleIsNot(role: bool)

  /** The columns an UPDATE sets, as `UpdateUser` collects them. */
  datatype Updates = Updates(passwordHash: Option<string>, isAdmin: Option<bool>, version: VersionRule)

  /** Which statement of an update the database fails. `InsertFault(k)` is the row of the
      k-th device. */
  datatype Fault = NoFault | UpdateFault | CountFault | DeleteFault | InsertFault(k: nat)

  predicate DevicesFail(deviceIDs: Option<seq<string>>, fault: Fault) {
    deviceIDs.Some? && (fault == DeleteFault || (fault.InsertFault? && fault.k < |deviceIDs.value|))
  }

  /** An update fails if one of the statements it gets to does, for want of the row, or
      to keep the last administrator. */
  function UpdateResult(users: Users, id: nat, isAdmin: Option<bool>, deviceIDs: Option<seq<string>>, fault: Fault): Result<(), StoreError> {
    if fault == UpdateFault then Err(DatabaseFailed)
    else if !MayUpdate(users, id, isAdmin) then
      if fault == CountFault then Err(DatabaseFailed)
      else if id in users then Err(LastAdministrator) else Err(RecordNotFound)
    else if DevicesFail(deviceIDs, fault) then Err(DatabaseFailed)
    else Ok(())
  }

  class Store {
    var users: Users
    var devices: seq<UserDevice>

    method Execute(id: nat, updates: Updates)
      requires id in users
      modifies this`users
      ensures id in users && users == old(users)[id := users[id]]
      ensures var before, after := old(users)[id], users[id];
        && after.email == before.email
        && after.passwordHash == (if updates.passwordHash.Some? then updates.passwordHash.value else before.passwordHash)
        && after.isAdmin == (if updates.isAdmin.Some? then updates.isAdmin.value else before.isAdmin)
        && after.tokenVersion == before.tokenVersion +
             match updates.version
             case Same => 0
             case Increment => 1
             case IncrementIfRoleIsNot(role) => if before.isAdmin != role then 1 else 0
    {
      var u := users[id];
      match updates.version {
        case Same =>
        case Increment => u := u.(tokenVersion := u.tokenVersion + 1);
        case IncrementIfRoleIsNot(role) =>
          if u.isAdmin != role { u := u.(tokenVersion := u.tokenVersion + 1); }
      }
      if updates.passwordHash.Some? { u := u.(passwordHash := updates.passwordHash.value); }
      if updates.isAdmin.Some? { u := u.(isAdmin := updates.isAdmin.value); }
      users := users[id := u];
    }

    /** The device half of an update: the user's rows are deleted and written anew. */
    method ReplaceDevices(id: nat, deviceIDs: seq<string>, fault: Fault) returns (ok: bool)
      modifies this`devices
      ensures ok <==> fault != DeleteFault && !(fault.InsertFault? && fault.k < |deviceIDs|)
      ensures ok ==> DevicesOf(devices, id) == deviceIDs
      ensures forall other :: other != id ==> DevicesOf(devices, other) == DevicesOf(old(devices), other)
    {
      if fault == DeleteFault { return false; }
      ghost var was := devices;
      devices := WithoutDevicesOf(devices, id);
      forall other ensures DevicesOf(devices, other) == if other == id then [] else DevicesOf(was, other) {
        WithoutDevices(was, id, other);
      }
      for i := 0 to |deviceIDs|
        invariant fault.InsertFault? ==> i <= fault.k
        invariant forall other :: DevicesOf(devices, other) == if other == id then deviceIDs[..i] else DevicesOf(was, other)
      {
        if fault == InsertFault(i) { return false; }
        var row := [UserDevice(id, deviceIDs[i])];
        forall other ensures DevicesOf(devices + row, other)
          == DevicesOf(devices, other) + if other == id then [deviceIDs[i]] else []
        {
          DevicesOfAppends(devices, row, other);
          assert row[1..] == [];
        }
        devices := devices + row;
        assert deviceIDs[..i + 1] == deviceIDs[..i] + [deviceIDs[i]];
      }
      ok := true;
    }

    /** The body of the transaction. What it leaves behind on an error does not matter. */
    method UpdateInTransaction(id: nat, passwordHash: Option<string>, isAdmin: Option<bool>, deviceIDs: Option<seq<string>>, fault: Fault)
        returns (r: Result<(), StoreError>)
      modifies this
      ensures r == UpdateResult(old(users), id, isAdmin, deviceIDs, fault)
      ensures r.Ok? ==> users == Updated(old(users), id, passwordHash, isAdmin)
      ensures r.Ok? && deviceIDs.Some? ==> DevicesOf(devices, id) == deviceIDs.value
      ensures deviceIDs.None? ==> devices == old(devices)
      ensures forall other :: other != id ==> DevicesOf(devices, other) == DevicesOf(old(devices), other)
    {
      var updates := Updates(None, None, Same);
      if passwordHash.Some? && passwordHash.value != "" {
        updates := updates.(passwordHash := passwordHash, version := Increment);
      }
      if isAdmin.Some? {
        updates := updates.(isAdmin := isAdmin);
        if updates.passwordHash.None? {
          updates := updates.(version := IncrementIfRoleIsNot(isAdmin.value));
        }
      }
      var matches := id in users;
      if matches && isAdmin == Some(false) {
        matches := !users[id].isAdmin || |Admins(users)| > 1;
      }
      if fault == UpdateFault { return Err(DatabaseFailed); }
      if !matches {
        if fault == CountFault { return Err(DatabaseFailed); }
        return if id in users then Err(LastAdministrator) else Err(RecordNotFound);
      }
      Execute(id, updates);
      if deviceIDs.Some? {
        var replaced := ReplaceDevices(id, deviceIDs.value, fault);
        if !replaced { return Err(DatabaseFailed); }
      }
      r := Ok(());
    }

    /** The transaction takes place as a whole or not at all, whichever statement fails. */
    method UpdateUser(id: nat, passwordHash: Option<string>, isAdmin: Option<bool>, deviceIDs: Option<seq<string>>, fault: Fault)
        returns (r: Result<(), StoreError>)
      modifies this
      ensures r == UpdateResult(old(users), id, isAdmin, deviceIDs, fault)
      ensures r.Ok? ==> users == Updated(old(users), id, passwordHash, isAdmin)
      ensures r.Err? ==> users == old(users)
      ensures r.Ok? ==> id in users && users == old(users)[id := users[id]]
      ensures r.Ok? ==> var before, after := old(users)[id], users[id];
        && after.email == before.email
        && after.passwordHash ==
             (if passwordHash.Some? && passwordHash.value != "" then passwordHash.value else before.passwordHash)
        && after.isAdmin == (if isAdmin.Some? then isAdmin.value else before.isAdmin)
        && after.tokenVersion == before.tokenVersion +
             if after.isAdmin != before.isAdmin || (passwordHash.Some? && passwordHash.value != "") then 1 else 0
      ensures fault.NoFault? ==>
        && (r.Ok? <==> id in old(users) && !TakesLastAdmin(old(users), id, isAdmin))
        && (r == Err(RecordNotFound) <==> id !in old(users))
        && (r == Err(LastAdministrator) <==> TakesLastAdmin(old(users), id, isAdmin))
      ensures r == Err(DatabaseFailed) <==>
        if id !in old(users) || TakesLastAdmin(old(users), id, isAdmin) then fault.UpdateFault? || fault.CountFault?
        else fault.UpdateFault? || (deviceIDs.Some? &&
               (fault.DeleteFault? || (fault.InsertFault? && fault.k < |deviceIDs.value|)))
      ensures r.Ok? && deviceIDs.Some? ==> DevicesOf(devices, id) == deviceIDs.value
      ensures r.Err? || deviceIDs.None? ==> devices == old(devices)
      ensures forall other :: other != id ==> DevicesOf(devices, other) == DevicesOf(old(devices), other)
    {
      OnlyLastAdminMayNot(users, id);
      var beforeUsers, beforeDevices := users, devices;
      r := UpdateInTransaction(id, passwordHash, isAdmin, deviceIDs, fault);
      if r.Err? { users, devices := beforeUsers, beforeDevices; }
    }

    /** `newId` is the id the database assigns. */
    method CreateUser(newId: nat, email: string, passwordHash: string, isAdmin: bool, deviceIDs: seq<string>)
        returns (r: Result<(), StoreError>)
      requires newId !in users
      modifies this
      ensures r == if MayInsert(old(users), email) then Ok(()) else Err(EmailInUse)
      ensures r.Ok? <==> forall id :: id in old(users) ==> old(users)[id].email != email
      ensures users == if r.Ok? then old(users)[newId := User(email, passwordHash, isAdmin, 0)] else old(users)
      ensures r.Ok? ==> DevicesOf(devices, newId) == DevicesOf(old(devices), newId) + deviceIDs
      ensures forall other :: other != newId ==> DevicesOf(devices, other) == DevicesOf(old(devices), other)
    {
      if EmailTaken(users, email) { return Err(EmailInUse); }
      users := users[newId := User(email, passwordHash, isAdmin, 0)];
      ghost var was := devices;
      assert deviceIDs[..0] == [];
      for i := 0 to |deviceIDs|
        invariant users == old(users)[newId := User(email, passwordHash, isAdmin, 0)]
        invariant DevicesOf(devices, newId) == DevicesOf(was, newId) + deviceIDs[..i]
        invariant forall other :: other != newId ==> DevicesOf(devices, other) == DevicesOf(was, other)
      {
        var row := [UserDevice(newId, deviceIDs[i])];
        forall other ensures DevicesOf(devices + row, other)
          == DevicesOf(devices, other) + if other == newId then [deviceIDs[i]] else []
        {
          DevicesOfAppends(devices, row, other);
          assert row[1..] == [];
        }
        devices := devices + row;
        assert deviceIDs[..i + 1] == deviceIDs[..i] + [deviceIDs[i]];
      }
      assert deviceIDs[..|deviceIDs|] == deviceIDs;
      r := Ok(());
    }

    method HasAdmins() returns (r: bool)
      ensures r <==> exists id :: id in users && users[id].isAdmin
    {
      r := |Admins(users)| > 0;
      assert forall id :: id in Admins(users) <==> id in users && users[id].isAdmin;
      assert r <==> Admins(users) != {};
    }

    method CreateInitialAdmin(newId: nat, email: string, passwordHash: string) returns (r: Result<(), StoreError>)
      requires newId !in users
      modifies this`users
      ensures r.Ok? <==> MaySetUp(old(users), email)
      ensures r == Err(InitialAdminExists) <==> Admins(old(users)) != {}
      ensures r.Ok? <==> forall id :: id in old(users) ==> !old(users)[id].isAdmin && old(users)[id].email != email
      ensures r == Err(InitialAdminExists) <==> exists id :: id in old(users) && old(users)[id].isAdmin
      ensures users == if r.Ok? then old(users)[newId := User(email, passwordHash, true, 0)] else old(users)
    {
      assert forall id :: id in Admins(users) <==> id in users && users[id].isAdmin;
      if Admins(users) != {} { return Err(InitialAdminExists); }
      if EmailTaken(users, email) { return Err(EmailInUse); }
      users := users[newId := User(email, passwordHash, true, 0)];
      r := Ok(());
    }

    /** Says nothing about the user's device rows. */
    method DeleteUser(id: nat) returns (r: Result<(), StoreError>)
      modifies this
      ensures users == Deleted(old(users), id)
      ensures r == (if id !in old(users) then Err(RecordNotFound)
                    else if MayLoseAdmin(old(users), id) then Ok(()) else Err(LastAdministrator))
      ensures users == if r.Ok? then old(users) - {id} else old(users)
      ensures r.Ok? <==> id in old(users) && !LastAdmin(old(users), id)
      ensures r == Err(RecordNotFound) <==> id !in old(users)
    {
      OnlyLastAdminMayNot(users, id);
      if id in users && (!users[id].isAdmin || |Admins(users)| > 1) {
        users := users - {id};
        return Ok(());
      }
      r := if id in users then Err(LastAdministrator) else Err(RecordNotFound);
    }

    method RevokeUserTokens(id: nat, version: nat) returns (r: Result<(), StoreError>)
      modifies this`users
      ensures users == Revoked(old(users), id, version)
      ensures r == if MayRevoke(old(users), id, version) then Ok(()) else Err(TokenNoLongerValid)
      ensures r.Ok? <==> id in old(users) && old(users)[id].tokenVersion == version
      ensures users == if r.Ok? then old(users)[id := old(users)[id].(tokenVersion := version + 1)] else old(users)
    {
      if id !in users || users[id].tokenVersion != version { return Err(TokenNoLongerValid); }
      users := users[id := users[id].(tokenVersion := users[id].tokenVersion + 1)];
      r := Ok(());
    }
  }
}
