/** User administration: listing, creation, editing, deletion, password
    reset, approval, rejection and the own-profile edit. Every per-user
    mutator checks its guards in a fixed order: self-protection first (all
    but approve), then the admin hierarchy; none checks that the actor is an
    administrator. */
module UserAdmin {
  import opened Common
  import opened Entities
  import opened Principal
  import opened Schema
  import opened Store

  datatype Action = UpdateUser | DestroyUser | ResetPassword | ApproveUser | RejectUser

  /** The password a reset installs. */
  const ResetPlain: string := "password123"

  /** The guards that precede validation: acting on oneself (every action but
      approve), then a non-super actor acting on an administrator. */
  predicate Blocked(action: Action, actor: nat, actorRoles: set<string>, target: nat, targetRoles: set<string>) {
    (action != ApproveUser && actor == target) || (!IsSuperAdmin(actorRoles) && IsAdmin(targetRoles))
  }

  /** A non-super actor may not hand out an administrator role. */
  predicate RoleGuardBlocks(actorRoles: set<string>, role: string) {
    !IsSuperAdmin(actorRoles) && (role == SuperAdmin || role == Admin)
  }

  /** index: everybody for a super administrator, the non-administrators for
      a plain administrator, refusal (403) for anyone else. */
  function ListUsers(actorRoles: set<string>, users: map<nat, User>): Option<set<nat>> {
    if IsSuperAdmin(actorRoles) then Some(users.Keys)
    else if IsAdmin(actorRoles) then Some(set u | u in users && SuperAdmin !in users[u].roles && Admin !in users[u].roles)
    else None
  }

  /** An administrator's listing holds exactly the users it can manage;
      anyone else is refused. */
  lemma ListingMatchesManagement(actorRoles: set<string>, users: map<nat, User>)
    ensures IsAdmin(actorRoles) <==> ListUsers(actorRoles, users).Some?
    ensures IsAdmin(actorRoles) ==>
              forall u :: u in ListUsers(actorRoles, users).value <==> u in users && CanManageUser(actorRoles, users[u].roles)
    ensures IsSuperAdmin(actorRoles) ==> ListUsers(actorRoles, users).value == users.Keys
  {
  }

  /** Acting on oneself is refused by every guarded action except approve. */
  lemma SelfProtection(action: Action, u: nat, roles: set<string>)
    ensures action != ApproveUser ==> Blocked(action, u, roles, u, roles)
    ensures !Blocked(ApproveUser, u, roles, u, roles) <==> IsSuperAdmin(roles) || !IsAdmin(roles)
  {
  }

  /** A non-super actor is refused on every administrator. */
  lemma HierarchyGuard(action: Action, actor: nat, actorRoles: set<string>, target: nat, targetRoles: set<string>)
    requires !IsSuperAdmin(actorRoles) && IsAdmin(targetRoles)
    ensures Blocked(action, actor, actorRoles, target, targetRoles)
  {
  }

  /** The guards never ask whether the actor is an administrator: anyone
      acting on a different non-administrator passes them. For administrator
      actors they coincide with canManageUser. */
  lemma GuardsIgnoreActorLevel(action: Action, actor: nat, actorRoles: set<string>, target: nat, targetRoles: set<string>)
    requires actor != target
    ensures !IsAdmin(targetRoles) ==> !Blocked(action, actor, actorRoles, target, targetRoles)
    ensures IsAdmin(actorRoles) ==>
              (!Blocked(action, actor, actorRoles, target, targetRoles) <==> CanManageUser(actorRoles, targetRoles))
  {
  }

  /** A member passes the guards on another member although canManageUser
      denies it. */
  lemma MemberPassesGuards()
    ensures !Blocked(RejectUser, 1, {Member}, 2, {Member}) && !CanManageUser({Member}, {Member})
  {
  }

  datatype CreateRequest = CreateRequest(name: string, email: string, password: string, role: string,
                                         groups: Option<set<nat>>, directories: Option<seq<nat>>)

  /** store's validation rules (the directory list is not validated). */
  predicate CreateValid(req: CreateRequest, users: map<nat, User>, groups: map<nat, Group>) {
    && RequiredString(req.name)
    && EmailShaped(req.email) && |req.email| <= 255 && EmailFree(users, req.email, None)
    && RequiredPassword(req.password) && LongEnough(req.password)
    && req.role in AssignableRoles
    && (req.groups.Some? ==> req.groups.value <= groups.Keys)
  }

  /** A password made only of blanks fails `required`, so store refuses
      the request with 422 whatever its length. */
  lemma BlankPasswordRejected(req: CreateRequest, users: map<nat, User>, groups: map<nat, Group>)
    requires forall i :: 0 <= i < |req.password| ==> PhpBlank(req.password[i])
    ensures !CreateValid(req, users, groups)
  {
  }

  /** The groups a created user joins: the requested list when one is given,
      otherwise default_group when it exists. */
  function InitialGroups(req: CreateRequest, groups: map<nat, Group>): (r: set<nat>)
    requires GroupNamesUnique(groups)
    ensures req.groups.Some? ==> r == req.groups.value
    ensures req.groups.None? ==> (r == {} <==> FindGroupByName(groups, DefaultGroupName).None?)
    ensures req.groups.None? && r != {} ==> exists g :: r == {g} && g in groups && groups[g].name == DefaultGroupName
  {
    if req.groups.Some? then req.groups.value
    else match FindGroupByName(groups, DefaultGroupName)
      case None => {}
      case Some(g) => {g}
  }

  /** The position in a directory list of the first id without a directory
      row, or the list's length when every id has one. */
  function FirstMissing(dirs: seq<nat>, existing: set<nat>): (k: nat)
    ensures k <= |dirs|
    ensures forall j :: 0 <= j < k ==> dirs[j] in existing
    ensures k < |dirs| ==> dirs[k] !in existing
    decreases |dirs|
  {
    if dirs == [] || dirs[0] !in existing then 0
    else 1 + FirstMissing(dirs[1..], existing)
  }

  /** The directories `sync` grants to a user that has none yet. It inserts
      one row per id in list order and is not wrapped in a transaction; the
      insert for an id without a directory row violates the foreign key and
      throws, keeping the rows inserted before it. */
  function SyncedBeforeFailure(dirs: seq<nat>, existing: set<nat>): (r: set<nat>)
    ensures r <= existing && r <= Elems(dirs)
    ensures r == Elems(dirs) <==> Elems(dirs) <= existing
  {
    var k := FirstMissing(dirs, existing);
    assert k < |dirs| ==> dirs[k] in Elems(dirs) && dirs[k] !in Elems(dirs[..k]);
    Elems(dirs[..k])
  }

  /** The grants left by `sync` are the ids listed before the first missing
      one: an all-present prefix of the list is granted in full, and an id
      that appears only at or after a missing one is not granted. */
  lemma SyncedPrefix(dirs: seq<nat>, existing: set<nat>, j: nat)
    requires j <= |dirs|
    ensures (forall i :: 0 <= i < j ==> dirs[i] in existing) ==> Elems(dirs[..j]) <= SyncedBeforeFailure(dirs, existing)
    ensures j < |dirs| && dirs[j] !in existing ==> SyncedBeforeFailure(dirs, existing) <= Elems(dirs[..j])
  {
    var k := FirstMissing(dirs, existing);
    if forall i :: 0 <= i < j ==> dirs[i] in existing {
      assert j <= k;
      forall x | x in Elems(dirs[..j]) ensures x in Elems(dirs[..k]) {
        var i :| 0 <= i < j && dirs[i] == x;
        assert dirs[..k][i] == x;
      }
    }
    if j < |dirs| && dirs[j] !in existing {
      assert k <= j;
      forall x | x in Elems(dirs[..k]) ensures x in Elems(dirs[..j]) {
        var i :| 0 <= i < k && dirs[i] == x;
        assert dirs[..j][i] == x;
      }
    }
  }

  /** store: validation (422), the role guard (403), then the user row
      (active), its role, its groups and its directory grants. A role missing
      from the roles table, or a directory id without a row, makes a later
      step throw (500) after the earlier ones took effect. */
  method StoreUser(db: Db, actor: nat, req: CreateRequest) returns (code: nat, id: Option<nat>)
    requires db.Valid() && actor in db.users
    modifies db`users, db`memberships, db`grants, db`nextUser
    ensures db.Valid()
    ensures code == 201 || code == 403 || code == 422 || code == 500
    ensures code == 422 <==> !CreateValid(req, old(db.users), db.groups)
    ensures code == 403 <==> CreateValid(req, old(db.users), db.groups) && RoleGuardBlocks(old(db.users)[actor].roles, req.role)
    ensures code == 500 <==> CreateValid(req, old(db.users), db.groups) && !RoleGuardBlocks(old(db.users)[actor].roles, req.role)
                             && (req.role !in db.roleNames
                                 || (req.directories.Some? && !(Elems(req.directories.value) <= db.directories.Keys)))
    ensures code == 422 || code == 403 ==> id == None && unchanged(db)
    ensures code == 201 || code == 500 ==>
              && id == Some(old(db.nextUser)) && db.nextUser == old(db.nextUser) + 1
              && db.users == old(db.users)[id.value := User(req.name, req.email, HashOf(req.password), Active,
                                                            if req.role in db.roleNames then {req.role} else {})]
    ensures code == 201 ==>
              && db.memberships == old(db.memberships) + Pairs(id.value, InitialGroups(req, db.groups))
              && db.grants == old(db.grants) + (if req.directories.Some? then Pairs(id.value, Elems(req.directories.value)) else {})
    ensures code == 500 ==>
              && db.grants == old(db.grants) + (if req.role in db.roleNames && req.directories.Some?
                                                then Pairs(id.value, SyncedBeforeFailure(req.directories.value, db.directories.Keys))
                                                else {})
              && db.memberships == if req.role in db.roleNames then old(db.memberships) + Pairs(id.value, InitialGroups(req, db.groups))
                                   else old(db.memberships)
  {
    if !CreateValid(req, db.users, db.groups) {
      return 422, None;
    }
    if RoleGuardBlocks(db.users[actor].roles, req.role) {
      return 403, None;
    }
    var u;
    code, u := CreateAccepted(db, req);
    id := Some(u);
  }

  /** store once validation and the role guard passed: the active user row
      (with the role when it exists), then its groups and directories. */
  method CreateAccepted(db: Db, req: CreateRequest) returns (code: nat, u: nat)
    requires db.Valid() && CreateValid(req, db.users, db.groups)
    modifies db`users, db`memberships, db`grants, db`nextUser
    ensures db.Valid()
    ensures code == 201 || code == 500
    ensures code == 500 <==> req.role !in db.roleNames
                             || (req.directories.Some? && !(Elems(req.directories.value) <= db.directories.Keys))
    ensures u == old(db.nextUser) && db.nextUser == old(db.nextUser) + 1
    ensures db.users == old(db.users)[u := User(req.name, req.email, HashOf(req.password), Active,
                                                if req.role in db.roleNames then {req.role} else {})]
    ensures db.memberships == if req.role in db.roleNames then old(db.memberships) + Pairs(u, InitialGroups(req, db.groups))
                              else old(db.memberships)
    ensures db.grants == old(db.grants) + (if req.role in db.roleNames && req.directories.Some?
                                           then Pairs(u, SyncedBeforeFailure(req.directories.value, db.directories.Keys))
                                           else {})
  {
    u := InsertUser(db, User(req.name, req.email, HashOf(req.password), Active,
                             if req.role in db.roleNames then {req.role} else {}));
    code := AttachCreated(db, u, req);
  }

  /** The rest of store after the row is inserted: the groups are attached
      when the role exists (`assignRole` throws otherwise), then the
      directories, granted one by one in list order until an id without a
      directory row throws. */
  method AttachCreated(db: Db, u: nat, req: CreateRequest) returns (code: nat)
    requires db.Valid() && u in db.users
    requires req.groups.Some? ==> req.groups.value <= db.groups.Keys
    modifies db`memberships, db`grants
    ensures db.Valid()
    ensures code == 201 || code == 500
    ensures code == 500 <==> req.role !in db.roleNames
                             || (req.directories.Some? && !(Elems(req.directories.value) <= db.directories.Keys))
    ensures db.memberships == if req.role in db.roleNames then old(db.memberships) + Pairs(u, InitialGroups(req, db.groups))
                              else old(db.memberships)
    ensures db.grants == old(db.grants) + (if req.role in db.roleNames && req.directories.Some?
                                           then Pairs(u, SyncedBeforeFailure(req.directories.value, db.directories.Keys))
                                           else {})
  {
    if req.role !in db.roleNames {
      return 500;
    }
    AddMemberships(db, u, InitialGroups(req, db.groups));
    if req.directories.Some? {
      var dirs := req.directories.value;
      AddGrants(db, u, SyncedBeforeFailure(dirs, db.directories.Keys));
      if !(Elems(dirs) <= db.directories.Keys) {
        return 500;
      }
    }
    code := 201;
  }

  /** A created user joins exactly the requested groups when a list is given
      (default_group is not added), and default_group alone otherwise. */
  lemma CreatedUserGroups(req: CreateRequest, groups: map<nat, Group>, g: nat)
    requires GroupNamesUnique(groups)
    requires g in groups && groups[g].name == DefaultGroupName
    ensures req.groups.Some? ==> (g in InitialGroups(req, groups) <==> g in req.groups.value)
    ensures req.groups.None? ==> InitialGroups(req, groups) == {g}
  {
  }

  datatype UpdateRequest = UpdateRequest(name: Option<string>, role: string, status: Option<Status>,
                                         groups: Option<set<nat>>, directories: Option<set<nat>>)

  /** update's validation rules. */
  predicate UpdateValid(req: UpdateRequest, groups: map<nat, Group>, dirs: map<nat, Directory>) {
    && (req.name.Some? ==> RequiredString(req.name.value))
    && req.role in AssignableRoles
    && (req.groups.Some? ==> req.groups.value <= groups.Keys)
    && (req.directories.Some? ==> req.directories.value <= dirs.Keys)
  }

  /** The user row after update's field writes: name and status only when
      supplied, the role set replaced by the one requested role when that
      role exists. */
  function Edited(u: User, req: UpdateRequest, roleNames: set<string>): (r: User)
    ensures r.email == u.email && r.password == u.password
    ensures r.name == (if req.name.Some? then req.name.value else u.name)
    ensures r.status == (if req.status.Some? then req.status.value else u.status)
    ensures req.role in roleNames ==> r.roles == {req.role}
    ensures req.role !in roleNames ==> r.roles == u.roles
  {
    u.(name := if req.name.Some? then req.name.value else u.name,
       status := if req.status.Some? then req.status.value else u.status,
       roles := if req.role in roleNames then {req.role} else u.roles)
  }

  method Update(db: Db, actor: nat, target: nat, req: UpdateRequest) returns (code: nat)
    requires db.Valid() && actor in db.users
    modifies db`users, db`memberships, db`grants
    ensures db.Valid()
    ensures code == 200 || code == 403 || code == 404 || code == 422 || code == 500
    ensures code == 404 <==> target !in old(db.users)
    ensures target in old(db.users) ==>
              var actorRoles := old(db.users)[actor].roles;
              var blocked := Blocked(UpdateUser, actor, actorRoles, target, old(db.users)[target].roles);
              var valid := UpdateValid(req, db.groups, db.directories);
              && (code == 403 <==> blocked || (valid && RoleGuardBlocks(actorRoles, req.role)))
              && (code == 422 <==> !blocked && !valid)
              && (code == 500 <==> !blocked && valid && !RoleGuardBlocks(actorRoles, req.role) && req.role !in db.roleNames)
    ensures code == 403 || code == 404 || code == 422 ==> unchanged(db)
    ensures code == 200 || code == 500 ==>
              db.users == old(db.users)[target := Edited(old(db.users)[target], req, db.roleNames)]
    ensures code == 200 ==>
              && db.memberships == (if req.groups.Some? then SyncLeft(old(db.memberships), target, req.groups.value)
                                    else old(db.memberships))
              && db.grants == (if req.directories.Some? then SyncLeft(old(db.grants), target, req.directories.value)
                               else old(db.grants))
    ensures code == 500 ==> db.memberships == old(db.memberships) && db.grants == old(db.grants)
  {
    if target !in db.users {
      return 404;
    }
    var actorRoles := db.users[actor].roles;
    if Blocked(UpdateUser, actor, actorRoles, target, db.users[target].roles) {
      return 403;
    }
    if !UpdateValid(req, db.groups, db.directories) {
      return 422;
    }
    if RoleGuardBlocks(actorRoles, req.role) {
      return 403;
    }
    code := ApplyUpdate(db, target, req);
  }

  /** update's writes once the guards passed: the row's fields, then (when
      the role exists, since `syncRoles` throws otherwise) the groups and
      directories supplied. */
  method ApplyUpdate(db: Db, target: nat, req: UpdateRequest) returns (code: nat)
    requires db.Valid() && target in db.users && UpdateValid(req, db.groups, db.directories)
    modifies db`users, db`memberships, db`grants
    ensures db.Valid()
    ensures code == 200 || code == 500
    ensures code == 500 <==> req.role !in db.roleNames
    ensures db.users == old(db.users)[target := Edited(old(db.users)[target], req, db.roleNames)]
    ensures code == 200 ==>
              && db.memberships == (if req.groups.Some? then SyncLeft(old(db.memberships), target, req.groups.value)
                                    else old(db.memberships))
              && db.grants == (if req.directories.Some? then SyncLeft(old(db.grants), target, req.directories.value)
                               else old(db.grants))
    ensures code == 500 ==> db.memberships == old(db.memberships) && db.grants == old(db.grants)
  {
    SetUser(db, target, Edited(db.users[target], req, db.roleNames));
    if req.role !in db.roleNames {
      return 500;
    }
    if req.groups.Some? {
      SyncMemberships(db, target, req.groups.value);
    }
    if req.directories.Some? {
      SyncGrants(db, target, req.directories.value);
    }
    code := 200;
  }

  /** destroy: the user row goes, and with it (by cascade) its memberships,
      its directory grants and the proposal permissions naming it. */
  method Destroy(db: Db, actor: nat, target: nat) returns (code: nat)
    requires db.Valid() && actor in db.users
    modifies db`users, db`memberships, db`grants, db`permissions
    ensures db.Valid()
    ensures code == 200 || code == 403 || code == 404
    ensures code == 404 <==> target !in old(db.users)
    ensures code == 403 <==> (target in old(db.users) &&
                              Blocked(DestroyUser, actor, old(db.users)[actor].roles, target, old(db.users)[target].roles))
    ensures code != 200 ==> unchanged(db)
    ensures code == 200 ==>
              && db.users == old(db.users) - {target}
              && db.memberships == DropLeft(old(db.memberships), {target})
              && db.grants == DropLeft(old(db.grants), {target})
              && db.permissions == DropPermissions(old(db.permissions), {}, {target}, {})
  {
    if target !in db.users {
      return 404;
    }
    if Blocked(DestroyUser, actor, db.users[actor].roles, target, db.users[target].roles) {
      return 403;
    }
    DeleteUser(db, target);
    code := 200;
  }

  /** The three single-field mutators: after the guards they overwrite one
      field of the target row. */
  method ResetPasswordOf(db: Db, actor: nat, target: nat) returns (code: nat)
    requires db.Valid() && actor in db.users
    modifies db`users
    ensures db.Valid()
    ensures code == 200 || code == 403 || code == 404
    ensures code == 404 <==> target !in old(db.users)
    ensures code == 403 <==> (target in old(db.users) &&
                              Blocked(ResetPassword, actor, old(db.users)[actor].roles, target, old(db.users)[target].roles))
    ensures code != 200 ==> unchanged(db)
    ensures code == 200 ==> db.users == old(db.users)[target := old(db.users)[target].(password := HashOf(ResetPlain))]
  {
    if target !in db.users {
      return 404;
    }
    if Blocked(ResetPassword, actor, db.users[actor].roles, target, db.users[target].roles) {
      return 403;
    }
    SetUser(db, target, db.users[target].(password := HashOf(ResetPlain)));
    code := 200;
  }

  method Approve(db: Db, actor: nat, target: nat) returns (code: nat)
    requires db.Valid() && actor in db.users
    modifies db`users
    ensures db.Valid()
    ensures code == 200 || code == 403 || code == 404
    ensures code == 404 <==> target !in old(db.users)
    ensures code == 403 <==> (target in old(db.users) &&
                              Blocked(ApproveUser, actor, old(db.users)[actor].roles, target, old(db.users)[target].roles))
    ensures code != 200 ==> unchanged(db)
    ensures code == 200 ==> db.users == old(db.users)[target := old(db.users)[target].(status := Active)]
  {
    if target !in db.users {
      return 404;
    }
    if Blocked(ApproveUser, actor, db.users[actor].roles, target, db.users[target].roles) {
      return 403;
    }
    SetUser(db, target, db.users[target].(status := Active));
    code := 200;
  }

  method Reject(db: Db, actor: nat, target: nat) returns (code: nat)
    requires db.Valid() && actor in db.users
    modifies db`users
    ensures db.Valid()
    ensures code == 200 || code == 403 || code == 404
    ensures code == 404 <==> target !in old(db.users)
    ensures code == 403 <==> (target in old(db.users) &&
                              Blocked(RejectUser, actor, old(db.users)[actor].roles, target, old(db.users)[target].roles))
    ensures code != 200 ==> unchanged(db)
    ensures code == 200 ==> db.users == old(db.users)[target := old(db.users)[target].(status := Inactive)]
  {
    if target !in db.users {
      return 404;
    }
    if Blocked(RejectUser, actor, db.users[actor].roles, target, db.users[target].roles) {
      return 403;
    }
    SetUser(db, target, db.users[target].(status := Inactive));
    code := 200;
  }

  /** updateProfile: the actor's own name and email, the email unique except
      against the actor itself. */
  method UpdateProfile(db: Db, actor: nat, name: string, email: string) returns (code: nat)
    requires db.Valid() && actor in db.users
    modifies db`users
    ensures db.Valid()
    ensures code == 200 || code == 422
    ensures code == 422 <==> !(RequiredString(name) && EmailShaped(email) && EmailFree(old(db.users), email, Some(actor)))
    ensures code != 200 ==> unchanged(db)
    ensures code == 200 ==> db.users == old(db.users)[actor := old(db.users)[actor].(name := name, email := email)]
  {
    if !(RequiredString(name) && EmailShaped(email) && EmailFree(db.users, email, Some(actor))) {
      return 422;
    }
    SetUser(db, actor, db.users[actor].(name := name, email := email));
    code := 200;
  }
}
