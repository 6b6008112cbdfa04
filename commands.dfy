/** The two maintenance commands: status repair (`user:fix-status`) and the
    creation of a super administrator (`user:create-super-admin`). The
    operator's answers to the prompts are parameters; console output and
    logging are not modelled. */
module Commands {
  import opened Common
  import opened Entities
  import opened Text
  import opened Principal
  import opened Store

  /** The users `targets` with every one of them made active. */
  function Activated(users: map<nat, User>, targets: set<nat>): (r: map<nat, User>)
    ensures r.Keys == users.Keys
    ensures forall u :: u in r && u in targets ==> r[u] == users[u].(status := Active)
    ensures forall u :: u in r && u !in targets ==> r[u] == users[u]
  {
    map u | u in users :: if u in targets then users[u].(status := Active) else users[u]
  }

  /** The users among `targets` that are not active. */
  function NotActive(users: map<nat, User>, targets: set<nat>): (r: set<nat>)
    ensures forall u :: u in r <==> u in targets && u in users && users[u].status != Active
  {
    set u | u in targets && u in users && users[u].status != Active
  }

  /** The users holding super_admin or admin (`User::role([...])`). */
  function Admins(users: map<nat, User>): (r: set<nat>)
    ensures forall u :: u in r <==> u in users && IsAdmin(users[u].roles)
  {
    set u | u in users && IsAdmin(users[u].roles)
  }

  /** The users whose status is pending. */
  function PendingUsers(users: map<nat, User>): (r: set<nat>)
    ensures forall u :: u in r <==> u in users && users[u].status == Pending
  {
    set u | u in users && users[u].status == Pending
  }

  /** One more target handled. */
  lemma ActivateStep(users: map<nat, User>, done: set<nat>, u: nat)
    requires u in users && u !in done
    ensures Activated(users, done + {u}) == Activated(users, done)[u := users[u].(status := Active)]
    ensures Activated(users, done)[u] == users[u]
    ensures users[u].status == Active ==> Activated(users, done + {u}) == Activated(users, done)
    ensures NotActive(users, done + {u}) == NotActive(users, done) + (if users[u].status != Active then {u} else {})
    ensures |NotActive(users, done + {u})| == |NotActive(users, done)| + (if users[u].status != Active then 1 else 0)
  {
    var before := NotActive(users, done);
    var after := NotActive(users, done + {u});
    assert u !in before;
    assert after == before + (if users[u].status != Active then {u} else {});
  }

  /** Activating users keeps ids, emails and roles. */
  lemma ActivationKeepsRows(users: map<nat, User>, targets: set<nat>, roleNames: set<string>)
    requires EmailsUnique(users) && RolesKnown(users, roleNames)
    ensures Activated(users, targets).Keys == users.Keys
    ensures EmailsUnique(Activated(users, targets)) && RolesKnown(Activated(users, targets), roleNames)
  {
  }

  /** The loop shared by both modes: every target ends active, and the count
      is the number of targets that were not active before. */
  method ActivateEach(db: Db, targets: set<nat>) returns (count: nat)
    requires db.Valid() && targets <= db.users.Keys
    modifies db`users
    ensures db.Valid()
    ensures db.users == Activated(old(db.users), targets)
    ensures count == |NotActive(old(db.users), targets)|
  {
    var users := db.users;
    var todo := targets;
    ghost var done: set<nat> := {};
    count := 0;
    while todo != {}
      invariant todo + done == targets && todo !! done
      invariant users == Activated(old(db.users), done)
      invariant count == |NotActive(old(db.users), done)|
      invariant unchanged(db)
      decreases todo
    {
      var u :| u in todo;
      ActivateStep(old(db.users), done, u);
      MoveOne(todo, done, u);
      if users[u].status != Active {
        users := users[u := users[u].(status := Active)];
        count := count + 1;
      }
      todo := todo - {u};
      done := done + {u};
    }
    ActivationKeepsRows(old(db.users), targets, db.roleNames);
    SetUsers(db, users);
  }

  /** Both roles `User::role(['super_admin', 'admin'])` names exist; the
      query scope throws `RoleDoesNotExist` otherwise. */
  predicate AdminRolesExist(roleNames: set<string>) {
    SuperAdmin in roleNames && Admin in roleNames
  }

  /** activateAdmins: when either admin role is missing the role query
      throws before any user is touched (`None`); otherwise every
      super_admin or admin ends active, everyone else is untouched, and the
      count is the admins that were not active. */
  method ActivateAdmins(db: Db) returns (count: Option<nat>)
    requires db.Valid()
    modifies db`users
    ensures db.Valid()
    ensures !AdminRolesExist(db.roleNames) ==> count.None? && unchanged(db)
    ensures AdminRolesExist(db.roleNames) ==>
              && count.Some?
              && db.users.Keys == old(db.users).Keys
              && (forall u :: u in db.users && IsAdmin(old(db.users)[u].roles) ==> db.users[u] == old(db.users)[u].(status := Active))
              && (forall u :: u in db.users && !IsAdmin(old(db.users)[u].roles) ==> db.users[u] == old(db.users)[u])
              && count.value == |NotActive(old(db.users), Admins(old(db.users)))|
  {
    if !AdminRolesExist(db.roleNames) {
      return None;
    }
    var n := ActivateEach(db, Admins(db.users));
    count := Some(n);
  }

  /** activateAllUsers: declined, nothing changes; otherwise every pending
      user becomes active, inactive users are untouched, and the count is
      the number of pending users. */
  method ActivateAllUsers(db: Db, confirmed: bool) returns (count: nat)
    requires db.Valid()
    modifies db`users
    ensures db.Valid()
    ensures !confirmed ==> count == 0 && unchanged(db)
    ensures confirmed ==>
              && db.users == Activated(old(db.users), PendingUsers(old(db.users)))
              && count == |PendingUsers(old(db.users))|
  {
    if !confirmed {
      return 0;
    }
    var pending := PendingUsers(db.users);
    count := ActivateEach(db, pending);
    assert NotActive(old(db.users), pending) == pending;
  }

  /** handle: `--all` chooses the pending users (behind a confirmation),
      otherwise the admins. handle itself returns 0; an exception thrown by
      the admin query is not caught and ends the command with 1. */
  method FixUserStatus(db: Db, all: bool, confirmed: bool) returns (exit: nat)
    requires db.Valid()
    modifies db`users
    ensures db.Valid()
    ensures exit == 1 <==> !all && !AdminRolesExist(db.roleNames)
    ensures exit == 0 || exit == 1
    ensures exit == 1 ==> unchanged(db)
    ensures all && confirmed ==> db.users == Activated(old(db.users), PendingUsers(old(db.users)))
    ensures all && !confirmed ==> unchanged(db)
    ensures !all && exit == 0 ==> db.users == Activated(old(db.users), Admins(old(db.users)))
  {
    if all {
      var count := ActivateAllUsers(db, confirmed);
      exit := 0;
    } else if !AdminRolesExist(db.roleNames) {
      exit := 1;
    } else {
      var count := ActivateEach(db, Admins(db.users));
      exit := 0;
    }
  }

  /** After status repair without `--all`, no admin is pending or inactive,
      so every admin passes the status gate of login. */
  lemma RepairedAdminsActive(users: map<nat, User>, u: nat)
    requires u in users && IsAdmin(users[u].roles)
    ensures Activated(users, Admins(users))[u].status == Active
  {
  }

  /** The operator's answers, in prompt order. `continueAnyway` is asked
      only when a super_admin exists; `confirmCreate` defaults to yes. */
  datatype Answers = Answers(continueAnyway: bool, name: string, email: string, password: string,
                             confirmation: string, confirmCreate: bool)

  /** PHP `empty` on a string answer: the empty string and "0". */
  predicate EmptyAnswer(s: string) {
    s == "" || s == "0"
  }

  predicate SuperAdminExists(users: map<nat, User>) {
    exists u :: u in users && IsSuperAdmin(users[u].roles)
  }

  /** The exit code the checks before creation end with, in their order:
      declining to continue (0), an empty name (1), an email that is not
      shaped like one or already used (1), a password under 8 bytes (1), a
      mismatched confirmation (1), declining the final confirmation (0);
      `None` when creation goes ahead. */
  function Rejection(users: map<nat, User>, a: Answers): (r: Option<nat>)
    ensures r.Some? ==> r.value == 0 || r.value == 1
    ensures r == Some(0) <==> (SuperAdminExists(users) && !a.continueAnyway)
                              || (!EmptyAnswer(a.name) && EmailShaped(a.email) && EmailFree(users, a.email, None)
                                  && Utf8Length(a.password) >= 8 && a.password == a.confirmation && !a.confirmCreate
                                  && !(SuperAdminExists(users) && !a.continueAnyway))
  {
    if SuperAdminExists(users) && !a.continueAnyway then Some(0)
    else if EmptyAnswer(a.name) then Some(1)
    else if !(EmailShaped(a.email) && EmailFree(users, a.email, None)) then Some(1)
    else if Utf8Length(a.password) < 8 then Some(1)
    else if a.password != a.confirmation then Some(1)
    else if !a.confirmCreate then Some(0)
    else None
  }

  /** The first failing check decides: an empty name ends with 1 whatever the
      email and passwords are, a bad email whatever the passwords are, and a
      short password even when the confirmation differs. */
  lemma ChecksInOrder(users: map<nat, User>, a: Answers, email: string, password: string, confirmation: string)
    requires !(SuperAdminExists(users) && !a.continueAnyway)
    ensures EmptyAnswer(a.name) ==> Rejection(users, a.(email := email, password := password, confirmation := confirmation)) == Some(1)
    ensures !EmptyAnswer(a.name) && !EmailShaped(a.email) ==>
              Rejection(users, a.(password := password, confirmation := confirmation)) == Some(1)
    ensures !EmptyAnswer(a.name) && EmailShaped(a.email) && EmailFree(users, a.email, None) && Utf8Length(a.password) < 8 ==>
              Rejection(users, a.(confirmation := confirmation)) == Some(1)
  {
  }

  /** The password length is counted in bytes: a password is never shorter
      in bytes than in characters, and the two agree exactly when every
      character is ASCII. So a short password of multi-byte characters can
      pass where an ASCII one of the same length does not. */
  lemma {:induction false} PasswordBytes(password: string)
    ensures Utf8Length(password) >= |password|
    ensures Utf8Length(password) == |password| <==> forall i :: 0 <= i < |password| ==> (password[i] as int) < 0x80
    decreases |password|
  {
    if password != [] {
      var tail := password[1..];
      PasswordBytes(tail);
      assert forall i :: 1 <= i < |password| ==> password[i] == tail[i - 1];
    }
  }

  /** handle of user:create-super-admin. Its first query,
      `User::role('super_admin')`, throws when that role does not exist:
      the command then ends with 1 before any prompt and writes nothing.
      Otherwise the checks run in order; past them the user row is created
      active with the super_admin role and joins default_group when it
      exists, and the exit code is 0. */
  method CreateSuperAdmin(db: Db, a: Answers) returns (exit: nat, id: Option<nat>)
    requires db.Valid()
    modifies db`users, db`nextUser, db`memberships
    ensures db.Valid()
    ensures exit == 0 || exit == 1
    ensures SuperAdmin !in db.roleNames ==> exit == 1 && id.None? && unchanged(db)
    ensures SuperAdmin in db.roleNames && Rejection(old(db.users), a).Some? ==>
              exit == Rejection(old(db.users), a).value && id.None? && unchanged(db)
    ensures SuperAdmin in db.roleNames && Rejection(old(db.users), a).None? ==>
              && exit == 0
              && id == Some(old(db.nextUser)) && id.value !in old(db.users)
              && db.nextUser == old(db.nextUser) + 1
              && db.users == old(db.users)[id.value := User(a.name, a.email, HashOf(a.password), Active, {SuperAdmin})]
              && (var g := FindGroupByName(db.groups, DefaultGroupName);
                  db.memberships == old(db.memberships) + (if g.Some? then {(id.value, g.value)} else {}))
  {
    if SuperAdmin !in db.roleNames {
      return 1, None;
    }
    var rejected := Rejection(db.users, a);
    if rejected.Some? {
      return rejected.value, None;
    }
    var row := User(a.name, a.email, HashOf(a.password), Active, {});
    var u := InsertUser(db, row);
    id := Some(u);
    exit := AssignSuperAdmin(db, u);
    assert old(db.users)[u := row][u := row.(roles := {SuperAdmin})] == old(db.users)[u := row.(roles := {SuperAdmin})];
  }

  /** `assignRole('super_admin')` on the new user, then joining
      default_group when it exists; exit code 1 when the role is missing. */
  method AssignSuperAdmin(db: Db, u: nat) returns (exit: nat)
    requires db.Valid() && u in db.users
    modifies db`users, db`memberships
    ensures db.Valid()
    ensures exit == 0 || exit == 1
    ensures exit == 0 <==> SuperAdmin in db.roleNames
    ensures exit == 1 ==> unchanged(db)
    ensures exit == 0 ==> db.users == old(db.users)[u := old(db.users)[u].(roles := {SuperAdmin})]
    ensures exit == 0 ==>
              var g := FindGroupByName(db.groups, DefaultGroupName);
              db.memberships == old(db.memberships) + (if g.Some? then {(u, g.value)} else {})
  {
    if SuperAdmin !in db.roleNames {
      return 1;
    }
    SetRoles(db, u, {SuperAdmin});
    var g := FindGroupByName(db.groups, DefaultGroupName);
    if g.Some? {
      AddMemberships(db, u, {g.value});
      assert Pairs(u, {g.value}) == {(u, g.value)};
    }
    exit := 0;
  }
}
