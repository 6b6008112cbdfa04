/** Registration, login gating and password change. The password hash is
    the opaque `HashOf`; checking a password against a stored hash compares
    the plain text it was made from. */
module Auth {
  import opened Common
  import opened Entities
  import opened Text
  import opened Store

  /** The response of login once the request is well formed: 422 for bad
      credentials (decided before status), 403 for a pending or inactive
      account, 200 with a token otherwise. */
  function LoginCode(credentialsOk: bool, status: Status): (code: nat)
    ensures code == 200 || code == 403 || code == 422
  {
    if !credentialsOk then 422
    else if status == Pending || status == Inactive then 403
    else 200
  }

  /** The login outcomes, case by case. */
  lemma LoginCases(credentialsOk: bool, status: Status)
    ensures !credentialsOk ==> LoginCode(credentialsOk, status) == 422
    ensures credentialsOk ==> (LoginCode(credentialsOk, status) == 403 <==> status != Active)
    ensures LoginCode(credentialsOk, status) == 200 <==> credentialsOk && status == Active
  {
  }

  /** The user whose email matches and whose stored hash accepts the
      password, if any. */
  function Authenticate(users: map<nat, User>, email: string, password: string): (r: Option<nat>)
    requires EmailsUnique(users)
    ensures r.Some? <==> exists u :: u in users && users[u].email == email && HashMatches(password, users[u].password)
    ensures r.Some? ==> r.value in users && users[r.value].email == email
  {
    match FindUserByEmail(users, email)
    case None => None
    case Some(u) => if HashMatches(password, users[u].password) then Some(u) else None
  }

  /** login's validation rules. */
  predicate LoginValid(email: string, password: string) {
    EmailShaped(email) && RequiredPassword(password)
  }

  /** login: the request is validated (422), then the credentials and the
      status decide; only a 200 carries a token. Nothing is written. */
  method Login(db: Db, email: string, password: string) returns (code: nat, token: bool)
    requires db.Valid()
    ensures !LoginValid(email, password) ==> code == 422
    ensures LoginValid(email, password) ==>
              var found := Authenticate(db.users, email, password);
              code == LoginCode(found.Some?, if found.Some? then db.users[found.value].status else Active)
    ensures token <==> code == 200
    ensures code == 200 ==> exists u :: u in db.users && db.users[u].email == email && db.users[u].status == Active
  {
    if !LoginValid(email, password) {
      return 422, false;
    }
    var found := Authenticate(db.users, email, password);
    if found.None? {
      code := LoginCode(false, Active);
    } else {
      code := LoginCode(true, db.users[found.value].status);
    }
    token := code == 200;
  }

  /** A new password is required (not blank), at least eight characters and
      confirmed. */
  predicate NewPasswordValid(password: string, confirmation: string) {
    RequiredPassword(password) && LongEnough(password) && password == confirmation
  }

  /** register's validation rules. */
  predicate RegisterValid(users: map<nat, User>, name: string, email: string, password: string, confirmation: string) {
    && RequiredString(name)
    && EmailShaped(email) && |email| <= 255 && EmailFree(users, email, None)
    && NewPasswordValid(password, confirmation)
  }

  /** register: the user row is created with the column's default status
      (the users migration is not part of this model, so the default is a
      parameter), then given the role `user`; no group is attached. Without
      a `user` row in the roles table the role assignment throws (500) after
      the user row was written. */
  method Register(db: Db, name: string, email: string, password: string, confirmation: string, columnDefault: Status)
    returns (code: nat, id: Option<nat>)
    requires db.Valid()
    modifies db`users, db`nextUser
    ensures db.Valid()
    ensures code == 422 <==> !RegisterValid(old(db.users), name, email, password, confirmation)
    ensures code == 422 ==> id == None && unchanged(db)
    ensures code != 422 ==>
              && id == Some(old(db.nextUser)) && db.nextUser == old(db.nextUser) + 1
              && db.users == old(db.users)[id.value := User(name, email, HashOf(password), columnDefault,
                                                            if LegacyUser in db.roleNames then {LegacyUser} else {})]
              && (code == 201 <==> LegacyUser in db.roleNames)
              && (code == 500 <==> LegacyUser !in db.roleNames)
    ensures code != 422 ==> Authenticate(db.users, email, password) == id
    ensures db.memberships == old(db.memberships)
  {
    if !RegisterValid(db.users, name, email, password, confirmation) {
      return 422, None;
    }
    var roles: set<string> := if LegacyUser in db.roleNames then {LegacyUser} else {};
    var u := InsertUser(db, User(name, email, HashOf(password), columnDefault, roles));
    id := Some(u);
    assert db.users[u].email == email && HashMatches(password, db.users[u].password);
    code := if LegacyUser in db.roleNames then 201 else 500;
  }

  /** changePassword: validation (422), a wrong current password (422, no
      change), otherwise the actor's hash is replaced; afterwards the new
      password logs in and a different old one no longer does. */
  method ChangePassword(db: Db, actor: nat, current: string, password: string, confirmation: string)
    returns (code: nat)
    requires db.Valid() && actor in db.users
    modifies db`users
    ensures db.Valid()
    ensures code == 422 <==> !(RequiredPassword(current) && NewPasswordValid(password, confirmation))
                             || !HashMatches(current, old(db.users)[actor].password)
    ensures code == 200 || code == 422
    ensures code != 200 ==> unchanged(db)
    ensures code == 200 ==> db.users == old(db.users)[actor := old(db.users)[actor].(password := HashOf(password))]
    ensures code == 200 ==> Authenticate(db.users, db.users[actor].email, password) == Some(actor)
    ensures code == 200 && current != password ==> Authenticate(db.users, db.users[actor].email, current).None?
  {
    if !(RequiredPassword(current) && NewPasswordValid(password, confirmation)) {
      return 422;
    }
    if !HashMatches(current, db.users[actor].password) {
      return 422;
    }
    db.users := db.users[actor := db.users[actor].(password := HashOf(password))];
    code := 200;
  }

  /** A password accepted by the validation is at least eight UTF-8 bytes as
      well as eight characters. */
  lemma AcceptedPasswordBytes(password: string, confirmation: string)
    requires NewPasswordValid(password, confirmation)
    ensures Utf8Length(password) >= 8
  {
  }

  /** A password made only of blanks is missing for the `required` rule,
      however long it is: login, registration and a password change all
      refuse it with 422. */
  lemma BlankPasswordRefused(email: string, password: string, confirmation: string)
    requires forall i :: 0 <= i < |password| ==> PhpBlank(password[i])
    ensures !LoginValid(email, password)
    ensures !NewPasswordValid(password, confirmation)
  {
  }
}
