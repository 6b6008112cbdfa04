/** The two route middlewares: authentication first (401), then a
    capability or an any-of role test (403), else the request passes to the
    next handler unchanged. The principal is `None` when the request is not
    authenticated and its role set otherwise. */
module Middleware {
  import opened Common
  import opened Catalog
  import opened Text

  datatype Verdict =
    | Unauthenticated
    | MissingPermission(permission: string)
    | MissingRole(roles: seq<string>)
    | Pass

  /** The response status a verdict produces; a pass is left to the next
      handler. */
  function Status(v: Verdict): (code: Option<nat>)
    ensures v.Unauthenticated? <==> code == Some(401)
    ensures v.MissingPermission? || v.MissingRole? <==> code == Some(403)
    ensures v.Pass? <==> code.None?
  {
    match v
    case Unauthenticated => Some(401)
    case MissingPermission(_) => Some(403)
    case MissingRole(_) => Some(403)
    case Pass => None
  }

  /** CheckPermission: 401 without a principal, 403 naming the permission
      when no role of the principal holds it, pass otherwise. */
  function CheckPermission(principal: Option<set<string>>, roleGrants: map<string, set<string>>, permission: string)
    : (v: Verdict)
    ensures principal.None? <==> v == Unauthenticated
    ensures principal.Some? ==> (v == Pass <==> Can(principal.value, roleGrants, permission))
    ensures v.MissingPermission? ==> v.permission == permission
    ensures !v.MissingRole?
  {
    if principal.None? then Unauthenticated
    else if !Can(principal.value, roleGrants, permission) then MissingPermission(permission)
    else Pass
  }

  /** The role names one middleware argument stands for: the role package
      reads an argument containing '|' as the names between the bars, and
      any other argument as one name. */
  function RoleNames(entry: string): (r: seq<string>)
    ensures |r| >= 1 && Join(r, '|') == entry
    ensures forall k :: 0 <= k < |r| ==> '|' !in r[k]
    ensures '|' !in entry ==> r == [entry]
  {
    if '|' in entry then SplitJoin(entry, '|'); Split(entry, '|') else [entry]
  }

  /** The principal holds one of the names an argument stands for. */
  predicate EntryHeld(entry: string, held: set<string>) {
    exists k :: 0 <= k < |RoleNames(entry)| && RoleNames(entry)[k] in held
  }

  /** CheckRole: 401 without a principal, 403 listing the arguments when the
      principal holds none of the names they stand for, pass otherwise. */
  function CheckRole(principal: Option<set<string>>, roles: seq<string>): (v: Verdict)
    ensures principal.None? <==> v == Unauthenticated
    ensures principal.Some? ==>
              (v == Pass <==> exists i, k :: 0 <= i < |roles| && 0 <= k < |RoleNames(roles[i])|
                                              && RoleNames(roles[i])[k] in principal.value)
    ensures v.MissingRole? ==> v.roles == roles
    ensures !v.MissingPermission?
  {
    if principal.None? then Unauthenticated
    else if !(exists i :: 0 <= i < |roles| && EntryHeld(roles[i], principal.value)) then MissingRole(roles)
    else Pass
  }

  /** An argument "a|b" admits a principal holding either name, and only
      such a principal: a role whose own name is "a|b" does not count. */
  lemma PipedArgument(principal: set<string>, a: string, b: string)
    requires '|' !in a && '|' !in b
    ensures CheckRole(Some(principal), [a + "|" + b]) == Pass <==> a in principal || b in principal
  {
    SplitTwo(a, b, '|');
    assert '|' in a + "|" + b by {
      assert (a + "|" + b)[|a|] == '|';
    }
    assert RoleNames(a + "|" + b) == [a, b];
    if a in principal {
      assert RoleNames(([a + "|" + b])[0])[0] in principal;
    }
    if b in principal {
      assert RoleNames(([a + "|" + b])[0])[1] in principal;
    }
  }

  /** Authentication is checked first: without a principal the answer is 401
      whatever is required, even a permission or role nobody holds. */
  lemma UnauthenticatedFirst(roleGrants: map<string, set<string>>, permission: string, roles: seq<string>)
    ensures Status(CheckPermission(None, roleGrants, permission)) == Some(401)
    ensures Status(CheckRole(None, roles)) == Some(401)
  {
  }

  /** An authenticated principal never gets 401; an empty role list refuses
      everyone with 403. */
  lemma AuthenticatedCases(roles: set<string>, roleGrants: map<string, set<string>>, permission: string)
    ensures Status(CheckPermission(Some(roles), roleGrants, permission)) != Some(401)
    ensures Status(CheckRole(Some(roles), [])) == Some(403)
  {
  }

  /** Holding one of the names an argument stands for is enough, whichever
      argument it is and in whatever order the arguments come. */
  lemma AnyListedRolePasses(principal: set<string>, roles: seq<string>, i: nat, k: nat)
    requires i < |roles| && k < |RoleNames(roles[i])| && RoleNames(roles[i])[k] in principal
    ensures CheckRole(Some(principal), roles) == Pass
    ensures CheckRole(Some(principal), [roles[i]] + roles[..i] + roles[i + 1..]) == Pass
  {
    var moved := [roles[i]] + roles[..i] + roles[i + 1..];
    assert moved[0] == roles[i];
    assert EntryHeld(roles[i], principal);
    assert EntryHeld(moved[0], principal);
  }
}
