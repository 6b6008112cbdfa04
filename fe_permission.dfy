/** The front end's permission hook: predicates over the stored user (absent
    when nobody is logged in; its role list may be missing) and the stored
    capability list. */
module FrontPermission {
  import opened Common
  import opened Entities
  import Catalog
  import Principal

  /** The stored user as the hook sees it: the names of its roles, when the
      record carries a role list at all. */
  datatype StoredUser = StoredUser(roles: Option<seq<string>>)

  /** hasPermission: false without a user; otherwise membership in the
      stored list. */
  predicate HasPermission(user: Option<StoredUser>, permissions: seq<string>, p: string) {
    user.Some? && p in permissions
  }

  /** hasRole: false without a user or a role list. */
  predicate HasRole(user: Option<StoredUser>, role: string) {
    user.Some? && user.value.roles.Some? && role in user.value.roles.value
  }

  /** hasAnyRole: some role of the user is listed. */
  predicate HasAnyRole(user: Option<StoredUser>, roles: seq<string>) {
    user.Some? && user.value.roles.Some? && exists r :: r in user.value.roles.value && r in roles
  }

  predicate IsSuperAdmin(user: Option<StoredUser>) {
    HasRole(user, SuperAdmin)
  }

  predicate IsAdmin(user: Option<StoredUser>) {
    HasAnyRole(user, [SuperAdmin, Admin])
  }

  /** canManageUser: false for an absent target; a super_admin manages
      anyone, an admin anyone whose role list (empty when missing) holds
      neither admin role, anyone else nobody. */
  predicate CanManageUser(user: Option<StoredUser>, target: Option<StoredUser>) {
    if target.None? then false
    else if HasRole(user, SuperAdmin) then true
    else if HasRole(user, Admin) then
      var targetRoles := if target.value.roles.Some? then target.value.roles.value else [];
      !(exists r :: r in targetRoles && r in [SuperAdmin, Admin])
    else false
  }

  /** Without a user, or without a role list, every predicate is false. */
  lemma NoUserNoRights(permissions: seq<string>, p: string, role: string, roles: seq<string>, target: Option<StoredUser>)
    ensures !HasPermission(None, permissions, p) && !HasRole(None, role) && !HasAnyRole(None, roles)
    ensures !HasRole(Some(StoredUser(None)), role) && !HasAnyRole(Some(StoredUser(None)), roles)
    ensures !CanManageUser(None, target) && !CanManageUser(Some(StoredUser(None)), target)
  {
  }

  /** A logged-in user has a capability exactly when it is stored. */
  lemma PermissionIsMembership(u: StoredUser, permissions: seq<string>, p: string)
    ensures HasPermission(Some(u), permissions, p) <==> p in permissions
  {
  }

  /** isSuperAdmin implies isAdmin; isAdmin means holding one of the two
      admin roles. */
  lemma AdminFlags(user: Option<StoredUser>)
    ensures IsSuperAdmin(user) ==> IsAdmin(user)
    ensures IsAdmin(user) <==> HasRole(user, SuperAdmin) || HasRole(user, Admin)
  {
    if IsSuperAdmin(user) {
      assert SuperAdmin in [SuperAdmin, Admin];
    }
    if HasRole(user, Admin) {
      assert Admin in [SuperAdmin, Admin];
    }
  }

  /** No target means no management, whoever asks. */
  lemma NullTargetRefused(user: Option<StoredUser>)
    ensures !CanManageUser(user, None)
  {
  }

  /** For a logged-in user with a role list and a present target, the front
      end decides exactly as the back end does on the same role sets. */
  lemma AgreesWithBackend(actor: seq<string>, target: Option<seq<string>>)
    ensures var targetSet := if target.Some? then Elems(target.value) else {};
            CanManageUser(Some(StoredUser(Some(actor))), Some(StoredUser(target)))
            == Principal.CanManageUser(Elems(actor), targetSet)
  {
    var targetRoles := if target.Some? then target.value else [];
    if Admin in actor && SuperAdmin !in actor {
      if SuperAdmin in targetRoles {
        assert SuperAdmin in [SuperAdmin, Admin];
      }
      if Admin in targetRoles {
        assert Admin in [SuperAdmin, Admin];
      }
    }
  }
}
