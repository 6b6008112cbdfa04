/** The decisions the User model makes about a principal: its admin level,
    whom it may manage and which directory it may open. */
module Principal {
  import opened Common
  import opened Entities

  predicate IsSuperAdmin(roles: set<string>) {
    SuperAdmin in roles
  }

  predicate IsAdmin(roles: set<string>) {
    SuperAdmin in roles || Admin in roles
  }

  /** User::canManageUser: super administrators manage everybody, plain
      administrators manage non-administrators, nobody else manages anyone. */
  predicate CanManageUser(actor: set<string>, target: set<string>) {
    if IsSuperAdmin(actor) then true
    else if IsAdmin(actor) then !IsAdmin(target)
    else false
  }

  /** User::canAccessDirectory for user `user` holding `roles`, over the
      directory table and the user-directory grant rows. */
  predicate CanAccessDirectory(roles: set<string>, dirs: map<nat, Directory>, grants: set<(nat, nat)>,
                               user: nat, dir: nat) {
    if IsAdmin(roles) then true
    else if dir in dirs && dirs[dir].isPublic then true
    else (user, dir) in grants
  }

  /** The two admin levels nest. */
  lemma AdminLevels(roles: set<string>)
    ensures IsSuperAdmin(roles) <==> SuperAdmin in roles
    ensures IsAdmin(roles) <==> SuperAdmin in roles || Admin in roles
    ensures IsSuperAdmin(roles) ==> IsAdmin(roles)
  {
  }

  /** The three cases of canManageUser; there is no self check. */
  lemma ManageCases(actor: set<string>, target: set<string>)
    ensures IsSuperAdmin(actor) ==> CanManageUser(actor, target)
    ensures IsSuperAdmin(actor) ==> CanManageUser(actor, actor)
    ensures IsAdmin(actor) && !IsSuperAdmin(actor) ==>
              (CanManageUser(actor, target) <==> SuperAdmin !in target && Admin !in target)
    ensures !IsAdmin(actor) ==> !CanManageUser(actor, target)
  {
  }

  /** The cases of canAccessDirectory. An administrator opens any id, also
      one with no directory row; otherwise only a public row or a direct
      grant opens it. */
  lemma AccessCases(roles: set<string>, dirs: map<nat, Directory>, grants: set<(nat, nat)>, user: nat, dir: nat)
    ensures IsAdmin(roles) ==> CanAccessDirectory(roles, dirs, grants, user, dir)
    ensures !IsAdmin(roles) ==>
              (CanAccessDirectory(roles, dirs, grants, user, dir) <==>
                 (dir in dirs && dirs[dir].isPublic) || (user, dir) in grants)
    ensures !IsAdmin(roles) && dir !in dirs && (user, dir) !in grants ==>
              !CanAccessDirectory(roles, dirs, grants, user, dir)
  {
  }

  /** canAccessDirectory looks at nothing but admin-ness, the one directory's
      public flag and the one grant row: two stores that agree on those give
      the same answer, whatever parents, children or groups they hold. */
  lemma AccessIsLocal(roles: set<string>, dirs1: map<nat, Directory>, grants1: set<(nat, nat)>,
                      dirs2: map<nat, Directory>, grants2: set<(nat, nat)>, user: nat, dir: nat)
    requires (dir in dirs1 && dirs1[dir].isPublic) == (dir in dirs2 && dirs2[dir].isPublic)
    requires ((user, dir) in grants1) == ((user, dir) in grants2)
    ensures CanAccessDirectory(roles, dirs1, grants1, user, dir) == CanAccessDirectory(roles, dirs2, grants2, user, dir)
  {
  }

  /** Access to a directory says nothing about access to its parent: for a
      non-administrator, granting a directory opens it, while its private
      parent, which holds no grant of its own, stays closed. No ancestor is
      consulted. */
  lemma NoAncestorVisibility(roles: set<string>, dirs: map<nat, Directory>, grants: set<(nat, nat)>,
                             user: nat, d: nat, p: nat)
    requires !IsAdmin(roles)
    requires d in dirs && dirs[d].parentId == Some(p) && d != p
    requires p in dirs && !dirs[p].isPublic && (user, p) !in grants
    ensures CanAccessDirectory(roles, dirs, grants + {(user, d)}, user, d)
    ensures !CanAccessDirectory(roles, dirs, grants + {(user, d)}, user, p)
  {
  }
}
