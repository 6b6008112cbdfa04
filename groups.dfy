/** Work-group administration. The group policy behind each action is not
    part of this model: each method takes its verdict as `authorized`, and a
    refusal (403) changes nothing. Route binding of a missing group or user
    answers 404 before the policy runs. */
module Groups {
  import opened Common
  import opened Entities
  import opened Schema
  import opened Store

  /** A group is protected while its current name is default_group. */
  predicate Protected(groups: map<nat, Group>, g: nat)
    requires g in groups
  {
    groups[g].name == DefaultGroupName
  }

  /** The members of group `g`. */
  function Members(memberships: set<(nat, nat)>, g: nat): (r: set<nat>)
    ensures forall u :: u in r <==> (u, g) in memberships
  {
    set p | p in memberships && p.1 == g :: p.0
  }

  /** index: every group with its member count, or 403. */
  function Index(authorized: bool, groups: map<nat, Group>, memberships: set<(nat, nat)>): (r: Option<map<nat, nat>>)
    ensures r.Some? <==> authorized
    ensures r.Some? ==> r.value.Keys == groups.Keys
    ensures r.Some? ==> forall g :: g in r.value ==> r.value[g] == |Members(memberships, g)|
  {
    if authorized then Some(map g | g in groups :: |Members(memberships, g)|) else None
  }

  /** The name is free, or taken only by `self` (`unique:groups,name,self`). */
  predicate NameFree(groups: map<nat, Group>, name: string, self: Option<nat>) {
    forall g :: g in groups && groups[g].name == name ==> Some(g) == self
  }

  /** store: the name must be unique and both names present (422). */
  method StoreGroup(db: Db, authorized: bool, name: string, displayName: string, description: Option<string>)
    returns (code: nat, id: Option<nat>)
    requires db.Valid()
    modifies db`groups, db`nextGroup
    ensures db.Valid()
    ensures code == 403 <==> !authorized
    ensures code == 422 <==> authorized && !(RequiredString(name) && RequiredString(displayName) && NameFree(old(db.groups), name, None))
    ensures code == 201 || code == 403 || code == 422
    ensures code != 201 ==> id == None && unchanged(db)
    ensures code == 201 ==> id == Some(old(db.nextGroup)) && id.value !in old(db.groups)
                            && db.groups == old(db.groups)[id.value := Group(name, displayName, description)]
                            && db.nextGroup == old(db.nextGroup) + 1
  {
    if !authorized {
      return 403, None;
    }
    if !(RequiredString(name) && RequiredString(displayName) && NameFree(db.groups, name, None)) {
      return 422, None;
    }
    var g := db.nextGroup;
    db.groups := db.groups[g := Group(name, displayName, description)];
    db.nextGroup := db.nextGroup + 1;
    return 201, Some(g);
  }

  /** update: the name must be unique except against the group itself; the
      description changes only when the request carries the key. The name
      may be changed away from (or to) default_group. */
  method UpdateGroup(db: Db, authorized: bool, g: nat, name: string, displayName: string,
                     description: Option<Option<string>>) returns (code: nat)
    requires db.Valid()
    modifies db`groups
    ensures db.Valid()
    ensures code == 200 || code == 403 || code == 404 || code == 422
    ensures code == 404 <==> g !in old(db.groups)
    ensures code == 403 <==> g in old(db.groups) && !authorized
    ensures code == 422 <==> g in old(db.groups) && authorized &&
                             !(RequiredString(name) && RequiredString(displayName) && NameFree(old(db.groups), name, Some(g)))
    ensures code != 200 ==> unchanged(db)
    ensures code == 200 ==>
              db.groups == old(db.groups)[g := Group(name, displayName,
                                                     if description.Some? then description.value else old(db.groups)[g].description)]
    ensures code == 200 ==> (Protected(db.groups, g) <==> name == DefaultGroupName)
  {
    if g !in db.groups {
      return 404;
    }
    if !authorized {
      return 403;
    }
    if !(RequiredString(name) && RequiredString(displayName) && NameFree(db.groups, name, Some(g))) {
      return 422;
    }
    var desc := if description.Some? then description.value else db.groups[g].description;
    db.groups := db.groups[g := Group(name, displayName, desc)];
    code := 200;
  }

  /** destroy: refused (403) for the group currently named default_group;
      any other group goes, with its membership rows. */
  method DestroyGroup(db: Db, authorized: bool, g: nat) returns (code: nat)
    requires db.Valid()
    modifies db`groups, db`memberships
    ensures db.Valid()
    ensures code == 200 || code == 403 || code == 404
    ensures code == 404 <==> g !in old(db.groups)
    ensures code == 403 <==> g in old(db.groups) && (!authorized || Protected(old(db.groups), g))
    ensures code != 200 ==> unchanged(db)
    ensures code == 200 ==> db.groups == old(db.groups) - {g} && db.memberships == DropRight(old(db.memberships), {g})
  {
    if g !in db.groups {
      return 404;
    }
    if !authorized || Protected(db.groups, g) {
      return 403;
    }
    db.groups := db.groups - {g};
    db.memberships := DropRight(db.memberships, {g});
    code := 200;
  }

  /** addUser: an existing member is refused with 400; otherwise the user
      joins. */
  method AddUser(db: Db, authorized: bool, g: nat, u: nat) returns (code: nat)
    requires db.Valid()
    modifies db`memberships
    ensures db.Valid()
    ensures code == 200 || code == 400 || code == 403 || code == 404
    ensures code == 404 <==> g !in db.groups || u !in db.users
    ensures code == 403 <==> g in db.groups && u in db.users && !authorized
    ensures code == 400 <==> g in db.groups && u in db.users && authorized && (u, g) in old(db.memberships)
    ensures code != 200 ==> unchanged(db)
    ensures code == 200 ==> (u, g) !in old(db.memberships) && db.memberships == old(db.memberships) + {(u, g)}
    ensures code == 200 || code == 400 ==> u in Members(db.memberships, g)
  {
    if g !in db.groups || u !in db.users {
      return 404;
    }
    if !authorized {
      return 403;
    }
    if (u, g) in db.memberships {
      return 400;
    }
    db.memberships := db.memberships + {(u, g)};
    code := 200;
  }

  /** removeUser: refused (403) for the group currently named default_group;
      otherwise the pair is detached, whether or not it was there. */
  method RemoveUser(db: Db, authorized: bool, g: nat, u: nat) returns (code: nat)
    requires db.Valid()
    modifies db`memberships
    ensures db.Valid()
    ensures code == 200 || code == 403 || code == 404
    ensures code == 404 <==> g !in db.groups || u !in db.users
    ensures code == 403 <==> g in db.groups && u in db.users && (!authorized || Protected(db.groups, g))
    ensures code != 200 ==> unchanged(db)
    ensures code == 200 ==> db.memberships == old(db.memberships) - {(u, g)}
    ensures code == 200 ==> u !in Members(db.memberships, g)
  {
    if g !in db.groups || u !in db.users {
      return 404;
    }
    if !authorized || Protected(db.groups, g) {
      return 403;
    }
    db.memberships := db.memberships - {(u, g)};
    code := 200;
  }

  /** The protections follow the name: renaming default_group (to a free
      name) and then deleting it succeeds. */
  method RenameThenDestroy(db: Db, g: nat, newName: string, displayName: string) returns (renamed: nat, deleted: nat)
    requires db.Valid() && g in db.groups && Protected(db.groups, g)
    requires RequiredString(newName) && newName != DefaultGroupName && RequiredString(displayName)
    requires NameFree(db.groups, newName, None)
    modifies db`groups, db`memberships
    ensures renamed == 200 && deleted == 200
    ensures g !in db.groups
  {
    renamed := UpdateGroup(db, true, g, newName, displayName, None);
    deleted := DestroyGroup(db, true, g);
  }
}
