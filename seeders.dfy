/** The four seeders: the four-role capability catalog, the legacy two-role
    catalog, the initial work-groups, and the migration of existing users to
    the four-role scheme. */
module Seeders {
  import opened Common
  import opened Entities
  import opened Catalog
  import opened Store

  /** `firstOrCreate` of each name in turn: a name is appended only when it
      is not there yet. */
  function AddMissing(names: seq<string>, more: seq<string>): (r: seq<string>)
    ensures |r| >= |names| && r[..|names|] == names
    ensures Elems(r) == Elems(names) + Elems(more)
    ensures Distinct(names) ==> Distinct(r)
    decreases |more|
  {
    if more == [] then names
    else
      var last := more[|more| - 1];
      var front := AddMissing(names, more[..|more| - 1]);
      assert more == more[..|more| - 1] + [last];
      if last in front then front else front + [last]
  }

  /** The names of a prefix are among the names of the whole. */
  lemma NamesOfPrefix(s: seq<string>, i: nat)
    requires i <= |s|
    ensures Elems(s[..i]) <= Elems(s)
  {
    forall x | x in s[..i] ensures x in s {
      var j :| 0 <= j < i && s[..i][j] == x;
      assert s[j] == x;
    }
  }

  /** Adding names that are all present already changes nothing. */
  lemma {:induction false} AddMissingPresent(names: seq<string>, more: seq<string>)
    requires Elems(more) <= Elems(names)
    ensures AddMissing(names, more) == names
    decreases |more|
  {
    if more != [] {
      NamesOfPrefix(more, |more| - 1);
      AddMissingPresent(names, more[..|more| - 1]);
    }
  }

  /** Names that are new and distinct are all appended, in order. */
  lemma {:induction false} AddMissingFresh(names: seq<string>, more: seq<string>)
    requires Distinct(more) && Elems(names) !! Elems(more)
    ensures AddMissing(names, more) == names + more
    decreases |more|
  {
    if more != [] {
      var init := more[..|more| - 1];
      var last := more[|more| - 1];
      NamesOfPrefix(more, |more| - 1);
      AddMissingFresh(names, init);
      assert last !in init by {
        forall j | 0 <= j < |init| ensures init[j] != last {
          assert init[j] == more[j];
        }
      }
      assert last !in names;
      assert init + [last] == more;
    }
  }

  /** The loop of `firstOrCreate` calls over a list of capability names. */
  method FirstOrCreateAll(db: Db, more: seq<string>)
    requires db.Valid()
    modifies db`permissionNames
    ensures db.Valid()
    ensures db.permissionNames == AddMissing(old(db.permissionNames), more)
  {
    var i := 0;
    while i < |more|
      invariant 0 <= i <= |more|
      invariant db.Valid()
      invariant db.permissionNames == AddMissing(old(db.permissionNames), more[..i])
    {
      assert more[..i + 1][..i] == more[..i];
      if more[i] !in db.permissionNames {
        AddPermissionName(db, more[i]);
      }
      i := i + 1;
    }
    assert more[..i] == more;
  }

  /** What a role held before a grant. */
  function Held(grants: map<string, set<string>>, role: string): set<string> {
    if role in grants then grants[role] else {}
  }

  /** Four `givePermissionTo` calls on four different roles: each role
      keeps what it held and gains its list. */
  function GiveFour(grants: map<string, set<string>>, a: string, ca: set<string>, b: string, cb: set<string>,
                    c: string, cc: set<string>, d: string, cd: set<string>): (r: map<string, set<string>>)
    requires a != b && a != c && a != d && b != c && b != d && c != d
    ensures r.Keys == grants.Keys + {a, b, c, d}
    ensures r[a] == Held(grants, a) + ca && r[b] == Held(grants, b) + cb
    ensures r[c] == Held(grants, c) + cc && r[d] == Held(grants, d) + cd
    ensures forall q :: q in grants && q != a && q != b && q != c && q != d ==> r[q] == grants[q]
  {
    grants[a := Held(grants, a) + ca][b := Held(grants, b) + cb][c := Held(grants, c) + cc][d := Held(grants, d) + cd]
  }

  /** Giving the same four rows twice gives them once. */
  lemma GiveFourTwice(grants: map<string, set<string>>, a: string, ca: set<string>, b: string, cb: set<string>,
                      c: string, cc: set<string>, d: string, cd: set<string>)
    requires a != b && a != c && a != d && b != c && b != d && c != d
    ensures var once := GiveFour(grants, a, ca, b, cb, c, cc, d, cd);
            GiveFour(once, a, ca, b, cb, c, cc, d, cd) == once
  {
    var once := GiveFour(grants, a, ca, b, cb, c, cc, d, cd);
    var twice := GiveFour(once, a, ca, b, cb, c, cc, d, cd);
    assert twice.Keys == once.Keys;
    forall q | q in once ensures twice[q] == once[q] {
      if q != a && q != b && q != c && q != d {
        assert q in grants;
      }
    }
  }

  /** The role rows of the four-role seeder; super_admin receives every
      capability in the table at that point (`all`), the others their fixed
      lists, each added to what the role held. */
  function RbacGrants(grants: map<string, set<string>>, all: set<string>): (r: map<string, set<string>>)
    ensures r.Keys == grants.Keys + AssignableRoles
    ensures r[SuperAdmin] == Held(grants, SuperAdmin) + all
    ensures r[Admin] == Held(grants, Admin) + AdminCapabilities
    ensures r[SeniorMember] == Held(grants, SeniorMember) + SeniorMemberCapabilities
    ensures r[Member] == Held(grants, Member) + MemberCapabilities
    ensures forall q :: q in grants && q !in AssignableRoles ==> r[q] == grants[q]
  {
    RoleNamesDiffer();
    GiveFour(grants, SuperAdmin, all, Admin, AdminCapabilities, SeniorMember, SeniorMemberCapabilities,
             Member, MemberCapabilities)
  }

  /** RBACSeeder: capabilities and roles by `firstOrCreate`, then the four
      grants. */
  method RbacSeed(db: Db)
    requires db.Valid()
    modifies db`permissionNames, db`roleNames, db`roleGrants
    ensures db.Valid()
    ensures db.permissionNames == AddMissing(old(db.permissionNames), RbacPermissions)
    ensures db.roleNames == old(db.roleNames) + AssignableRoles
    ensures db.roleGrants == RbacGrants(old(db.roleGrants), Elems(db.permissionNames))
  {
    FirstOrCreateAll(db, RbacPermissions);
    AddRoles(db, AssignableRoles);
    GiveRole(db, SuperAdmin, Elems(db.permissionNames));
    GiveRole(db, Admin, AdminCapabilities);
    GiveRole(db, SeniorMember, SeniorMemberCapabilities);
    GiveRole(db, Member, MemberCapabilities);
    RoleNamesDiffer();
    GivesInOrder(old(db.roleGrants), SuperAdmin, Elems(db.permissionNames), Admin, AdminCapabilities,
                 SeniorMember, SeniorMemberCapabilities, Member, MemberCapabilities);
  }

  /** The four grants one after the other are the four rows at once. */
  lemma GivesInOrder(grants: map<string, set<string>>, a: string, ca: set<string>, b: string, cb: set<string>,
                     c: string, cc: set<string>, d: string, cd: set<string>)
    requires a != b && a != c && a != d && b != c && b != d && c != d
    ensures Give(Give(Give(Give(grants, a, ca), b, cb), c, cc), d, cd) == GiveFour(grants, a, ca, b, cb, c, cc, d, cd)
  {
    var g1 := Give(grants, a, ca);
    var g2 := Give(g1, b, cb);
    var g3 := Give(g2, c, cc);
    assert Held(g1, b) == Held(grants, b);
    assert Held(g2, c) == Held(grants, c);
    assert Held(g3, d) == Held(grants, d);
  }

  /** On an empty catalog the seeder installs exactly the sixteen
      capabilities, in order ... */
  lemma RbacNamesOnEmptyCatalog()
    ensures AddMissing([], RbacPermissions) == RbacPermissions
  {
    RbacTableShape();
    AddMissingFresh([], RbacPermissions);
    assert [] + RbacPermissions == RbacPermissions;
  }

  /** ... and the four rows of the table. */
  lemma RbacRowsOnEmptyCatalog()
    ensures var g := RbacGrants(map[], Elems(RbacPermissions));
            && g.Keys == AssignableRoles
            && (forall r :: r in g ==> g[r] == RbacCapabilities(r))
  {
    var g := RbacGrants(map[], Elems(RbacPermissions));
    forall r | r in g ensures g[r] == RbacCapabilities(r) {
      RbacRowOnEmpty(Elems(RbacPermissions), r);
    }
  }

  /** On no prior grants, each of the four rows is the role's list, and
      super_admin's is the whole table `all`. */
  lemma RbacRowOnEmpty(all: set<string>, r: string)
    requires r in AssignableRoles
    ensures RbacGrants(map[], all)[r] == if r == SuperAdmin then all else RbacCapabilities(r)
  {
    RoleNamesDiffer();
  }

  /** A second `firstOrCreate` pass over the same names changes nothing. */
  lemma AddMissingIdempotent(names: seq<string>, more: seq<string>)
    ensures AddMissing(AddMissing(names, more), more) == AddMissing(names, more)
  {
    AddMissingPresent(AddMissing(names, more), more);
  }

  /** Running the seeder a second time leaves every role row as the first
      run left it (with AddMissingIdempotent: the seeder is idempotent). */
  lemma RbacIdempotent(grants: map<string, set<string>>, all: set<string>)
    ensures RbacGrants(RbacGrants(grants, all), all) == RbacGrants(grants, all)
  {
    RoleNamesDiffer();
    GiveFourTwice(grants, SuperAdmin, all, Admin, AdminCapabilities, SeniorMember, SeniorMemberCapabilities,
                  Member, MemberCapabilities);
  }

  /** Run after the legacy seeder, super_admin also receives the legacy
      capabilities: its row is "everything in the table", not the sixteen. */
  lemma RbacAfterLegacy(grants: map<string, set<string>>)
    ensures var names := AddMissing(LegacyPermissions, RbacPermissions);
            "manage-directories" in RbacGrants(grants, Elems(names))[SuperAdmin]
  {
    assert LegacyPermissions[1] == "manage-directories";
  }

  /** The index of the first name of `more` already in `names`, if any. */
  function FirstTaken(names: seq<string>, more: seq<string>): (r: Option<nat>)
    ensures r.Some? ==> r.value < |more| && more[r.value] in names
    ensures r.Some? ==> forall j :: 0 <= j < r.value ==> more[j] !in names
    ensures r.None? ==> forall j :: 0 <= j < |more| ==> more[j] !in names
    decreases |more|
  {
    if more == [] then None
    else if more[0] in names then Some(0)
    else match FirstTaken(names, more[1..])
      case None => None
      case Some(k) => Some(k + 1)
  }

  /** The loop of `Permission::create` calls: a name already present throws,
      ending the run with the names created so far. The list itself has no
      repeats. */
  method CreateAll(db: Db, more: seq<string>) returns (completed: bool)
    requires db.Valid() && Distinct(more)
    modifies db`permissionNames
    ensures db.Valid()
    ensures completed <==> FirstTaken(old(db.permissionNames), more).None?
    ensures completed ==> db.permissionNames == old(db.permissionNames) + more
    ensures !completed ==>
              db.permissionNames == old(db.permissionNames) + more[..FirstTaken(old(db.permissionNames), more).value]
  {
    var i := 0;
    while i < |more|
      invariant 0 <= i <= |more|
      invariant db.Valid()
      invariant forall j :: 0 <= j < i ==> more[j] !in old(db.permissionNames)
      invariant db.permissionNames == old(db.permissionNames) + more[..i]
    {
      assert more[i] !in more[..i] by {
        forall j | 0 <= j < i ensures more[..i][j] != more[i] {
        }
      }
      if more[i] in db.permissionNames {
        assert more[i] in old(db.permissionNames);
        return false;
      }
      AddPermissionName(db, more[i]);
      assert more[..i + 1] == more[..i] + [more[i]];
      i := i + 1;
    }
    assert more[..i] == more;
    completed := true;
  }

  /** RolePermissionSeeder: the six capabilities by `create`, then role admin
      with every capability in the table, then role user with upload and
      download; `create` throws on a name that exists, ending the run. */
  method LegacySeed(db: Db) returns (completed: bool)
    requires db.Valid()
    modifies db`permissionNames, db`roleNames, db`roleGrants
    ensures db.Valid()
    ensures var taken := FirstTaken(old(db.permissionNames), LegacyPermissions);
            taken.Some? ==>
              && !completed
              && db.permissionNames == old(db.permissionNames) + LegacyPermissions[..taken.value]
              && db.roleNames == old(db.roleNames) && db.roleGrants == old(db.roleGrants)
    ensures var taken := FirstTaken(old(db.permissionNames), LegacyPermissions);
            var adminGrants := Give(old(db.roleGrants), Admin, Elems(db.permissionNames));
            taken.None? ==>
              && db.permissionNames == old(db.permissionNames) + LegacyPermissions
              && (completed <==> Admin !in old(db.roleNames) && LegacyUser !in old(db.roleNames))
              && (Admin in old(db.roleNames) ==> db.roleNames == old(db.roleNames) && db.roleGrants == old(db.roleGrants))
              && (Admin !in old(db.roleNames) && LegacyUser in old(db.roleNames) ==>
                    db.roleNames == old(db.roleNames) + {Admin} && db.roleGrants == adminGrants)
              && (completed ==>
                    && db.roleNames == old(db.roleNames) + {Admin, LegacyUser}
                    && db.roleGrants == Give(adminGrants, LegacyUser, LegacyUserCapabilities))
  {
    LegacyTableShape();
    var created := CreateAll(db, LegacyPermissions);
    if !created {
      return false;
    }
    completed := CreateLegacyRoles(db);
  }

  /** The role half of RolePermissionSeeder: admin with every capability in
      the table, then user with upload and download; `create` throws on a
      role that exists, ending the run. */
  method CreateLegacyRoles(db: Db) returns (completed: bool)
    requires db.Valid()
    modifies db`roleNames, db`roleGrants
    ensures db.Valid()
    ensures var adminGrants := Give(old(db.roleGrants), Admin, Elems(db.permissionNames));
            && (completed <==> Admin !in old(db.roleNames) && LegacyUser !in old(db.roleNames))
            && (Admin in old(db.roleNames) ==> db.roleNames == old(db.roleNames) && db.roleGrants == old(db.roleGrants))
            && (Admin !in old(db.roleNames) && LegacyUser in old(db.roleNames) ==>
                  db.roleNames == old(db.roleNames) + {Admin} && db.roleGrants == adminGrants)
            && (completed ==>
                  && db.roleNames == old(db.roleNames) + {Admin, LegacyUser}
                  && db.roleGrants == Give(adminGrants, LegacyUser, LegacyUserCapabilities))
  {
    if Admin in db.roleNames {
      return false;
    }
    AddRoles(db, {Admin});
    GiveRole(db, Admin, Elems(db.permissionNames));
    if LegacyUser in db.roleNames {
      return false;
    }
    AddRoles(db, {LegacyUser});
    GiveRole(db, LegacyUser, LegacyUserCapabilities);
    completed := true;
  }

  /** On an empty catalog the legacy seeder gives admin all six capabilities
      and user exactly upload and download, a strict part of admin's. */
  lemma LegacyOnEmptyCatalog()
    ensures FirstTaken([], LegacyPermissions).None?
    ensures var g := Give(Give(map[], Admin, Elems(LegacyPermissions)), LegacyUser, LegacyUserCapabilities);
            && g.Keys == {Admin, LegacyUser}
            && g[Admin] == Elems(LegacyPermissions)
            && g[LegacyUser] == LegacyUserCapabilities
            && g[LegacyUser] < g[Admin]
  {
    RoleNamesDiffer();
    LegacyTableShape();
    TwoGrants(Admin, LegacyUser, Elems(LegacyPermissions), LegacyUserCapabilities);
  }

  /** Two grants to two different roles on no prior grants give exactly
      those two rows. */
  lemma TwoGrants(a: string, b: string, ca: set<string>, cb: set<string>)
    requires a != b
    ensures var g := Give(Give(map[], a, ca), b, cb);
            g.Keys == {a, b} && g[a] == ca && g[b] == cb
  {
  }

  /** The groups GroupSeeder creates, in order. */
  const SeedGroups: seq<Group> := [
    Group(DefaultGroupName, "用户组", Some("默认工作组，所有新注册用户自动加入此组")),
    Group("dev_group", "开发组", Some("开发人员工作组")),
    Group("test_group", "测试组", Some("测试人员工作组")),
    Group("review_group", "评审组", Some("评审人员工作组"))]

  /** The names of `rows` are pairwise distinct and none is taken in `groups`. */
  predicate NamesFresh(groups: map<nat, Group>, rows: seq<Group>) {
    && (forall i, j :: 0 <= i < j < |rows| ==> rows[i].name != rows[j].name)
    && (forall i, g :: 0 <= i < |rows| && g in groups ==> groups[g].name != rows[i].name)
  }

  lemma SeedGroupsShape()
    ensures |SeedGroups| == 4
    ensures SeedGroups[0].name == DefaultGroupName
    ensures NamesFresh(map[], SeedGroups)
    ensures forall i :: 0 <= i < |SeedGroups| ==>
              SeedGroups[i].displayName != "" && SeedGroups[i].description.Some? && SeedGroups[i].description.value != ""
  {
  }

  /** Rows numbered from `start` in order, as consecutive inserts key them. */
  function Numbered(start: nat, rows: seq<Group>): map<nat, Group>
    decreases |rows|
  {
    if rows == [] then map[]
    else Numbered(start, rows[..|rows| - 1])[start + |rows| - 1 := rows[|rows| - 1]]
  }

  /** The numbered rows take the keys from `start` on, one per row, in
      order. */
  lemma {:induction false} NumberedMeaning(start: nat, rows: seq<Group>)
    ensures forall k :: k in Numbered(start, rows) <==> start <= k < start + |rows|
    ensures forall k :: k in Numbered(start, rows) ==> Numbered(start, rows)[k] == rows[k - start]
    decreases |rows|
  {
    if rows != [] {
      var n := |rows| - 1;
      NumberedMeaning(start, rows[..n]);
      assert forall j :: 0 <= j < n ==> rows[..n][j] == rows[j];
    }
  }

  /** One more insert numbers one more row. */
  lemma NumberedStep(base: map<nat, Group>, start: nat, rows: seq<Group>, i: nat)
    requires i < |rows|
    ensures (base + Numbered(start, rows[..i]))[start + i := rows[i]] == base + Numbered(start, rows[..i + 1])
  {
    assert rows[..i + 1][..i] == rows[..i];
  }

  /** The rows created from the next free key are added beside the old
      rows, which keep their keys and values. */
  lemma CreatedRows(base: map<nat, Group>, start: nat, rows: seq<Group>, created: seq<nat>)
    requires KeysBelow(base.Keys, start) && |created| <= |rows|
    requires forall i :: 0 <= i < |created| ==> created[i] == start + i
    ensures var after := base + Numbered(start, rows[..|created|]);
            && (forall k :: k in after <==> k in base || k in created)
            && (forall i :: 0 <= i < |created| ==> created[i] !in base && after[created[i]] == rows[i])
            && (forall g :: g in base ==> after[g] == base[g])
  {
    var added := Numbered(start, rows[..|created|]);
    NumberedMeaning(start, rows[..|created|]);
    forall k | k in added ensures k in created {
      assert created[k - start] == k;
    }
    forall i | 0 <= i < |created| ensures added[created[i]] == rows[i] {
      assert rows[..|created|][i] == rows[i];
    }
  }

  /** A name found among the rows inserted so far, or among the old groups,
      shows that the rows were not fresh. */
  lemma TakenNotFresh(base: map<nat, Group>, start: nat, rows: seq<Group>, i: nat, h: nat)
    requires i < |rows|
    requires h in base + Numbered(start, rows[..i])
    requires (base + Numbered(start, rows[..i]))[h].name == rows[i].name
    ensures !NamesFresh(base, rows)
  {
    NumberedMeaning(start, rows[..i]);
    if h in Numbered(start, rows[..i]) {
      assert rows[h - start].name == rows[i].name;
    } else {
      assert base[h].name == rows[i].name;
    }
  }

  /** The loop of `Group::create` calls. The groups migration is not part of
      this model; a unique name index is assumed, so a name already taken
      ends the run with the groups created so far. */
  method CreateGroups(db: Db, rows: seq<Group>) returns (created: seq<nat>)
    requires db.Valid()
    modifies db`groups, db`nextGroup
    ensures db.Valid()
    ensures |created| <= |rows|
    ensures db.nextGroup == old(db.nextGroup) + |created|
    ensures forall i :: 0 <= i < |created| ==> created[i] == old(db.nextGroup) + i
    ensures db.groups == old(db.groups) + Numbered(old(db.nextGroup), rows[..|created|])
    ensures NamesFresh(old(db.groups), rows) ==> |created| == |rows|
  {
    created := [];
    var i := 0;
    while i < |rows|
      invariant 0 <= i <= |rows| && |created| == i
      invariant db.Valid()
      invariant db.nextGroup == old(db.nextGroup) + i
      invariant forall j :: 0 <= j < i ==> created[j] == old(db.nextGroup) + j
      invariant db.groups == old(db.groups) + Numbered(old(db.nextGroup), rows[..i])
    {
      var taken := FindGroupByName(db.groups, rows[i].name);
      if taken.Some? {
        TakenNotFresh(old(db.groups), old(db.nextGroup), rows, i, taken.value);
        return;
      }
      var g := InsertGroup(db, rows[i]);
      NumberedStep(old(db.groups), old(db.nextGroup), rows, i);
      created := created + [g];
      i := i + 1;
    }
  }

  /** GroupSeeder: the four groups in order; on a table that holds none of
      their names, all four are created. */
  method GroupSeed(db: Db) returns (created: seq<nat>)
    requires db.Valid()
    modifies db`groups, db`nextGroup
    ensures db.Valid()
    ensures |created| <= |SeedGroups|
    ensures forall k :: k in db.groups <==> k in old(db.groups) || k in created
    ensures forall i :: 0 <= i < |created| ==> created[i] !in old(db.groups) && db.groups[created[i]] == SeedGroups[i]
    ensures forall g :: g in old(db.groups) ==> db.groups[g] == old(db.groups)[g]
    ensures (forall g :: g in old(db.groups) ==> old(db.groups)[g].name !in SeedNames) ==> |created| == |SeedGroups|
  {
    created := CreateGroups(db, SeedGroups);
    CreatedRows(old(db.groups), old(db.nextGroup), SeedGroups, created);
    if forall g :: g in old(db.groups) ==> old(db.groups)[g].name !in SeedNames {
      SeedNamesFresh(old(db.groups));
    }
  }

  /** A table holding none of the seed names leaves the seed rows fresh. */
  lemma SeedNamesFresh(groups: map<nat, Group>)
    requires forall g :: g in groups ==> groups[g].name !in SeedNames
    ensures NamesFresh(groups, SeedGroups)
  {
    SeedGroupsShape();
    assert forall i :: 0 <= i < |SeedGroups| ==> SeedGroups[i].name == SeedNames[i];
  }

  /** The names GroupSeeder uses. */
  const SeedNames: seq<string> := [DefaultGroupName, "dev_group", "test_group", "review_group"]

  /** The roles a user ends with: an admin becomes super_admin only (checked
      first), a `user` becomes member only, anyone else gains member. */
  function Migrated(roles: set<string>): (r: set<string>)
    ensures Admin in roles ==> r == {SuperAdmin}
    ensures Admin !in roles && LegacyUser in roles ==> r == {Member}
    ensures Admin !in roles && LegacyUser !in roles ==> r == roles + {Member}
  {
    if Admin in roles then {SuperAdmin}
    else if LegacyUser in roles then {Member}
    else roles + {Member}
  }

  /** Every migrated user holds super_admin or member and no legacy role, and
      a second run adds member to an already migrated super_admin. */
  lemma MigrationCases(roles: set<string>)
    ensures SuperAdmin in Migrated(roles) || Member in Migrated(roles)
    ensures Admin !in Migrated(roles) && LegacyUser !in Migrated(roles)
    ensures Migrated(Migrated({Admin})) == {SuperAdmin, Member} != Migrated({Admin})
  {
  }

  /** The membership rows of every user in `us` for group `g`. */
  function Joined(us: set<nat>, g: nat): (r: set<(nat, nat)>)
    ensures forall p :: p in r <==> p.0 in us && p.1 == g
  {
    set u | u in us :: (u, g)
  }

  /** MigrateUsersSeeder: without default_group nothing changes; otherwise
      every user's roles migrate and every user joins default_group (an
      existing membership is kept, never duplicated). The roles the
      migration names must exist. */
  method MigrateUsers(db: Db) returns (completed: bool)
    requires db.Valid() && SuperAdmin in db.roleNames && Member in db.roleNames
    modifies db`users, db`memberships
    ensures db.Valid()
    ensures completed <==> FindGroupByName(db.groups, DefaultGroupName).Some?
    ensures !completed ==> unchanged(db)
    ensures completed ==>
              var g := FindGroupByName(db.groups, DefaultGroupName).value;
              && db.users.Keys == old(db.users).Keys
              && (forall u :: u in db.users ==> db.users[u] == old(db.users)[u].(roles := Migrated(old(db.users)[u].roles)))
              && db.memberships == old(db.memberships) + Joined(old(db.users).Keys, g)
  {
    var found := FindGroupByName(db.groups, DefaultGroupName);
    if found.None? {
      return false;
    }
    MigrateEach(db, found.value);
    completed := true;
  }

  /** The loop of MigrateUsersSeeder over every user, with default_group `g`. */
  method MigrateEach(db: Db, g: nat)
    requires db.Valid() && g in db.groups && SuperAdmin in db.roleNames && Member in db.roleNames
    modifies db`users, db`memberships
    ensures db.Valid()
    ensures db.users == MigratedUsers(old(db.users), old(db.users).Keys)
    ensures db.memberships == old(db.memberships) + Joined(old(db.users).Keys, g)
  {
    var users, rows := db.users, db.memberships;
    var todo := users.Keys;
    ghost var done: set<nat> := {};
    while todo != {}
      invariant todo + done == old(db.users).Keys && todo !! done
      invariant users == MigratedUsers(old(db.users), done)
      invariant rows == old(db.memberships) + Joined(done, g)
      invariant unchanged(db)
      decreases todo
    {
      var u :| u in todo;
      MigrateStep(old(db.users), done, u, g);
      MoveOne(todo, done, u);
      users := users[u := users[u].(roles := Migrated(users[u].roles))];
      if (u, g) !in rows {
        rows := rows + {(u, g)};
      }
      todo := todo - {u};
      done := done + {u};
    }
    assert done == old(db.users).Keys;
    MigrationKeepsRows(old(db.users), db.roleNames);
    ReplaceUsers(db, users, rows);
  }

  /** Migrating roles keeps the ids and emails and, when super_admin and
      member exist, keeps every role a known one. */
  lemma MigrationKeepsRows(users: map<nat, User>, roleNames: set<string>)
    requires EmailsUnique(users) && RolesKnown(users, roleNames)
    requires SuperAdmin in roleNames && Member in roleNames
    ensures var after := MigratedUsers(users, users.Keys);
            after.Keys == users.Keys && EmailsUnique(after) && RolesKnown(after, roleNames)
  {
  }

  /** The users with the roles of those in `done` migrated. */
  function MigratedUsers(users: map<nat, User>, done: set<nat>): (r: map<nat, User>)
    ensures r.Keys == users.Keys
    ensures forall u :: u in r && u in done ==> r[u] == users[u].(roles := Migrated(users[u].roles))
    ensures forall u :: u in r && u !in done ==> r[u] == users[u]
  {
    map u | u in users :: if u in done then users[u].(roles := Migrated(users[u].roles)) else users[u]
  }

  /** One more user migrated and joined. */
  lemma MigrateStep(users: map<nat, User>, done: set<nat>, u: nat, g: nat)
    requires u in users && u !in done
    ensures MigratedUsers(users, done + {u})
            == MigratedUsers(users, done)[u := MigratedUsers(users, done)[u].(roles := Migrated(MigratedUsers(users, done)[u].roles))]
    ensures Joined(done + {u}, g) == Joined(done, g) + {(u, g)}
  {
  }



}
