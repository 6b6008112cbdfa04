/** The entity store the controllers, seeders and commands work on: one
    field per table, auto-increment counters, the blob store of the public
    disk, and the log of storage calls in the order they were made. */
module Store {
  import opened Common
  import opened Entities
  import opened Schema
  import opened DirectoryModel
  import opened Catalog

  /** A call to the blob store or to the files table, in call order. */
  datatype StorageCall = PutBlob(path: string) | DeleteBlob(path: string)
                       | InsertFileRow(id: nat) | DeleteFileRow(id: nat)

  /** users.email is unique. */
  predicate EmailsUnique(users: map<nat, User>) {
    forall a, b :: a in users && b in users && a != b ==> users[a].email != users[b].email
  }

  /** groups.name is unique. */
  predicate GroupNamesUnique(groups: map<nat, Group>) {
    forall a, b :: a in groups && b in groups && a != b ==> groups[a].name != groups[b].name
  }

  /** Every role a user holds is a row of the roles table. */
  predicate RolesKnown(users: map<nat, User>, roleNames: set<string>) {
    forall u :: u in users ==> users[u].roles <= roleNames
  }

  /** Every file row sits in an existing directory (the files migration is
      not part of this model; its foreign key is assumed). */
  predicate FilesPlaced(files: map<nat, StoredFile>, dirs: map<nat, Directory>) {
    forall f :: f in files ==> files[f].directoryId in dirs
  }

  /** Every id lies below the table's next auto-increment value. */
  predicate KeysBelow(keys: set<nat>, next: nat) {
    1 <= next && forall k :: k in keys ==> 1 <= k < next
  }

  class Db {
    var users: map<nat, User>
    var groups: map<nat, Group>
    /** user_groups rows (user_id, group_id). */
    var memberships: set<(nat, nat)>
    var directories: map<nat, Directory>
    /** user_directory_permissions rows (user_id, directory_id). */
    var grants: set<(nat, nat)>
    var files: map<nat, StoredFile>
    var proposals: map<nat, Proposal>
    var permissions: map<nat, ProposalPermission>
    /** The role package's tables: role names, capability names and the role-capability rows. */
    var roleNames: set<string>
    var permissionNames: seq<string>
    var roleGrants: map<string, set<string>>
    /** Keys present on the public disk. */
    var blobs: set<string>
    var storageLog: seq<StorageCall>
    var nextUser: nat
    var nextGroup: nat
    var nextDirectory: nat
    var nextFile: nat
    var nextProposal: nat
    var nextPermission: nat

    /** The schema's constraints. */
    predicate Valid()
      reads this
    {
      && KeysBelow(users.Keys, nextUser)
      && KeysBelow(groups.Keys, nextGroup)
      && KeysBelow(directories.Keys, nextDirectory)
      && KeysBelow(files.Keys, nextFile)
      && KeysBelow(proposals.Keys, nextProposal)
      && KeysBelow(permissions.Keys, nextPermission)
      && MembershipRowsValid(memberships, users.Keys, groups.Keys)
      && GrantRowsValid(grants, users.Keys, directories.Keys)
      && PermissionRowsValid(permissions, proposals.Keys, users.Keys, directories.Keys)
      && TreeShaped(directories)
      && FilesPlaced(files, directories)
      && EmailsUnique(users)
      && GroupNamesUnique(groups)
      && RolesKnown(users, roleNames)
      && roleGrants.Keys <= roleNames
      && Distinct(permissionNames)
    }

    /** A freshly migrated, empty database. */
    constructor ()
      ensures Valid()
      ensures users == map[] && groups == map[] && memberships == {} && directories == map[]
      ensures grants == {} && files == map[] && proposals == map[] && permissions == map[]
      ensures roleNames == {} && permissionNames == [] && roleGrants == map[]
      ensures blobs == {} && storageLog == []
      ensures nextUser == nextGroup == nextDirectory == nextFile == nextProposal == nextPermission == 1
    {
      users, groups, memberships, directories := map[], map[], {}, map[];
      grants, files, proposals, permissions := {}, map[], map[], map[];
      roleNames, permissionNames, roleGrants := {}, [], map[];
      blobs, storageLog := {}, [];
      nextUser, nextGroup, nextDirectory, nextFile, nextProposal, nextPermission := 1, 1, 1, 1, 1, 1;
    }
  }

  /** `Group::where('name', name)->first()`. */
  function FindGroupByName(groups: map<nat, Group>, name: string): (r: Option<nat>)
    requires GroupNamesUnique(groups)
    ensures r.Some? <==> exists g :: g in groups && groups[g].name == name
    ensures r.Some? ==> r.value in groups && groups[r.value].name == name
  {
    if exists g :: g in groups && groups[g].name == name then
      var g :| g in groups && groups[g].name == name; Some(g)
    else None
  }

  /** `User::where('email', email)->first()`. */
  function FindUserByEmail(users: map<nat, User>, email: string): (r: Option<nat>)
    requires EmailsUnique(users)
    ensures r.Some? <==> exists u :: u in users && users[u].email == email
    ensures r.Some? ==> r.value in users && users[r.value].email == email
  {
    if exists u :: u in users && users[u].email == email then
      var u :| u in users && users[u].email == email; Some(u)
    else None
  }

  /** The email is free, or held only by `self` (`unique:users,email,self`). */
  predicate EmailFree(users: map<nat, User>, email: string, self: Option<nat>) {
    forall u :: u in users && users[u].email == email ==> Some(u) == self
  }

  /** `sync`: the relation rows of `owner` become exactly `targets`. */
  function SyncLeft(rows: set<(nat, nat)>, owner: nat, targets: set<nat>): (r: set<(nat, nat)>)
    ensures forall p :: p in r <==> (p in rows && p.0 != owner) || (p.0 == owner && p.1 in targets)
  {
    (set p | p in rows && p.0 != owner) + (set t | t in targets :: (owner, t))
  }

  /** The rows (owner, t) for every t. */
  function Pairs(owner: nat, targets: set<nat>): (r: set<(nat, nat)>)
    ensures forall p :: p in r <==> p.0 == owner && p.1 in targets
  {
    set t | t in targets :: (owner, t)
  }

  /** `User::create`: the row is stored under the next id. */
  method InsertUser(db: Db, row: User) returns (u: nat)
    requires db.Valid() && EmailFree(db.users, row.email, None) && row.roles <= db.roleNames
    modifies db`users, db`nextUser
    ensures db.Valid()
    ensures u == old(db.nextUser) && u !in old(db.users) && db.nextUser == u + 1
    ensures db.users == old(db.users)[u := row]
  {
    u := db.nextUser;
    db.users := db.users[u := row];
    db.nextUser := db.nextUser + 1;
  }

  /** `File::create`: the row is stored under the next id. */
  method InsertFile(db: Db, row: StoredFile) returns (f: nat)
    requires db.Valid() && row.directoryId in db.directories
    modifies db`files, db`nextFile
    ensures db.Valid()
    ensures f == old(db.nextFile) && f !in old(db.files) && db.nextFile == f + 1
    ensures db.files == old(db.files)[f := row]
  {
    f := db.nextFile;
    db.files := db.files[f := row];
    db.nextFile := db.nextFile + 1;
  }

  /** `Proposal::create`: the row is stored under the next id. */
  method InsertProposal(db: Db, row: Proposal) returns (p: nat)
    requires db.Valid()
    modifies db`proposals, db`nextProposal
    ensures db.Valid()
    ensures p == old(db.nextProposal) && p !in old(db.proposals) && db.nextProposal == p + 1
    ensures db.proposals == old(db.proposals)[p := row]
  {
    p := db.nextProposal;
    db.proposals := db.proposals[p := row];
    db.nextProposal := db.nextProposal + 1;
  }

  /** `ProposalPermission::create`: the row is stored under the next id. */
  method InsertPermission(db: Db, row: ProposalPermission) returns (k: nat)
    requires db.Valid()
    requires row.proposalId in db.proposals && row.userId in db.users && row.directoryId in db.directories
    modifies db`permissions, db`nextPermission
    ensures db.Valid()
    ensures k == old(db.nextPermission) && k !in old(db.permissions) && db.nextPermission == k + 1
    ensures db.permissions == old(db.permissions)[k := row]
  {
    k := db.nextPermission;
    db.permissions := db.permissions[k := row];
    db.nextPermission := db.nextPermission + 1;
  }

  /** `attach` on user_groups for a user and existing groups. */
  method AddMemberships(db: Db, user: nat, groupIds: set<nat>)
    requires db.Valid() && user in db.users && groupIds <= db.groups.Keys
    modifies db`memberships
    ensures db.Valid()
    ensures db.memberships == old(db.memberships) + Pairs(user, groupIds)
  {
    db.memberships := db.memberships + Pairs(user, groupIds);
  }

  /** `attach` on user_directory_permissions for a user and existing directories. */
  method AddGrants(db: Db, user: nat, dirIds: set<nat>)
    requires db.Valid() && user in db.users && dirIds <= db.directories.Keys
    modifies db`grants
    ensures db.Valid()
    ensures db.grants == old(db.grants) + Pairs(user, dirIds)
  {
    db.grants := db.grants + Pairs(user, dirIds);
  }

  /** `Permission::create`/`firstOrCreate` of a capability not yet present. */
  method AddPermissionName(db: Db, p: string)
    requires db.Valid() && p !in db.permissionNames
    modifies db`permissionNames
    ensures db.Valid()
    ensures db.permissionNames == old(db.permissionNames) + [p]
  {
    DistinctAppend(db.permissionNames, p);
    db.permissionNames := db.permissionNames + [p];
  }

  /** Role rows created by name. */
  method AddRoles(db: Db, names: set<string>)
    requires db.Valid()
    modifies db`roleNames
    ensures db.Valid()
    ensures db.roleNames == old(db.roleNames) + names
  {
    db.roleNames := db.roleNames + names;
  }

  /** `givePermissionTo` on an existing role. */
  method GiveRole(db: Db, role: string, caps: set<string>)
    requires db.Valid() && role in db.roleNames
    modifies db`roleGrants
    ensures db.Valid()
    ensures db.roleGrants == Give(old(db.roleGrants), role, caps)
  {
    db.roleGrants := Give(db.roleGrants, role, caps);
  }

  /** `Group::create` of a group whose name is not taken. */
  method InsertGroup(db: Db, row: Group) returns (g: nat)
    requires db.Valid() && forall h :: h in db.groups ==> db.groups[h].name != row.name
    modifies db`groups, db`nextGroup
    ensures db.Valid()
    ensures g == old(db.nextGroup) && g !in old(db.groups) && db.nextGroup == g + 1
    ensures db.groups == old(db.groups)[g := row]
  {
    g := db.nextGroup;
    db.groups := db.groups[g := row];
    db.nextGroup := db.nextGroup + 1;
  }

  /** `syncRoles`/`assignRole` of existing roles: the user's role set
      becomes `roles`. */
  method SetRoles(db: Db, u: nat, roles: set<string>)
    requires db.Valid() && u in db.users && roles <= db.roleNames
    modifies db`users
    ensures db.Valid()
    ensures db.users == old(db.users)[u := old(db.users)[u].(roles := roles)]
  {
    db.users := db.users[u := db.users[u].(roles := roles)];
  }

  /** Rewrites the users and their group memberships in one step, keeping
      the ids. */
  method ReplaceUsers(db: Db, users: map<nat, User>, memberships: set<(nat, nat)>)
    requires db.Valid() && users.Keys == db.users.Keys
    requires EmailsUnique(users) && RolesKnown(users, db.roleNames)
    requires MembershipRowsValid(memberships, users.Keys, db.groups.Keys)
    modifies db`users, db`memberships
    ensures db.Valid()
    ensures db.users == users && db.memberships == memberships
  {
    db.users, db.memberships := users, memberships;
  }

  /** Rewrites the user rows in one step, keeping the ids. */
  method SetUsers(db: Db, users: map<nat, User>)
    requires db.Valid() && users.Keys == db.users.Keys
    requires EmailsUnique(users) && RolesKnown(users, db.roleNames)
    modifies db`users
    ensures db.Valid()
    ensures db.users == users
  {
    db.users := users;
  }

  /** `Storage::disk('public')->put`: the key is written and the call logged. */
  method PutBlobAt(db: Db, path: string)
    requires db.Valid()
    modifies db`blobs, db`storageLog
    ensures db.Valid()
    ensures db.blobs == old(db.blobs) + {path} && db.storageLog == old(db.storageLog) + [PutBlob(path)]
  {
    db.blobs := db.blobs + {path};
    db.storageLog := db.storageLog + [PutBlob(path)];
  }

  /** `Storage::disk('public')->delete`: the key is removed and the call logged. */
  method DeleteBlobAt(db: Db, path: string)
    requires db.Valid()
    modifies db`blobs, db`storageLog
    ensures db.Valid()
    ensures db.blobs == old(db.blobs) - {path} && db.storageLog == old(db.storageLog) + [DeleteBlob(path)]
  {
    db.blobs := db.blobs - {path};
    db.storageLog := db.storageLog + [DeleteBlob(path)];
  }

  /** Records a call on the files table in the storage log. */
  method LogCall(db: Db, c: StorageCall)
    requires db.Valid()
    modifies db`storageLog
    ensures db.Valid()
    ensures db.storageLog == old(db.storageLog) + [c]
  {
    db.storageLog := db.storageLog + [c];
  }

  /** A file row is deleted. */
  method RemoveFileRow(db: Db, f: nat)
    requires db.Valid()
    modifies db`files
    ensures db.Valid()
    ensures db.files == old(db.files) - {f}
  {
    db.files := db.files - {f};
  }

  /** A file row is rewritten in place, in the same directory. */
  method SetFileRow(db: Db, f: nat, row: StoredFile)
    requires db.Valid() && f in db.files && row.directoryId in db.directories
    modifies db`files
    ensures db.Valid()
    ensures db.files == old(db.files)[f := row]
  {
    db.files := db.files[f := row];
  }

  /** A user row is rewritten in place; its email stays unique and its roles
      exist. */
  method SetUser(db: Db, u: nat, row: User)
    requires db.Valid() && u in db.users
    requires EmailFree(db.users, row.email, Some(u)) && row.roles <= db.roleNames
    modifies db`users
    ensures db.Valid()
    ensures db.users == old(db.users)[u := row]
  {
    db.users := db.users[u := row];
  }

  /** `sync` on user_groups: the user's memberships become `groupIds`. */
  method SyncMemberships(db: Db, u: nat, groupIds: set<nat>)
    requires db.Valid() && u in db.users && groupIds <= db.groups.Keys
    modifies db`memberships
    ensures db.Valid()
    ensures db.memberships == SyncLeft(old(db.memberships), u, groupIds)
  {
    db.memberships := SyncLeft(db.memberships, u, groupIds);
  }

  /** `sync` on user_directory_permissions: the user's grants become `dirIds`. */
  method SyncGrants(db: Db, u: nat, dirIds: set<nat>)
    requires db.Valid() && u in db.users && dirIds <= db.directories.Keys
    modifies db`grants
    ensures db.Valid()
    ensures db.grants == SyncLeft(old(db.grants), u, dirIds)
  {
    db.grants := SyncLeft(db.grants, u, dirIds);
  }

  /** A user row is deleted together with the rows that cascade from it. */
  method DeleteUser(db: Db, u: nat)
    requires db.Valid()
    modifies db`users, db`memberships, db`grants, db`permissions
    ensures db.Valid()
    ensures db.users == old(db.users) - {u}
    ensures db.memberships == DropLeft(old(db.memberships), {u})
    ensures db.grants == DropLeft(old(db.grants), {u})
    ensures db.permissions == DropPermissions(old(db.permissions), {}, {u}, {})
  {
    CascadeOnUserDelete(db.memberships, db.grants, db.users.Keys, db.groups.Keys, db.directories.Keys, {u});
    db.users := db.users - {u};
    db.memberships := DropLeft(db.memberships, {u});
    db.grants := DropLeft(db.grants, {u});
    db.permissions := DropPermissions(db.permissions, {}, {u}, {});
  }

  /** A directory row is inserted under an existing parent, or as a root. */
  method InsertDirectory(db: Db, row: Directory) returns (d: nat)
    requires db.Valid() && (row.parentId.Some? ==> row.parentId.value in db.directories)
    modifies db`directories, db`nextDirectory
    ensures db.Valid()
    ensures d == old(db.nextDirectory) && d !in old(db.directories) && db.nextDirectory == d + 1
    ensures db.directories == old(db.directories)[d := row]
  {
    d := db.nextDirectory;
    db.directories := db.directories[d := row];
    db.nextDirectory := db.nextDirectory + 1;
  }

  /** A directory row is rewritten in place under the same parent. */
  method SetDirectory(db: Db, d: nat, row: Directory)
    requires db.Valid() && d in db.directories && row.parentId == db.directories[d].parentId
    modifies db`directories
    ensures db.Valid()
    ensures db.directories == old(db.directories)[d := row]
  {
    db.directories := db.directories[d := row];
  }

  /** Rewrites the directories and the three tables that point at them in
      one step, as a cascading delete does. */
  method ReplaceDirectories(db: Db, dirs: map<nat, Directory>, files: map<nat, StoredFile>,
                            grants: set<(nat, nat)>, perms: map<nat, ProposalPermission>)
    requires db.Valid() && TreeShaped(dirs) && KeysBelow(dirs.Keys, db.nextDirectory)
    requires FilesPlaced(files, dirs) && KeysBelow(files.Keys, db.nextFile)
    requires GrantRowsValid(grants, db.users.Keys, dirs.Keys)
    requires PermissionRowsValid(perms, db.proposals.Keys, db.users.Keys, dirs.Keys) && KeysBelow(perms.Keys, db.nextPermission)
    modifies db`directories, db`files, db`grants, db`permissions
    ensures db.Valid()
    ensures db.directories == dirs && db.files == files && db.grants == grants && db.permissions == perms
  {
    db.directories, db.files, db.grants, db.permissions := dirs, files, grants, perms;
  }
}
