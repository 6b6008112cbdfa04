/** The directory controller: listing by parent, the two-level tree, and
    creation, rename and deletion of directory rows. The materialised path
    is computed once, at creation. No action checks directory access. */
module Directories {
  import opened Common
  import opened Entities
  import opened Schema
  import opened DirectoryModel
  import opened Store

  /** The path of a child: the parent's path, a slash, the child's name. */
  function ChildPath(parentPath: string, name: string): (r: string)
    ensures |r| == |parentPath| + 1 + |name|
    ensures r[..|parentPath|] == parentPath && r[|parentPath|] == '/' && r[|parentPath| + 1..] == name
  {
    parentPath + "/" + name
  }

  /** Two child paths under the same parent agree exactly when the names do. */
  lemma ChildPathInjective(parentPath: string, a: string, b: string)
    ensures ChildPath(parentPath, a) == ChildPath(parentPath, b) <==> a == b
  {
    if ChildPath(parentPath, a) == ChildPath(parentPath, b) {
      assert a == ChildPath(parentPath, a)[|parentPath| + 1..];
    }
  }

  /** The path a directory would get if it were created now. */
  predicate PathOk(dirs: map<nat, Directory>, d: nat)
    requires d in dirs
  {
    match dirs[d].parentId
    case None => dirs[d].path == dirs[d].name
    case Some(p) => p in dirs && dirs[d].path == ChildPath(dirs[p].path, dirs[d].name)
  }

  /** Every stored path is the one creation computes from the current names. */
  predicate PathsConsistent(dirs: map<nat, Directory>) {
    forall d :: d in dirs ==> PathOk(dirs, d)
  }

  /** The path store computes: the name for a root, the child path under an
      existing parent. */
  function NewPath(dirs: map<nat, Directory>, name: string, parentId: Option<nat>): string
    requires parentId.Some? ==> parentId.value in dirs
  {
    if parentId.Some? then ChildPath(dirs[parentId.value].path, name) else name
  }

  /** The files outside the removed directories. */
  function FilesOutside(files: map<nat, StoredFile>, gone: set<nat>): (r: map<nat, StoredFile>)
    ensures forall f :: f in r <==> f in files && files[f].directoryId !in gone
    ensures forall f :: f in r ==> r[f] == files[f]
  {
    map f | f in files && files[f].directoryId !in gone :: files[f]
  }

  /** Removing a subtree with its files, grants and permissions keeps every
      constraint that mentions directories. */
  lemma SubtreeRemovalKeepsRows(dirs: map<nat, Directory>, files: map<nat, StoredFile>, grants: set<(nat, nat)>,
                                perms: map<nat, ProposalPermission>, users: set<nat>, proposals: set<nat>,
                                next: nat, d: nat)
    requires TreeShaped(dirs) && FilesPlaced(files, dirs) && KeysBelow(dirs.Keys, next)
    requires GrantRowsValid(grants, users, dirs.Keys) && PermissionRowsValid(perms, proposals, users, dirs.Keys)
    ensures var gone := Subtree(dirs, d);
            && TreeShaped(Without(dirs, gone))
            && KeysBelow(Without(dirs, gone).Keys, next)
            && FilesPlaced(FilesOutside(files, gone), Without(dirs, gone))
            && GrantRowsValid(DropRight(grants, gone), users, Without(dirs, gone).Keys)
            && PermissionRowsValid(DropPermissions(perms, {}, {}, gone), proposals, users, Without(dirs, gone).Keys)
  {
    RemoveSubtreeKeepsShape(dirs, d);
  }

  /** index: the rows whose parent_id equals the query; an absent query
      selects the roots (a null comparison becomes `whereNull`). */
  function Index(dirs: map<nat, Directory>, parentId: Option<nat>): (r: set<nat>)
    ensures forall d :: d in r <==> d in dirs && dirs[d].parentId == parentId
    ensures parentId.None? ==> r == Roots(dirs)
    ensures parentId.Some? ==> r == Children(dirs, parentId.value)
  {
    set d | d in dirs && dirs[d].parentId == parentId
  }

  /** tree: every root, each with its children and their children; nothing
      below the second level, and no access filter. */
  function Tree(dirs: map<nat, Directory>): (r: map<nat, map<nat, set<nat>>>)
    ensures r.Keys == Roots(dirs)
    ensures forall root :: root in r ==> r[root].Keys == Children(dirs, root)
    ensures forall root, c :: root in r && c in r[root] ==> r[root][c] == Children(dirs, c)
  {
    map root | root in Roots(dirs) :: map c | c in Children(dirs, root) :: Children(dirs, c)
  }

  /** store: the name is required and a given parent must exist (422); the
      row records the parent, the actor as creator, the computed path and
      the column default for is_public. */
  method StoreDirectory(db: Db, actor: nat, name: string, parentId: Option<nat>) returns (code: nat, id: Option<nat>)
    requires db.Valid() && actor in db.users
    modifies db`directories, db`nextDirectory
    ensures db.Valid()
    ensures code == 201 || code == 422
    ensures code == 422 <==> !RequiredString(name) || (parentId.Some? && parentId.value !in old(db.directories))
    ensures code == 422 ==> id == None && unchanged(db)
    ensures code == 201 ==>
              && id == Some(old(db.nextDirectory)) && id.value !in old(db.directories)
              && db.nextDirectory == old(db.nextDirectory) + 1
              && db.directories == old(db.directories)[id.value := Directory(name, parentId, actor,
                                                                               NewPath(old(db.directories), name, parentId), false)]
              && (parentId.None? ==> db.directories[id.value].path == name)
              && (parentId.Some? ==> db.directories[id.value].path == ChildPath(old(db.directories)[parentId.value].path, name))
              && PathOk(db.directories, id.value)
    ensures code == 201 && PathsConsistent(old(db.directories)) ==> PathsConsistent(db.directories)
  {
    if !RequiredString(name) || (parentId.Some? && parentId.value !in db.directories) {
      return 422, None;
    }
    var row := Directory(name, parentId, actor, NewPath(db.directories, name, parentId), IsPublicDefault);
    var d := InsertDirectory(db, row);
    InsertKeepsPaths(old(db.directories), d, row);
    return 201, Some(d);
  }

  /** A new row whose path is computed by store has a consistent path, and
      the rows already there keep theirs. */
  lemma InsertKeepsPaths(before: map<nat, Directory>, d: nat, row: Directory)
    requires d !in before && (row.parentId.Some? ==> row.parentId.value in before)
    requires row.path == NewPath(before, row.name, row.parentId)
    ensures PathOk(before[d := row], d)
    ensures PathsConsistent(before) ==> PathsConsistent(before[d := row])
  {
    var after := before[d := row];
    if PathsConsistent(before) {
      forall x | x in after
        ensures PathOk(after, x)
      {
        if x != d {
          assert PathOk(before, x);
        }
      }
    }
  }

  /** update: only the name changes; the stored path (and every
      descendant's) keeps the old name, so the row's path is out of date
      whenever the name actually changed. */
  method UpdateDirectory(db: Db, d: nat, name: string) returns (code: nat)
    requires db.Valid()
    modifies db`directories
    ensures db.Valid()
    ensures code == 200 || code == 404 || code == 422
    ensures code == 404 <==> d !in old(db.directories)
    ensures code == 422 <==> d in old(db.directories) && !RequiredString(name)
    ensures code != 200 ==> unchanged(db)
    ensures code == 200 ==> db.directories == old(db.directories)[d := old(db.directories)[d].(name := name)]
    ensures code == 200 && PathOk(old(db.directories), d) ==>
              (PathOk(db.directories, d) <==> name == old(db.directories)[d].name)
  {
    if d !in db.directories {
      return 404;
    }
    if !RequiredString(name) {
      return 422;
    }
    ghost var before := db.directories;
    SetDirectory(db, d, db.directories[d].(name := name));
    if before[d].parentId.Some? {
      var p := before[d].parentId.value;
      assert p != d;
      ChildPathInjective(before[p].path, before[d].name, name);
    }
    code := 200;
  }

  /** destroy: no access or emptiness check. The directories and files
      migrations are not part of this model; their parent and directory keys
      are assumed to cascade, so the whole subtree goes with its files, and
      the grant and proposal-permission rows go by the shown cascades. The
      blobs of the removed files stay on the disk. */
  method DestroyDirectory(db: Db, d: nat) returns (code: nat)
    requires db.Valid()
    modifies db`directories, db`files, db`grants, db`permissions
    ensures db.Valid()
    ensures code == 200 || code == 404
    ensures code == 404 <==> d !in old(db.directories)
    ensures code == 404 ==> unchanged(db)
    ensures code == 200 ==>
              var gone := Subtree(old(db.directories), d);
              && d in gone
              && db.directories == Without(old(db.directories), gone)
              && db.files == FilesOutside(old(db.files), gone)
              && db.grants == DropRight(old(db.grants), gone)
              && db.permissions == DropPermissions(old(db.permissions), {}, {}, gone)
    ensures db.blobs == old(db.blobs) && db.storageLog == old(db.storageLog)
  {
    if d !in db.directories {
      return 404;
    }
    var gone := Subtree(db.directories, d);
    SubtreeRemovalKeepsRows(db.directories, db.files, db.grants, db.permissions, db.users.Keys, db.proposals.Keys,
                            db.nextDirectory, d);
    ReplaceDirectories(db, Without(db.directories, gone), FilesOutside(db.files, gone), DropRight(db.grants, gone),
                       DropPermissions(db.permissions, {}, {}, gone));
    code := 200;
  }

  /** Renaming a directory leaves its path untouched: after renaming the
      root `a` (path "a") to "b", its path still reads "a". */
  method RenameLeavesPath(db: Db, actor: nat) returns (d: nat)
    requires db.Valid() && actor in db.users
    modifies db`directories, db`nextDirectory
    ensures d in db.directories && db.directories[d].name == "b" && db.directories[d].path == "a"
    ensures !PathOk(db.directories, d)
  {
    var code, id := StoreDirectory(db, actor, "a", None);
    d := id.value;
    code := UpdateDirectory(db, d, "b");
  }
}
