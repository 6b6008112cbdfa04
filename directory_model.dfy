/** The relations of the Directory model: parent, children, files and
    granted users, all defined by the id columns they follow. */
module DirectoryModel {
  import opened Common
  import opened Entities

  /** Directory::parent: the row whose id is parent_id (null when there is none). */
  function ParentOf(dirs: map<nat, Directory>, d: nat): Option<nat>
    requires d in dirs
  {
    match dirs[d].parentId
    case None => None
    case Some(p) => if p in dirs then Some(p) else None
  }

  /** Directory::children: the rows whose parent_id is `p`. */
  function Children(dirs: map<nat, Directory>, p: nat): set<nat> {
    set d | d in dirs && dirs[d].parentId == Some(p)
  }

  /** The root rows (null parent_id). */
  function Roots(dirs: map<nat, Directory>): set<nat> {
    set d | d in dirs && dirs[d].parentId.None?
  }

  /** Directory::files: the files whose directory_id is `d`. */
  function FilesIn(files: map<nat, StoredFile>, d: nat): set<nat> {
    set f | f in files && files[f].directoryId == d
  }

  /** Directory::users over the user-directory grant rows. */
  function UsersOf(grants: set<(nat, nat)>, d: nat): set<nat> {
    set p | p in grants && p.1 == d :: p.0
  }

  /** User::directories over the same rows. */
  function DirectoriesOf(grants: set<(nat, nat)>, u: nat): set<nat> {
    set p | p in grants && p.0 == u :: p.1
  }

  /** Every parent reference resolves to an older row. Rows get increasing
      ids and a parent must exist when its child is created, so this holds of
      every store the shown operations build; it makes the tree acyclic. */
  predicate TreeShaped(dirs: map<nat, Directory>) {
    forall d :: d in dirs && dirs[d].parentId.Some? ==>
      dirs[d].parentId.value in dirs && dirs[d].parentId.value < d
  }

  /** `d` is `root` or lies below it. */
  predicate IsUnder(dirs: map<nat, Directory>, d: nat, root: nat)
    decreases d
  {
    d == root ||
    (d in dirs && dirs[d].parentId.Some? && dirs[d].parentId.value < d &&
     IsUnder(dirs, dirs[d].parentId.value, root))
  }

  /** The rows of the subtree rooted at `root`, the root included. */
  function Subtree(dirs: map<nat, Directory>, root: nat): set<nat> {
    set d | d in dirs && IsUnder(dirs, d, root)
  }

  /** Parent and children are inverse relations on a tree-shaped table. */
  lemma ParentChildInverse(dirs: map<nat, Directory>, d: nat, p: nat)
    requires TreeShaped(dirs)
    ensures d in Children(dirs, p) <==> d in dirs && ParentOf(dirs, d) == Some(p)
  {
  }

  /** Every row is a root or has a resolvable parent, never both. */
  lemma RootOrChild(dirs: map<nat, Directory>, d: nat)
    requires TreeShaped(dirs) && d in dirs
    ensures d in Roots(dirs) <==> ParentOf(dirs, d).None?
    ensures d !in Roots(dirs) ==> d in Children(dirs, ParentOf(dirs, d).value)
  {
  }

  /** Directory::users and User::directories read the same rows. */
  lemma UsersDirectoriesInverse(grants: set<(nat, nat)>, u: nat, d: nat)
    ensures u in UsersOf(grants, d) <==> d in DirectoriesOf(grants, u)
    ensures u in UsersOf(grants, d) <==> (u, d) in grants
  {
    if (u, d) in grants {
      assert (u, d).0 in UsersOf(grants, d);
      assert (u, d).1 in DirectoriesOf(grants, u);
    }
  }

  /** A subtree holds its root and is closed under children. */
  lemma SubtreeClosed(dirs: map<nat, Directory>, root: nat, d: nat, c: nat)
    requires TreeShaped(dirs)
    requires d in Subtree(dirs, root) && c in Children(dirs, d)
    ensures c in Subtree(dirs, root)
  {
  }

  /** The rows outside `gone`. */
  function Without(dirs: map<nat, Directory>, gone: set<nat>): (r: map<nat, Directory>)
    ensures r.Keys == dirs.Keys - gone
    ensures forall d :: d in r ==> r[d] == dirs[d]
  {
    map d | d in dirs && d !in gone :: dirs[d]
  }

  /** Removing a whole subtree leaves a tree-shaped table: no remaining row
      points at a removed parent. */
  lemma {:induction false} RemoveSubtreeKeepsShape(dirs: map<nat, Directory>, root: nat)
    requires TreeShaped(dirs)
    ensures TreeShaped(Without(dirs, Subtree(dirs, root)))
  {
    var rest := Without(dirs, Subtree(dirs, root));
    forall d | d in rest && rest[d].parentId.Some?
      ensures rest[d].parentId.value in rest && rest[d].parentId.value < d
    {
      var p := dirs[d].parentId.value;
      if p in Subtree(dirs, root) {
        assert IsUnder(dirs, d, root);
        assert false;
      }
    }
  }
}
