/** The constraints the shown migrations declare on the junction tables:
    foreign keys with ON DELETE CASCADE, unique pairs, nullable columns and
    column defaults. A junction table is a set of pairs, so a unique pair
    index holds by construction; the proposal-permission table has no such
    index and is a map from row id to row. */
module Schema {
  import opened Common
  import opened Entities

  /** Column default of directories.is_public. */
  const IsPublicDefault: bool := false
  /** Column default of proposal_permissions.can_upload. */
  const CanUploadDefault: bool := true

  /** user_groups rows (user_id, group_id): both foreign keys resolve. */
  predicate MembershipRowsValid(rows: set<(nat, nat)>, users: set<nat>, groups: set<nat>) {
    forall p :: p in rows ==> p.0 in users && p.1 in groups
  }

  /** user_directory_permissions rows (user_id, directory_id): both foreign keys resolve. */
  predicate GrantRowsValid(rows: set<(nat, nat)>, users: set<nat>, dirs: set<nat>) {
    forall p :: p in rows ==> p.0 in users && p.1 in dirs
  }

  /** proposal_permissions rows: all three foreign keys resolve. */
  predicate PermissionRowsValid(perms: map<nat, ProposalPermission>, proposals: set<nat>, users: set<nat>, dirs: set<nat>) {
    forall id :: id in perms ==>
      perms[id].proposalId in proposals && perms[id].userId in users && perms[id].directoryId in dirs
  }

  /** Cascade on the first column of a pair table. */
  function DropLeft(rows: set<(nat, nat)>, ids: set<nat>): set<(nat, nat)> {
    set p | p in rows && p.0 !in ids
  }

  /** Cascade on the second column of a pair table. */
  function DropRight(rows: set<(nat, nat)>, ids: set<nat>): set<(nat, nat)> {
    set p | p in rows && p.1 !in ids
  }

  /** Cascade of proposal_permissions on deleted proposals, users and directories. */
  function DropPermissions(perms: map<nat, ProposalPermission>, proposals: set<nat>, users: set<nat>, dirs: set<nat>)
    : map<nat, ProposalPermission>
  {
    map id | id in perms && perms[id].proposalId !in proposals && perms[id].userId !in users
                         && perms[id].directoryId !in dirs :: perms[id]
  }

  /** Deleting users removes exactly their membership and grant rows, and the
      tables stay consistent. */
  lemma CascadeOnUserDelete(members: set<(nat, nat)>, grants: set<(nat, nat)>, users: set<nat>,
                            groups: set<nat>, dirs: set<nat>, gone: set<nat>)
    requires MembershipRowsValid(members, users, groups) && GrantRowsValid(grants, users, dirs)
    ensures MembershipRowsValid(DropLeft(members, gone), users - gone, groups)
    ensures GrantRowsValid(DropLeft(grants, gone), users - gone, dirs)
    ensures forall p :: p in members && p.0 !in gone ==> p in DropLeft(members, gone)
    ensures forall p :: p in DropLeft(members, gone) ==> p in members && p.0 !in gone
  {
  }

  /** Deleting groups removes exactly their membership rows. */
  lemma CascadeOnGroupDelete(members: set<(nat, nat)>, users: set<nat>, groups: set<nat>, gone: set<nat>)
    requires MembershipRowsValid(members, users, groups)
    ensures MembershipRowsValid(DropRight(members, gone), users, groups - gone)
    ensures forall p :: p in DropRight(members, gone) <==> p in members && p.1 !in gone
  {
  }

  /** Deleting directories removes exactly their grant rows and the
      proposal permissions pointing at them. */
  lemma CascadeOnDirectoryDelete(grants: set<(nat, nat)>, perms: map<nat, ProposalPermission>,
                                 users: set<nat>, proposals: set<nat>, dirs: set<nat>, gone: set<nat>)
    requires GrantRowsValid(grants, users, dirs) && PermissionRowsValid(perms, proposals, users, dirs)
    ensures GrantRowsValid(DropRight(grants, gone), users, dirs - gone)
    ensures PermissionRowsValid(DropPermissions(perms, {}, {}, gone), proposals, users, dirs - gone)
    ensures forall id :: id in DropPermissions(perms, {}, {}, gone) <==> id in perms && perms[id].directoryId !in gone
  {
  }

  /** Deleting a proposal removes all of its permission rows and nothing else. */
  lemma CascadeOnProposalDelete(perms: map<nat, ProposalPermission>, proposals: set<nat>, users: set<nat>,
                                dirs: set<nat>, gone: nat)
    requires PermissionRowsValid(perms, proposals, users, dirs)
    ensures PermissionRowsValid(DropPermissions(perms, {gone}, {}, {}), proposals - {gone}, users, dirs)
    ensures forall id :: id in DropPermissions(perms, {gone}, {}, {}) <==> id in perms && perms[id].proposalId != gone
  {
  }

  /** The proposal-permission table has no unique index: a copy of any
      existing row stored under a fresh id keeps the table valid, so the
      same proposal, user and directory may appear any number of times. */
  lemma DuplicatePermissionRowsAllowed(perms: map<nat, ProposalPermission>, proposals: set<nat>, users: set<nat>,
                                       dirs: set<nat>, j: nat, k: nat)
    requires PermissionRowsValid(perms, proposals, users, dirs)
    requires j in perms && k !in perms
    ensures PermissionRowsValid(perms[k := perms[j]], proposals, users, dirs)
    ensures perms[k := perms[j]][k] == perms[k := perms[j]][j] && j != k
  {
  }
}
