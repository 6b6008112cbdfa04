/** The role-to-capability tables the two permission seeders install, as
    constants, and the capability check of the role package. */
module Catalog {
  import opened Common
  import opened Entities

  /** The sixteen capabilities of the four-role scheme, in seeding order. */
  const RbacPermissions: seq<string> := [
    "manage-all-users", "manage-users", "view-users",
    "create-directory", "update-directory", "delete-directory", "view-directory",
    "upload-file", "download-file", "update-file", "delete-file", "view-file",
    "manage-groups", "view-groups",
    "manage-proposals", "view-proposals"]

  /** The four roles of the scheme, in seeding order. */
  const RbacRoles: seq<string> := [SuperAdmin, Admin, SeniorMember, Member]

  const AdminCapabilities: set<string> := {
    "manage-users", "view-users",
    "create-directory", "update-directory", "delete-directory", "view-directory",
    "upload-file", "download-file", "update-file", "delete-file", "view-file",
    "manage-groups", "view-groups", "manage-proposals", "view-proposals"}

  const SeniorMemberCapabilities: set<string> :=
    {"view-directory", "download-file", "view-file", "view-groups", "view-proposals"}

  const MemberCapabilities: set<string> :=
    {"view-directory", "view-file", "view-groups", "view-proposals"}

  /** What each of the four roles receives from the seeder on a catalog that
      holds only the sixteen capabilities (super_admin receives every
      capability in the table, which is then exactly these sixteen). */
  function RbacCapabilities(role: string): set<string> {
    if role == SuperAdmin then Elems(RbacPermissions)
    else if role == Admin then AdminCapabilities
    else if role == SeniorMember then SeniorMemberCapabilities
    else if role == Member then MemberCapabilities
    else {}
  }

  /** The six capabilities of the legacy two-role scheme. */
  const LegacyPermissions: seq<string> := [
    "manage-users", "manage-directories", "manage-files", "manage-proposals",
    "upload-files", "download-files"]

  const LegacyUserCapabilities: set<string> := {"upload-files", "download-files"}

  /** The role package's check `$user->can(p)`: some role of the user holds `p`. */
  predicate Can(roles: set<string>, roleGrants: map<string, set<string>>, p: string) {
    exists r :: r in roles && r in roleGrants && p in roleGrants[r]
  }

  /** No name is listed twice. */
  predicate Distinct(s: seq<string>) {
    forall i, j :: 0 <= i < j < |s| ==> s[i] != s[j]
  }

  /** `givePermissionTo`: the role keeps what it held and gains `caps`. */
  function Give(grants: map<string, set<string>>, role: string, caps: set<string>): (r: map<string, set<string>>)
    ensures r.Keys == grants.Keys + {role}
    ensures r[role] == (if role in grants then grants[role] else {}) + caps
    ensures forall q :: q in grants && q != role ==> r[q] == grants[q]
  {
    grants[role := (if role in grants then grants[role] else {}) + caps]
  }

  /** Appending a name not yet listed keeps the list free of repeats. */
  lemma DistinctAppend(s: seq<string>, p: string)
    requires Distinct(s) && p !in s
    ensures Distinct(s + [p])
  {
  }

  lemma RbacTableShape()
    ensures |RbacPermissions| == 16 && Distinct(RbacPermissions)
    ensures |RbacRoles| == 4 && Distinct(RbacRoles)
    ensures (set r | r in RbacRoles) == AssignableRoles
  {
  }

  /** super_admin holds every capability; admin every one but manage-all-users. */
  lemma AdminRows()
    ensures forall p :: p in RbacPermissions ==> p in RbacCapabilities(SuperAdmin)
    ensures RbacCapabilities(Admin) == RbacCapabilities(SuperAdmin) - {"manage-all-users"}
  {
  }

  /** The rows nest strictly, member below senior_member below admin below
      super_admin, and a senior member differs from a member only by
      download-file. */
  lemma RowsNest()
    ensures RbacCapabilities(Member) < RbacCapabilities(SeniorMember)
    ensures RbacCapabilities(SeniorMember) < RbacCapabilities(Admin)
    ensures RbacCapabilities(Admin) < RbacCapabilities(SuperAdmin)
    ensures RbacCapabilities(SeniorMember) - RbacCapabilities(Member) == {"download-file"}
  {
    assert "download-file" !in RbacCapabilities(Member);
    assert "upload-file" !in RbacCapabilities(SeniorMember);
    assert "manage-all-users" !in RbacCapabilities(Admin);
    assert "manage-all-users" in RbacCapabilities(SuperAdmin);
  }

  /** Below admin, no role may create, update, delete, upload or manage. */
  predicate Writes(p: string) {
    p in {"manage-all-users", "manage-users", "create-directory", "update-directory",
          "delete-directory", "upload-file", "update-file", "delete-file",
          "manage-groups", "manage-proposals"}
  }

  lemma MembersOnlyRead(role: string, p: string)
    requires role != SuperAdmin && role != Admin
    requires p in RbacCapabilities(role)
    ensures !Writes(p)
  {
  }

  /** The legacy scheme: six capabilities; its `user` role holds two of them. */
  lemma LegacyTableShape()
    ensures |LegacyPermissions| == 6 && Distinct(LegacyPermissions)
    ensures LegacyUserCapabilities < Elems(LegacyPermissions)
  {
    assert "manage-users" !in LegacyUserCapabilities;
  }

  /** Holding a capability through one role is enough, and holding no role
      is never enough. */
  lemma CanCases(roles: set<string>, roleGrants: map<string, set<string>>, p: string, r: string)
    ensures r in roles && r in roleGrants && p in roleGrants[r] ==> Can(roles, roleGrants, p)
    ensures roles == {} ==> !Can(roles, roleGrants, p)
  {
  }
}
