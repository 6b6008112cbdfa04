/** The rows of the back end's tables, as values. Ids are the tables'
    auto-increment keys and start at 1. */
module Entities {
  import opened Common
  import opened Text

  /** Role names as stored by the role package. */
  const SuperAdmin: string := "super_admin"
  const Admin: string := "admin"
  const SeniorMember: string := "senior_member"
  const Member: string := "member"
  /** The role of the older two-role catalog, still assigned at registration. */
  const LegacyUser: string := "user"

  /** The five role names have different lengths, so they are pairwise
      different. */
  lemma RoleNamesDiffer()
    ensures |SuperAdmin| == 11 && |Admin| == 5 && |SeniorMember| == 13 && |Member| == 6 && |LegacyUser| == 4
  {
  }

  /** The roles an administrator may pick when creating or editing a user. */
  const AssignableRoles: set<string> := {SuperAdmin, Admin, SeniorMember, Member}

  /** The reserved work-group. */
  const DefaultGroupName: string := "default_group"

  datatype Status = Pending | Active | Inactive

  /** A stored password hash. Hashing is treated as an injective tag on the
      plain text; the salt is not modelled. */
  datatype PasswordHash = HashOf(plain: string)

  /** Hash::check: does the plain text match the stored hash? */
  predicate HashMatches(plain: string, h: PasswordHash) {
    h == HashOf(plain)
  }

  datatype User = User(name: string, email: string, password: PasswordHash, status: Status, roles: set<string>)

  datatype Group = Group(name: string, displayName: string, description: Option<string>)

  datatype Directory = Directory(name: string, parentId: Option<nat>, createdBy: nat, path: string, isPublic: bool)

  datatype StoredFile = StoredFile(
    name: string,          // the name on disk
    originalName: string,  // the name shown to users
    directoryId: nat,
    uploadedBy: nat,
    filePath: string,      // key on the public disk
    mimeType: string,
    size: nat)

  datatype Proposal = Proposal(title: string, description: Option<string>, createdBy: nat, status: string)

  /** The statuses a proposal may have. */
  const ProposalStatuses: set<string> := {"draft", "active", "expired", "closed"}

  datatype ProposalPermission = ProposalPermission(
    proposalId: nat, userId: nat, directoryId: nat,
    expiresAt: Option<int>, canUpload: bool)

  /** The `required|string|max:255` validation rule. */
  predicate RequiredString(s: string) {
    s != "" && |s| <= 255
  }

  /** The `email` validation rule, approximated as an '@' with text on both sides. */
  predicate EmailShaped(s: string) {
    exists i :: 0 < i < |s| - 1 && s[i] == '@'
  }

  /** The characters PHP's `trim` strips by default: space, tab, line
      feed, carriage return, NUL and vertical tab. */
  predicate PhpBlank(c: char) {
    c == ' ' || c == '\t' || c == '\n' || c == '\r' || c as int == 0 || c as int == 11
  }

  /** The `required` rule on a field the trimming middleware leaves alone
      (the password fields): the rule trims the value for its own test, so
      a value made only of blanks is missing. */
  predicate RequiredPassword(password: string) {
    exists i :: 0 <= i < |password| && !PhpBlank(password[i])
  }

  /** The `min:8` rule on a password (counted in characters). */
  predicate LongEnough(password: string) {
    |password| >= 8
  }
}
