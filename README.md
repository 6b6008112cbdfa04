# ProposalSystem core in Dafny

This project models the authorization and state-transition core of
ProposalSystem, a document and proposal management system. The back end is a
Laravel application; the front end is a React single-page application. The
model covers:

- **Principal decisions** (`Principal`): the `User` model's admin levels,
  `canManageUser` and `canAccessDirectory`, taken over a role set, the
  directory table and the user-directory grant rows.
- **One entity store** (`Store.Db`): a class with one field per table, the
  auto-increment counters, the keys on the public disk and the ordered log
  of storage calls. `Db.Valid()` collects the schema constraints:
  - foreign keys resolve;
  - pair tables are sets, so the unique pair indexes hold;
  - emails and group names are unique;
  - every role held exists;
  - parents are older than their children.
  Every controller action, seeder and command is a method over `Db` that
  keeps `Valid()`. It states its response code or exit code, and its new
  state in terms of the old one.
- **Controllers:**
  - `UserAdmin`: user administration, with the ordered guards —
    self-protection, then the admin hierarchy.
  - `Auth`: registration, login gating on credentials then status, and
    password change.
  - `Groups`: work groups and the `default_group` protections.
  - `Directories`: the materialised path, computed once, the listing by
    parent, the two-level tree and the cascading delete.
  - `Files`: the stored-name rule and blob deletion before row deletion.
  - `Proposals`: bulk permission rows, lazy expiry and undeduplicated
    grants.
- **Middlewares** (`Middleware`): 401 before 403.
- **Catalogs and seeders** (`Catalog`, `Seeders`): the two role→capability
  catalogs and the four seeders, including the user-role migration loop.
- **Maintenance commands** (`Commands`): status repair and super-admin
  creation with its ordered validation chain.
- **Schema** (`Schema`): the cascades and defaults of the three junction
  migrations.
- **Front-end logic:**
  - `FrontPermission`: the permission hook.
  - `FrontMembers`: the group member diff, and its sequential requests that
    stop at the first failure.
  - `FrontTree`: the pre-order key list and the widget shape of the
    directory tree.
  - `FrontFiles`: file-type classification.
  - `FrontLocales`: dotted-key translation and placeholder substitution.

Modelling conventions:

- Time is the integer parameter `now`.
- A password hash is the opaque tag `HashOf(plain)`.
- The operator's answers to console prompts are parameters. They are the
  values the console returns: stripped of surrounding blanks, which is the
  default for questions and hidden questions alike. So an answer of blanks
  arrives as the empty string.
- The group policies are a boolean verdict `authorized`.
- The server's answers to the front end's requests are the set `refused`.
- Role-package calls that throw on a missing role (`assignRole`,
  `syncRoles`, the `role` query scope) are modelled as an error response
  (500, or exit code 1) at the point of the call. Writes made before the
  call stay, and nothing after it happens. Both maintenance commands query
  by role before writing anything, so a missing role ends them with 1 and
  no change.
- Request strings are the values the controllers receive, after Laravel's
  global `TrimStrings` and `ConvertEmptyStringsToNull` middlewares. Those
  middlewares are not part of this model. The password fields are the
  exception: the trimming middleware leaves them as sent. Their `required`
  rule still trims for its own test, so a password made only of blanks is
  missing (`Entities.RequiredPassword`).

Registration assigns the legacy role `user`, which only the legacy
capability seeder creates. The model states both outcomes: 201 when that
role exists, 500 (with the user row already written) when it does not.

## Model

| member | source | states |
|---|---|---|
| Principal.AdminLevels | proposal-system-backend/app/Models/User.php:67-78 | isSuperAdmin holds iff super_admin is held; isAdmin iff super_admin or admin is held; so isSuperAdmin implies isAdmin |
| Principal.ManageCases | proposal-system-backend/app/Models/User.php:83-96 | a super_admin manages every target, itself included; a plain admin manages a target iff the target holds neither admin role; a non-admin manages nobody |
| Principal.AccessCases | proposal-system-backend/app/Models/User.php:101-116 | an admin opens any directory id, even one with no row; a non-admin opens it iff the row exists and is public or a direct grant row exists; a missing row without a grant is refused |
| Principal.AccessIsLocal | proposal-system-backend/app/Models/User.php:101-116 | the access answer depends only on admin-ness, that one directory's public flag and that one grant row; two stores agreeing on those answer alike |
| Principal.NoAncestorVisibility | proposal-system-backend/app/Models/User.php:108-115 | for any store, any non-admin and any directory whose parent is private and ungranted: granting the directory opens it and leaves the parent closed, because no ancestor is consulted |
| UserAdmin.ListingMatchesManagement | proposal-system-backend/app/Http/Controllers/Api/UserController.php:12-35 | index refuses non-admins; a super_admin sees every user; an admin sees exactly the users it can manage, i.e. those holding neither admin role |
| UserAdmin.SelfProtection | proposal-system-backend/app/Http/Controllers/Api/UserController.php:91-93 | update, destroy, resetPassword and reject refuse acting on oneself; approve has no self check, so a super_admin or a non-admin may approve itself |
| UserAdmin.HierarchyGuard | proposal-system-backend/app/Http/Controllers/Api/UserController.php:96-98 | a non-super actor is refused on every admin target, by every guarded action |
| UserAdmin.GuardsIgnoreActorLevel | proposal-system-backend/app/Http/Controllers/Api/UserController.php:143-213 | the guards never ask whether the actor is an admin: anyone acting on another non-admin passes them; for admin actors passing them coincides with canManageUser |
| UserAdmin.MemberPassesGuards | proposal-system-backend/app/Http/Controllers/Api/UserController.php:197-213 | example: a member may reject another member although canManageUser denies it |
| UserAdmin.BlankPasswordRejected | proposal-system-backend/app/Http/Controllers/Api/UserController.php:42 | a password made only of blanks, of any length, fails store's validation |
| UserAdmin.InitialGroups | proposal-system-backend/app/Http/Controllers/Api/UserController.php:63-71 | a created user's groups are exactly the requested list when given; otherwise default_group alone when it exists, and none when it does not |
| UserAdmin.CreatedUserGroups | proposal-system-backend/app/Http/Controllers/Api/UserController.php:63-71 | with a group list, default_group is joined only if listed; without one, exactly default_group is joined |
| UserAdmin.StoreUser | proposal-system-backend/app/Http/Controllers/Api/UserController.php:37-79 | codes 422, 403 and 500 exactly on failed validation, on a non-super actor asking for an admin role, and on a missing role or a listed directory without a row (the list is not validated); 422 and 403 change nothing; 201 leaves one active user row with the requested role, its initial groups and all listed directories; a 500 keeps the row, the groups when the role exists, and the grants of the directories listed before the first missing one |
| UserAdmin.CreateAccepted | proposal-system-backend/app/Http/Controllers/Api/UserController.php:53-76 | after the guards: the active row under the next id, then the groups, then the directories granted in list order up to the first missing one; 500 exactly when the role or a listed directory is missing |
| UserAdmin.AttachCreated | proposal-system-backend/app/Http/Controllers/Api/UserController.php:60-76 | a missing role throws before any group or directory is attached; groups are attached before directories; a missing directory throws after the groups and after the grants of the directories listed before it |
| UserAdmin.FirstMissing | proposal-system-backend/app/Http/Controllers/Api/UserController.php:74-76 | the position of the first listed directory id without a row: every id before it exists, the id at it does not, and it is the list's length when all exist |
| UserAdmin.SyncedBeforeFailure | proposal-system-backend/app/Http/Controllers/Api/UserController.php:74-76 | the directories `sync` grants to a new user are existing listed ids, and they are the whole list exactly when every listed id exists |
| UserAdmin.SyncedPrefix | proposal-system-backend/app/Http/Controllers/Api/UserController.php:74-76 | an all-present prefix of the list is granted in full; an id appearing only at or after a missing one is not granted |
| UserAdmin.Edited | proposal-system-backend/app/Http/Controllers/Api/UserController.php:116-128 | name and status change only when supplied; email and password never; the role set becomes exactly the requested role |
| UserAdmin.Update | proposal-system-backend/app/Http/Controllers/Api/UserController.php:86-141 | 404 for a missing target; 403 for self or hierarchy (before validation) or for an admin role asked by a non-super actor (after validation); refusals change nothing; on 200 the row is edited and groups and directories are replaced only when supplied |
| UserAdmin.ApplyUpdate | proposal-system-backend/app/Http/Controllers/Api/UserController.php:116-138 | the row's fields are written first; a missing role stops before the relations; otherwise each supplied relation is synced to exactly the given ids |
| UserAdmin.Destroy | proposal-system-backend/app/Http/Controllers/Api/UserController.php:143-159 | self and hierarchy refusals change nothing; otherwise the user goes, with its memberships, grants and proposal permissions |
| UserAdmin.ResetPasswordOf | proposal-system-backend/app/Http/Controllers/Api/UserController.php:161-182 | after the guards, only the target's hash changes, to the hash of "password123" |
| UserAdmin.Approve | proposal-system-backend/app/Http/Controllers/Api/UserController.php:184-195 | only the hierarchy guard applies; on success only the target's status changes, to active |
| UserAdmin.Reject | proposal-system-backend/app/Http/Controllers/Api/UserController.php:197-213 | after the guards, only the target's status changes, to inactive |
| UserAdmin.UpdateProfile | proposal-system-backend/app/Http/Controllers/Api/UserController.php:215-232 | 422 unless the name is valid and the email is shaped and free except against the actor; otherwise only the actor's name and email change |
| Auth.LoginCode | proposal-system-backend/app/Http/Controllers/Api/AuthController.php:40-67 | the login decision is always 200, 403 or 422 |
| Auth.LoginCases | proposal-system-backend/app/Http/Controllers/Api/AuthController.php:40-67 | bad credentials give 422 whatever the status; with good credentials a pending or inactive account gets 403; 200 iff the credentials are good and the account is active |
| Auth.Authenticate | proposal-system-backend/app/Http/Controllers/Api/AuthController.php:40-42 | a user is found iff some user has that email and a hash accepting the password |
| Auth.Login | proposal-system-backend/app/Http/Controllers/Api/AuthController.php:33-68 | validation first (422), then the credentials, then the status; a token is issued iff the code is 200, and only to an active user with that email |
| Auth.Register | proposal-system-backend/app/Http/Controllers/Api/AuthController.php:14-31 | 422 iff validation fails, changing nothing; otherwise one row with the column default status and the role `user` when it exists (201), else no role (500); no membership is written; the new credentials authenticate |
| Auth.ChangePassword | proposal-system-backend/app/Http/Controllers/Api/AuthController.php:81-101 | 422 on failed validation or a wrong current password, changing nothing; otherwise only the actor's hash changes, the new password authenticates and a different old one no longer does |
| Auth.BlankPasswordRefused | proposal-system-backend/app/Http/Controllers/Api/AuthController.php:19-85 | a password made only of blanks, of any length, fails the required rule of login (line 37), registration (line 19) and password change (line 85) |
| Auth.AcceptedPasswordBytes | proposal-system-backend/app/Http/Controllers/Api/AuthController.php:19 | a password passing the eight-character rule is also at least eight UTF-8 bytes |
| Groups.Members | proposal-system-backend/app/Http/Controllers/Api/GroupController.php:78 | a user is a member of a group iff the membership pair exists |
| Groups.Index | proposal-system-backend/app/Http/Controllers/Api/GroupController.php:12-18 | refused iff the policy refuses; otherwise every group with its member count |
| Groups.StoreGroup | proposal-system-backend/app/Http/Controllers/Api/GroupController.php:20-33 | 403 iff the policy refuses; 422 iff a name is missing or the name is taken; refusals change nothing; otherwise exactly one new row under the next id |
| Groups.UpdateGroup | proposal-system-backend/app/Http/Controllers/Api/GroupController.php:42-55 | the name must be free except against the group itself; the description changes only when sent; afterwards the group is protected iff its new name is default_group |
| Groups.DestroyGroup | proposal-system-backend/app/Http/Controllers/Api/GroupController.php:57-69 | the group currently named default_group is refused with 403 and nothing changes; any other authorized group goes with its membership rows |
| Groups.AddUser | proposal-system-backend/app/Http/Controllers/Api/GroupController.php:74-85 | an existing member gives 400 and no change; otherwise exactly that pair is added; either way the user is then a member |
| Groups.RemoveUser | proposal-system-backend/app/Http/Controllers/Api/GroupController.php:90-102 | default_group refuses with 403 and no change; otherwise exactly that pair is removed, whether present or not, and the user is no longer a member |
| Groups.RenameThenDestroy | proposal-system-backend/app/Http/Controllers/Api/GroupController.php:42-66 | the protection follows the current name: renaming default_group and then deleting it both succeed |
| Directories.ChildPath | proposal-system-backend/app/Http/Controllers/Api/DirectoryController.php:40 | a child path is the parent's path, a slash and the name, so the parent's path is a prefix |
| Directories.ChildPathInjective | proposal-system-backend/app/Http/Controllers/Api/DirectoryController.php:40 | under one parent two child paths agree iff the names do |
| Directories.FilesOutside | proposal-system-frontend/src/components/DirectoryTree.js:62 | exactly the files whose directory is not removed survive, unchanged |
| Directories.SubtreeRemovalKeepsRows | proposal-system-frontend/src/components/DirectoryTree.js:62 | removing a subtree with its files, grants and permissions keeps the tree shape and every foreign key |
| Directories.Index | proposal-system-backend/app/Http/Controllers/Api/DirectoryController.php:11-19 | exactly the rows whose parent_id equals the query: the roots for no query, the children otherwise |
| Directories.Tree | proposal-system-backend/app/Http/Controllers/Api/DirectoryController.php:21-28 | exactly the roots, each with its children and their children, without an access filter |
| Directories.StoreDirectory | proposal-system-backend/app/Http/Controllers/Api/DirectoryController.php:30-51 | 422 iff the name is invalid or a given parent is missing; otherwise one row recording the parent, the actor as creator, is_public false, and the path (the name for a root, the child path otherwise); consistent paths stay consistent |
| Directories.InsertKeepsPaths | proposal-system-backend/app/Http/Controllers/Api/DirectoryController.php:37-48 | a created row's path is the one creation computes, and existing rows keep theirs |
| Directories.UpdateDirectory | proposal-system-backend/app/Http/Controllers/Api/DirectoryController.php:58-67 | only the name changes; parent and path stay, so a previously consistent path goes stale iff the name actually changed |
| Directories.DestroyDirectory | proposal-system-backend/app/Http/Controllers/Api/DirectoryController.php:69-73 | no access or emptiness check; the whole subtree goes with its files, grants and proposal permissions; the blobs stay |
| Directories.RenameLeavesPath | proposal-system-backend/app/Http/Controllers/Api/DirectoryController.php:64 | example: after renaming root "a" to "b" its path still reads "a" |
| DirectoryModel.ParentChildInverse | proposal-system-backend/app/Models/Directory.php:18-26 | d is a child of p iff d's parent is p |
| DirectoryModel.RootOrChild | proposal-system-backend/app/Models/Directory.php:18-26 | each row is a root or the child of its parent, never both |
| DirectoryModel.UsersDirectoriesInverse | proposal-system-backend/app/Models/Directory.php:38-41 | users(d) and User::directories read the same grant rows in opposite directions |
| DirectoryModel.SubtreeClosed | proposal-system-backend/app/Models/Directory.php:23-26 | a subtree is closed under children |
| DirectoryModel.Without | proposal-system-backend/app/Http/Controllers/Api/DirectoryController.php:71 | exactly the rows outside the removed set remain, unchanged |
| DirectoryModel.RemoveSubtreeKeepsShape | proposal-system-backend/app/Models/Directory.php:18-26 | removing a whole subtree leaves no row pointing at a removed parent |
| Files.StoredNameInjective | proposal-system-backend/app/Http/Controllers/Api/FileController.php:30 | stored names collide iff both the second and the client name agree |
| Files.StoredPathCollision | proposal-system-backend/app/Http/Controllers/Api/FileController.php:30-31 | in one second two uploads share a disk key iff their client names agree |
| Files.Index | proposal-system-backend/app/Http/Controllers/Api/FileController.php:12-20 | exactly the files of the queried directory; nothing without a query |
| Files.StoreFile | proposal-system-backend/app/Http/Controllers/Api/FileController.php:22-44 | 422 iff the directory is missing or the file exceeds 102400 KB; otherwise the blob at uploads/timestamp_name is written before the row, which keeps the client name as original_name and records the directory, uploader, MIME type and size |
| Files.SaveUpload | proposal-system-backend/app/Http/Controllers/Api/FileController.php:29-41 | the blob is written, then the row is inserted, in that order in the storage log |
| Files.UpdateFile | proposal-system-backend/app/Http/Controllers/Api/FileController.php:51-60 | only original_name changes; the stored name and path stay |
| Files.DestroyFile | proposal-system-backend/app/Http/Controllers/Api/FileController.php:62-68 | the blob at file_path is deleted before the row, in that order in the storage log |
| Files.Download | proposal-system-backend/app/Http/Controllers/Api/FileController.php:70-73 | a download serves file_path under the current original_name |
| Files.RenameChangesDownloadName | proposal-system-backend/app/Http/Controllers/Api/FileController.php:57-72 | renaming changes the name offered for download and not the blob served |
| Proposals.ExpiryCases | proposal-system-backend/app/Models/ProposalPermission.php:34-37 | no expiry never expires; expiring exactly now is not expired; otherwise expired iff strictly before now |
| Proposals.ExpiryMonotone | proposal-system-backend/app/Models/ProposalPermission.php:34-37 | once expired, expired at every later time |
| Proposals.ExpiryIgnoresUpload | proposal-system-backend/app/Models/ProposalPermission.php:14-17 | expiry does not depend on can_upload |
| Proposals.NewRowsMeaning | proposal-system-backend/app/Http/Controllers/Api/ProposalController.php:41-49 | the created rows take consecutive ids, one per entry in order, each entry's row |
| Proposals.NewRowsFor | proposal-system-backend/app/Http/Controllers/Api/ProposalController.php:42-48 | every added row belongs to the new proposal and allows uploads |
| Proposals.StoreProposal | proposal-system-backend/app/Http/Controllers/Api/ProposalController.php:21-53 | 422 iff validation fails, changing nothing; otherwise the proposal with status draft unless given and the actor as creator; an explicit null list then gives 500 with the proposal kept and no permission row; otherwise one row per entry, each with can_upload true and the given or null expiry |
| Proposals.CreatePermissions | proposal-system-backend/app/Http/Controllers/Api/ProposalController.php:40-50 | the loop adds exactly the rows of the entries, in order, under consecutive ids |
| Proposals.UpdateProposal | proposal-system-backend/app/Http/Controllers/Api/ProposalController.php:60-71 | only title, description and status change, the latter two when sent; the creator stays |
| Proposals.DestroyProposal | proposal-system-backend/app/Http/Controllers/Api/ProposalController.php:73-77 | the proposal goes with all of its permission rows and no others |
| Proposals.RowsFor | proposal-system-backend/app/Http/Controllers/Api/ProposalController.php:87-93 | exactly the rows for that proposal, user and directory |
| Proposals.RowsForInsert | proposal-system-backend/app/Http/Controllers/Api/ProposalController.php:87-93 | a new row for the same triple adds one to the rows for it |
| Proposals.AddPermission | proposal-system-backend/app/Http/Controllers/Api/ProposalController.php:79-96 | 404 for a missing proposal, 422 for a missing user or directory; otherwise exactly one new row with can_upload true, even when rows for the same user and directory exist |
| Middleware.Status | proposal-system-backend/app/Http/Middleware/CheckPermission.php:16-27 | a verdict maps to 401, 403 or passing on, one to one |
| Middleware.CheckPermission | proposal-system-backend/app/Http/Middleware/CheckPermission.php:14-28 | 401 iff unauthenticated; an authenticated principal passes iff some role holds the permission; a 403 names the permission |
| Middleware.CheckRole | proposal-system-backend/app/Http/Middleware/CheckRole.php:14-28 | 401 iff unauthenticated; an authenticated principal passes iff it holds one of the names some argument stands for, an argument containing the bar character standing for each name between the bars; a 403 lists the arguments |
| Middleware.RoleNames | proposal-system-backend/app/Http/Middleware/CheckRole.php:20 | an argument's names hold no bar and join back with bars into the argument; an argument without a bar is one name |
| Middleware.PipedArgument | proposal-system-backend/app/Http/Middleware/CheckRole.php:20-25 | an argument made of two bar-free names joined by a bar admits exactly the principals holding either name; a role whose own name is that whole argument is not matched |
| Middleware.UnauthenticatedFirst | proposal-system-backend/app/Http/Middleware/CheckPermission.php:16-25 | without a principal both middlewares give 401 whatever is required |
| Middleware.AuthenticatedCases | proposal-system-backend/app/Http/Middleware/CheckRole.php:16-25 | an authenticated principal never gets 401; an empty role list refuses everyone with 403 |
| Middleware.AnyListedRolePasses | proposal-system-backend/app/Http/Middleware/CheckRole.php:20-27 | holding one name that some argument stands for passes, whatever the order of the arguments |
| Common.Elems | proposal-system-backend/database/seeders/RBACSeeder.php:45-50 | the set of the listed names; the same set is the members of a key list (proposal-system-frontend/src/components/GroupManagement.js:97-98) |
| Catalog.Give | proposal-system-backend/database/seeders/RBACSeeder.php:76-112 | givePermissionTo: the role keeps its capabilities and gains the given ones; other roles are untouched |
| Catalog.RbacTableShape | proposal-system-backend/database/seeders/RBACSeeder.php:17-71 | 16 distinct capabilities and 4 distinct roles, exactly the assignable ones |
| Catalog.AdminRows | proposal-system-backend/database/seeders/RBACSeeder.php:76-95 | super_admin holds every capability; admin every one except manage-all-users |
| Catalog.RowsNest | proposal-system-backend/database/seeders/RBACSeeder.php:76-112 | member ⊂ senior_member ⊂ admin ⊂ super_admin strictly; senior_member − member = {download-file} |
| Catalog.MembersOnlyRead | proposal-system-backend/database/seeders/RBACSeeder.php:98-112 | no role below admin holds a create, update, delete, upload or manage capability |
| Catalog.LegacyTableShape | proposal-system-backend/database/seeders/RolePermissionSeeder.php:14-32 | six distinct capabilities; the user row is a strict part of them |
| Catalog.CanCases | proposal-system-backend/app/Http/Middleware/CheckPermission.php:20 | one role holding the capability suffices; no role never does |
| Seeders.AddMissing | proposal-system-backend/database/seeders/RBACSeeder.php:45-50 | firstOrCreate in turn keeps the old names in front, adds exactly the missing names and creates no duplicates |
| Seeders.AddMissingPresent | proposal-system-backend/database/seeders/RBACSeeder.php:45-50 | names already present change nothing |
| Seeders.AddMissingFresh | proposal-system-backend/database/seeders/RBACSeeder.php:45-50 | distinct new names are appended in order |
| Seeders.AddMissingIdempotent | proposal-system-backend/database/seeders/RBACSeeder.php:45-50 | a second firstOrCreate pass changes nothing |
| Seeders.FirstOrCreateAll | proposal-system-backend/database/seeders/RBACSeeder.php:45-50 | the loop leaves exactly AddMissing of the names |
| Seeders.GiveFour | proposal-system-backend/database/seeders/RBACSeeder.php:76-112 | four grants to four roles: each keeps its row and gains its list; other roles are untouched |
| Seeders.GiveFourTwice | proposal-system-backend/database/seeders/RBACSeeder.php:76-112 | giving the same four rows again changes nothing |
| Seeders.GivesInOrder | proposal-system-backend/database/seeders/RBACSeeder.php:76-112 | the four grants one after another equal the four rows at once |
| Seeders.RbacGrants | proposal-system-backend/database/seeders/RBACSeeder.php:76-112 | super_admin gains every capability in the table; the others gain their fixed lists; other roles are untouched |
| Seeders.RbacSeed | proposal-system-backend/database/seeders/RBACSeeder.php:11-115 | capabilities by firstOrCreate, the four roles added, then the four grants |
| Seeders.RbacNamesOnEmptyCatalog | proposal-system-backend/database/seeders/RBACSeeder.php:17-50 | on an empty catalog exactly the sixteen names are created, in order |
| Seeders.RbacRowsOnEmptyCatalog | proposal-system-backend/database/seeders/RBACSeeder.php:76-112 | on no prior grants the four roles get exactly the table's rows |
| Seeders.RbacRowOnEmpty | proposal-system-backend/database/seeders/RBACSeeder.php:76-112 | each of the four rows on no prior grants, super_admin's being the whole table |
| Seeders.RbacIdempotent | proposal-system-backend/database/seeders/RBACSeeder.php:53-112 | a second run leaves every role row unchanged |
| Seeders.RbacAfterLegacy | proposal-system-backend/database/seeders/RBACSeeder.php:76 | after the legacy seeder, super_admin also receives the legacy capabilities |
| Seeders.FirstTaken | proposal-system-backend/database/seeders/RolePermissionSeeder.php:23-25 | the first name of the list already present, with none before it |
| Seeders.CreateAll | proposal-system-backend/database/seeders/RolePermissionSeeder.php:23-25 | create in turn appends every name, or stops at the first taken name with the earlier ones created |
| Seeders.LegacySeed | proposal-system-backend/database/seeders/RolePermissionSeeder.php:11-33 | a taken capability ends the run before any role; otherwise admin gets every capability in the table and user gets upload and download; an existing role ends the run at that point |
| Seeders.CreateLegacyRoles | proposal-system-backend/database/seeders/RolePermissionSeeder.php:28-32 | admin is created and granted before user; an existing role ends the run |
| Seeders.LegacyOnEmptyCatalog | proposal-system-backend/database/seeders/RolePermissionSeeder.php:14-32 | on an empty catalog only admin and user are created; admin holds all six, user exactly upload-files and download-files, a strict part of admin's |
| Seeders.TwoGrants | proposal-system-backend/database/seeders/RolePermissionSeeder.php:28-32 | two grants to two roles on nothing give exactly those rows |
| Seeders.SeedGroupsShape | proposal-system-backend/database/seeders/GroupSeeder.php:12-33 | four groups, default_group first, pairwise distinct names, each with a display name and a description |
| Seeders.NumberedMeaning | proposal-system-backend/database/seeders/GroupSeeder.php:35-37 | inserted rows take consecutive ids in order |
| Seeders.CreatedRows | proposal-system-backend/database/seeders/GroupSeeder.php:35-37 | the created rows are added beside the old ones, which keep their ids and values |
| Seeders.CreateGroups | proposal-system-backend/database/seeders/GroupSeeder.php:35-37 | the loop adds the rows in order under consecutive ids, stops at a taken name, and creates all of them when the names are fresh |
| Seeders.GroupSeed | proposal-system-backend/database/seeders/GroupSeeder.php:10-40 | the four groups in order; old groups untouched; all four created when none of their names is taken |
| Seeders.SeedNamesFresh | proposal-system-backend/database/seeders/GroupSeeder.php:14-29 | a table holding none of the four names takes all of them |
| Seeders.Migrated | proposal-system-backend/database/seeders/MigrateUsersSeeder.php:26-38 | admin becomes exactly {super_admin} (checked first); otherwise user becomes exactly {member}; anyone else gains member |
| Seeders.MigrationCases | proposal-system-backend/database/seeders/MigrateUsersSeeder.php:26-38 | every migrated user holds super_admin or member and no legacy role; a second run adds member to a migrated super_admin |
| Seeders.Joined | proposal-system-backend/database/seeders/MigrateUsersSeeder.php:41-44 | the membership pairs of the given users in the group |
| Seeders.MigrateUsers | proposal-system-backend/database/seeders/MigrateUsersSeeder.php:11-48 | without default_group nothing changes; otherwise every user's roles migrate and every user belongs to default_group, with no duplicate pair |
| Seeders.MigrateEach | proposal-system-backend/database/seeders/MigrateUsersSeeder.php:20-45 | the loop migrates every user and attaches only missing memberships |
| Seeders.MigratedUsers | proposal-system-backend/database/seeders/MigrateUsersSeeder.php:22-38 | the users handled so far have migrated roles; the rest are unchanged |
| Seeders.MigrationKeepsRows | proposal-system-backend/database/seeders/MigrateUsersSeeder.php:28-36 | migration keeps ids and emails, and all roles held are known |
| Commands.Activated | proposal-system-backend/app/Console/Commands/FixUserStatus.php:74-81 | the targets become active, everything else is unchanged |
| Commands.NotActive | proposal-system-backend/app/Console/Commands/FixUserStatus.php:75 | exactly the targets that are not active |
| Commands.Admins | proposal-system-backend/app/Console/Commands/FixUserStatus.php:53 | exactly the users holding super_admin or admin |
| Commands.PendingUsers | proposal-system-backend/app/Console/Commands/FixUserStatus.php:103 | exactly the pending users |
| Commands.ActivateEach | proposal-system-backend/app/Console/Commands/FixUserStatus.php:73-81 | every target ends active and the count is the number of targets that were not active |
| Commands.ActivateAdmins | proposal-system-backend/app/Console/Commands/FixUserStatus.php:48-89 | when super_admin or admin is missing the role query throws and nothing changes; otherwise admins end active, non-admins are untouched, and the count is the admins that were not active |
| Commands.ActivateAllUsers | proposal-system-backend/app/Console/Commands/FixUserStatus.php:94-133 | declining changes nothing; otherwise the pending users become active, the others stay, and the count is the number of pending users |
| Commands.FixUserStatus | proposal-system-backend/app/Console/Commands/FixUserStatus.php:29-43 | with the all option the pending users are handled (behind the confirmation) and the exit code is 0; otherwise the exit code is 1 with no change iff an admin role is missing, and 0 with every admin activated when both exist |
| Commands.RepairedAdminsActive | proposal-system-backend/app/Console/Commands/FixUserStatus.php:74-81 | after repair every admin is active |
| Commands.Rejection | proposal-system-backend/app/Console/Commands/CreateSuperAdmin.php:39-103 | checks in order: declining to continue (0), empty name, bad or taken email, password under 8 bytes, mismatch (each 1), declining to create (0) |
| Commands.ChecksInOrder | proposal-system-backend/app/Console/Commands/CreateSuperAdmin.php:55-85 | the first failing check decides, whatever the later answers |
| Commands.PasswordBytes | proposal-system-backend/app/Console/Commands/CreateSuperAdmin.php:75 | the length is counted in bytes: never fewer bytes than characters, and as many exactly when every character is ASCII |
| Commands.CreateSuperAdmin | proposal-system-backend/app/Console/Commands/CreateSuperAdmin.php:32-164 | a missing super_admin role ends with 1 before any prompt and changes nothing; otherwise a rejection returns its code and changes nothing; past the checks an active row with exactly {super_admin} under the next id, joined to default_group when it exists, and exit 0 |
| Commands.AssignSuperAdmin | proposal-system-backend/app/Console/Commands/CreateSuperAdmin.php:115-122 | a missing role exits 1 with no change; otherwise the roles become {super_admin} and default_group is joined when it exists |
| Schema.CascadeOnUserDelete | proposal-system-backend/database/migrations/2025_10_15_134954_create_user_groups_table.php:16 | deleting users removes exactly their membership and grant rows and keeps both tables consistent |
| Schema.CascadeOnGroupDelete | proposal-system-backend/database/migrations/2025_10_15_134954_create_user_groups_table.php:17 | deleting groups removes exactly their membership rows |
| Schema.CascadeOnDirectoryDelete | proposal-system-backend/database/migrations/2025_10_15_153832_create_user_directory_permissions_table.php:17 | deleting directories removes exactly their grant rows and the proposal permissions naming them |
| Schema.CascadeOnProposalDelete | proposal-system-backend/database/migrations/2025_10_14_145009_create_proposal_permissions_table.php:16 | deleting a proposal removes exactly its permission rows |
| Schema.DuplicatePermissionRowsAllowed | proposal-system-backend/database/migrations/2025_10_14_145009_create_proposal_permissions_table.php:14-22 | the table has no unique index: copying any row of a valid table under a fresh id keeps it valid |
| Store.Db.constructor | proposal-system-backend/database/migrations/2025_10_15_153832_create_user_directory_permissions_table.php:14-27 | an empty, freshly migrated store satisfies every constraint |
| Store.FindGroupByName | proposal-system-backend/app/Http/Controllers/Api/UserController.php:67 | a group is found iff one has the name, and it has the name |
| Store.FindUserByEmail | proposal-system-backend/app/Http/Controllers/Api/AuthController.php:40 | a user is found iff one has the email, and it has the email |
| Store.SyncLeft | proposal-system-backend/app/Http/Controllers/Api/UserController.php:131-138 | sync: the owner's rows become exactly the targets; other owners' rows stay |
| Store.Pairs | proposal-system-backend/app/Http/Controllers/Api/UserController.php:64-69 | attach: exactly the pairs of the owner with each target |
| Store.SyncMemberships | proposal-system-backend/app/Http/Controllers/Api/UserController.php:131-133 | the user's memberships become exactly the given groups, keeping the store valid |
| Store.SyncGrants | proposal-system-backend/app/Http/Controllers/Api/UserController.php:136-138 | the user's grants become exactly the given directories, keeping the store valid |
| Store.DeleteUser | proposal-system-backend/app/Http/Controllers/Api/UserController.php:157 | the row goes with its memberships, grants and proposal permissions, keeping the store valid |
| Store.InsertUser | proposal-system-backend/app/Http/Controllers/Api/UserController.php:53-58 | the row is stored under the next id and nothing else changes |
| Store.PutBlobAt | proposal-system-backend/app/Http/Controllers/Api/FileController.php:31 | the key is on the disk afterwards and the write is logged |
| Store.DeleteBlobAt | proposal-system-backend/app/Http/Controllers/Api/FileController.php:64 | the key is gone afterwards and the delete is logged |
| FrontPermission.NoUserNoRights | proposal-system-frontend/src/hooks/usePermission.js:7-23 | without a user, or without a role list, every predicate is false |
| FrontPermission.PermissionIsMembership | proposal-system-frontend/src/hooks/usePermission.js:7-10 | a logged-in user has a capability iff it is in the stored list |
| FrontPermission.AdminFlags | proposal-system-frontend/src/hooks/usePermission.js:44-45 | isSuperAdmin implies isAdmin; isAdmin iff super_admin or admin is held |
| FrontPermission.NullTargetRefused | proposal-system-frontend/src/hooks/usePermission.js:23 | no target, no management |
| FrontPermission.AgreesWithBackend | proposal-system-frontend/src/hooks/usePermission.js:22-37 | on the same role sets, canManageUser agrees with the back end's decision |
| FrontMembers.Without | proposal-system-frontend/src/components/GroupManagement.js:97-98 | the elements of one list absent from the other, in order |
| FrontMembers.DiffExact | proposal-system-frontend/src/components/GroupManagement.js:97-98 | added = new − old and removed = old − new, disjoint, and (old − removed) ∪ added = new |
| FrontMembers.SameMembersNoCalls | proposal-system-frontend/src/components/GroupManagement.js:97-109 | the same members in any order issue no request |
| FrontMembers.AddCalls | proposal-system-frontend/src/components/GroupManagement.js:102-104 | one addUser request per added user, in order |
| FrontMembers.RemoveCalls | proposal-system-frontend/src/components/GroupManagement.js:107-109 | one removeUser request per removed user, in order |
| FrontMembers.ReachesChoice | proposal-system-frontend/src/components/GroupManagement.js:95-111 | when every request is accepted the group ends with exactly the chosen members |
| FrontMembers.FirstRefused | proposal-system-frontend/src/components/GroupManagement.js:100-117 | the first refused request, if any, is within the list |
| FrontMembers.FirstRefusedMeaning | proposal-system-frontend/src/components/GroupManagement.js:100-117 | none refused iff no request is refused; otherwise it is refused and all earlier ones were accepted |
| FrontMembers.IssuedUpTo | proposal-system-frontend/src/components/GroupManagement.js:100-117 | requests are sent up to and including the first refused one |
| FrontMembers.RefusedInFirst | proposal-system-frontend/src/components/GroupManagement.js:102-109 | a refused addition stops before any removal |
| FrontMembers.RefusedInSecond | proposal-system-frontend/src/components/GroupManagement.js:102-109 | after all additions succeed, a refused removal stops the rest |
| FrontMembers.RefusedInNeither | proposal-system-frontend/src/components/GroupManagement.js:102-111 | when neither the additions nor the removals hold a refused request, none of them together does and all are sent, additions first |
| FrontMembers.MemberEditor.Send | proposal-system-frontend/src/components/GroupManagement.js:103 | one request is sent and succeeds iff the server accepts it |
| FrontMembers.MemberEditor.AddAll | proposal-system-frontend/src/components/GroupManagement.js:102-104 | the additions are sent in order up to the first refusal; ok iff none is refused |
| FrontMembers.MemberEditor.RemoveAll | proposal-system-frontend/src/components/GroupManagement.js:107-109 | the removals are sent in order up to the first refusal; ok iff none is refused |
| FrontMembers.MemberEditor.HandleMemberChange | proposal-system-frontend/src/components/GroupManagement.js:95-118 | additions before removals, stopping at the first refusal; the shown members become the chosen ones only when all succeed, otherwise they stay the old ones |
| FrontTree.NodeKeys | proposal-system-frontend/src/components/DirectoryTree.js:33-36 | a node's key comes first, the id in decimal |
| FrontTree.Keys | proposal-system-frontend/src/components/DirectoryTree.js:30-39 | a forest yields at least one key per root |
| FrontTree.KeysCount | proposal-system-frontend/src/components/DirectoryTree.js:30-39 | one key per directory |
| FrontTree.KeysAppend | proposal-system-frontend/src/components/DirectoryTree.js:32-37 | sibling order is preserved |
| FrontTree.PreOrder | proposal-system-frontend/src/components/DirectoryTree.js:32-37 | a node's key precedes its descendants' keys, which precede the next sibling's keys |
| FrontTree.GetAllKeys | proposal-system-frontend/src/components/DirectoryTree.js:30-39 | the loop returns exactly the pre-order keys of the forest |
| FrontTree.Format | proposal-system-frontend/src/components/DirectoryTree.js:71-115 | one node per directory, in order, keyed by the decimal id, carrying the directory, with children undefined exactly for leaves |
| FrontTree.FormatKeys | proposal-system-frontend/src/components/DirectoryTree.js:71-115 | the widget's keys are exactly the keys getAllKeys collects |
| FrontTree.Selection.constructor | proposal-system-frontend/src/components/DirectoryTree.js:129-140 | the selection starts as the parent gives it |
| FrontTree.Selection.HandleDelete | proposal-system-frontend/src/components/DirectoryTree.js:129-140 | after a successful delete the selection is cleared iff it was the deleted id; a failure leaves it |
| FrontFiles.Extension | proposal-system-frontend/src/components/FileList.js:8 | the compared extension holds no dot and no upper-case letter |
| FrontFiles.ExtensionOfName | proposal-system-frontend/src/components/FileList.js:8 | the extension is the lower-cased text after the last dot, whatever the stem |
| FrontFiles.FirstIndex | proposal-system-frontend/src/components/FileList.js:11-29 | the position of the first matching category, with none before it |
| FrontFiles.FirstMatch | proposal-system-frontend/src/components/FileList.js:11-29 | the first matching category in the fixed order wins; generic iff none matches |
| FrontFiles.MimePatterns | proposal-system-frontend/src/components/FileList.js:11-26 | every MIME fragment has at least three characters |
| FrontFiles.EmptyMimeIsAbsent | proposal-system-frontend/src/components/FileList.js:11-26 | an empty MIME type classifies like an absent one |
| FrontFiles.PdfWins | proposal-system-frontend/src/components/FileList.js:11-13 | a PDF MIME type or a pdf extension gives the PDF icon |
| FrontFiles.UpperCaseExtension | proposal-system-frontend/src/components/FileList.js:8-11 | example: ".PDF" is recognised as a PDF |
| FrontFiles.LastDotCounts | proposal-system-frontend/src/components/FileList.js:8-25 | example: "x.pdf.gz" is an archive |
| FrontFiles.NoMimeMatch | proposal-system-frontend/src/components/FileList.js:11-22 | without a MIME type a two-letter extension matches none of the first four categories |
| FrontFiles.ArchiveAfterFour | proposal-system-frontend/src/components/FileList.js:11-25 | an archive match behind four failed categories decides |
| FrontFiles.ByteLabel | proposal-system-frontend/src/components/FileList.js:128 | a size under 1024 is shown as its decimal digits followed by " B" |
| FrontFiles.ByteLabelInjective | proposal-system-frontend/src/components/FileList.js:128 | different byte sizes are shown differently |
| FrontLocales.Step | proposal-system-frontend/src/locales/index.js:23 | a step finds something only inside a table holding the key |
| FrontLocales.WalkFromNothing | proposal-system-frontend/src/locales/index.js:22-24 | a missing value stays missing |
| FrontLocales.OrKey | proposal-system-frontend/src/locales/index.js:26 | a missing value or an empty message gives the key itself, anything else is returned |
| FrontLocales.UnknownLocale | proposal-system-frontend/src/locales/index.js:18-27 | an unknown locale translates every key to itself |
| FrontLocales.TopLevelKey | proposal-system-frontend/src/locales/index.js:18-27 | a dotless key is looked up at the top of the current catalog |
| FrontLocales.NestedKey | proposal-system-frontend/src/locales/index.js:18-27 | "a.b" walks one table per segment |
| Text.SplitTwo | proposal-system-frontend/src/locales/index.js:19 | splitting "a" + c + "b" at a separator c that neither part holds gives the two parts ("a.b" for a translation key, "a|b" for a role argument) |
| FrontLocales.EmptyOnlyForEmptyKey | proposal-system-frontend/src/locales/index.js:26 | an empty translation comes only from the empty key |
| FrontLocales.Format | proposal-system-frontend/src/locales/index.js:29-35 | with no parameters it is t(key); it fails iff there are parameters and the translation is a table |
| FrontLocales.AbsentPlaceholder | proposal-system-frontend/src/locales/index.js:31-33 | a parameter whose placeholder does not occur changes nothing |
| FrontLocales.FirstOccurrenceOnly | proposal-system-frontend/src/locales/index.js:32 | only the first occurrence of a placeholder is replaced |
| FrontLocales.Locales.constructor | proposal-system-frontend/src/locales/index.js:9 | the stored locale when one is stored and non-empty, zh-CN otherwise |
| FrontLocales.Locales.SetLocale | proposal-system-frontend/src/locales/index.js:11-14 | the locale becomes current and is stored |
| FrontLocales.Locales.GetLocale | proposal-system-frontend/src/locales/index.js:16 | returns the current locale, the last one set |
| FrontLocales.Locales.T | proposal-system-frontend/src/locales/index.js:18-27 | the loop walks the key's segments in the current catalog and equals Translate |
| FrontLocales.Locales.FormatMessage | proposal-system-frontend/src/locales/index.js:29-35 | t(key), then each parameter's first placeholder replaced in order; equals Format |
| Text.NatToString | proposal-system-frontend/src/components/DirectoryTree.js:33 | a decimal rendering: non-empty digits without a leading zero |
| Text.NatToStringRoundTrip | proposal-system-frontend/src/components/DirectoryTree.js:33 | reading the digits back gives the number |
| Text.NatToStringInjective | proposal-system-frontend/src/components/DirectoryTree.js:110 | distinct ids give distinct keys |
| Text.Utf8Length | proposal-system-backend/app/Console/Commands/CreateSuperAdmin.php:75 | strlen counts between one and four bytes per character |
| Text.IndexOf | proposal-system-frontend/src/locales/index.js:32 | the first occurrence, if any |
| Text.ReplaceFirstKeepsRest | proposal-system-frontend/src/locales/index.js:32 | replace keeps the text before and after the first occurrence |
| Text.ReplaceFirstAbsent | proposal-system-frontend/src/locales/index.js:32 | replace of an absent pattern is the identity |
| Text.AfterLast | proposal-system-frontend/src/components/FileList.js:8 | split-pop: a dotless suffix, preceded by the separator unless it is the whole string |
| Text.AfterLastOf | proposal-system-frontend/src/components/FileList.js:8 | the text after the last separator is the tail, whatever the stem |
| Text.Lower | proposal-system-frontend/src/components/FileList.js:8 | lower-casing character by character, keeping the length |
| Text.LowerChar | proposal-system-frontend/src/components/FileList.js:8 | an upper-case letter becomes its lower-case letter; anything else stays |
| Text.Split | proposal-system-frontend/src/locales/index.js:19 | split never yields an empty list, and no piece holds the separator |
| Text.SplitJoin | proposal-system-frontend/src/locales/index.js:19 | joining the pieces again gives back the key |
| Text.SplitNoSeparator | proposal-system-frontend/src/locales/index.js:19 | a key without a dot is one piece |

## Left out

- Password hashing is the injective tag `HashOf`; salts and the hash algorithm are not modelled.
- Sanctum tokens are a boolean "issued" result of login. `logout` and `me` are not modelled.
- Blob storage is modelled as the set of keys on the public disk plus a log of calls. Download streaming is not modelled, nor how `storeAs` turns the key into a path.
- Laravel plumbing is not modelled: route-model binding beyond a 404, eager loading, JSON bodies and `latest()` ordering. The listings are sets, not ordered lists.
- The `show` actions of the user, group, directory and file controllers only load relations and are not modelled.
- Validation is approximated. `RequiredString` checks a non-empty value of at most 255 characters. That is the `required` rule on a value the trimming middleware has already trimmed; the middleware itself is not modelled. Password fields are not trimmed by it, and `RequiredPassword` states their `required` rule directly. The `email` rule is "an '@' with text on both sides" (`Entities.EmailShaped`). The `date` rule on `expires_at` is the integer type. `max:255` is counted in characters.
- The group policies are not part of this model. Each group action takes the policy's verdict as the parameter `authorized`.
- Console prompts, tables and logging are not modelled. The operator's answers are parameters.
- Time is not read from a clock: `now` is a parameter, in seconds for file names and in the unit of `expires_at` for expiry.
- The `directories`, `files`, `users` and `groups` migrations are not part of this model.
  - Deleting a directory is assumed to cascade to its subdirectories and files, as the delete dialog promises.
  - The files' directory key and a unique index on group names are assumed.
  - The default `status` of a new user is the parameter `columnDefault`.
- Store.DeleteUser and UserAdmin.Destroy: the `users` migration and the migrations of `directories`, `files` and `proposals` are not shown. The model therefore assumes no foreign key from `directories.created_by`, `files.uploaded_by` or `proposals.created_by` to `users`. Deleting a user leaves those rows in place, pointing at the removed id, and `Db.Valid()` does not constrain these columns. A restricting key (the delete would fail) and a cascading one (the rows would go) are not modelled.
- The rollback (`down`) methods of the three migrations are not modelled.
- `is_public` is modelled as a boolean field whose value at creation is the column default `false`. No shown action sets it.
- Proposals.UpdateProposal: an explicit `null` status is not modelled. A status in the request is a valid status or absent.
- Roles are identified by name. The spatie `guard_name` is left out.
- Middleware.RoleNames, Middleware.CheckRole: an argument containing '|' is split at the bars as it stands. The role package also trims such an argument and drops one pair of enclosing quotes before splitting; that clean-up, and role lookups by numeric id or UUID, are not modelled.
- Commands.CreateSuperAdmin: exceptions other than a missing `super_admin` role (for example a failing insert inside the try) are not modelled.
- Seeders.MigrateUsers: it requires that the roles `super_admin` and `member` exist. Without them `syncRoles` throws mid-loop, and that partial run is not modelled.
- Front end: the rendered titles, icons and messages are not modelled, nor `loadGroups`, `loadTree` or any UI file other than those above.
  - The server's answers to member requests are the set `refused`.
  - The contents of the message catalogs are a parameter.
- FrontLocales.Step: a string value indexed by a key (`value?.[k]` on a string) is treated as missing. Inherited prototype members that `value?.[k]` also finds, such as `"constructor"`, are treated as missing too.
- FrontLocales.Locales.FormatMessage: parameters are a sequence in the order `Object.keys` yields them. `$` patterns in replacement strings are not interpreted.
- Text.Lower: only A–Z are lower-cased. JavaScript's `toLowerCase` beyond ASCII is not modelled.
- FrontFiles.ByteLabel: the KB and MB branches of the size column format floating point and are not modelled.
