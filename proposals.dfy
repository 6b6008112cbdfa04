/** The proposal controller and the expiry check of a proposal permission.
    Time is the parameter `now`, in the same unit as expires_at. */
module Proposals {
  import opened Common
  import opened Entities
  import opened Schema
  import opened Store

  /** isExpired: an expiry that lies strictly in the past; no expiry never
      expires. */
  predicate IsExpired(p: ProposalPermission, now: int) {
    p.expiresAt.Some? && p.expiresAt.value < now
  }

  lemma ExpiryCases(p: ProposalPermission, now: int)
    ensures p.expiresAt.None? ==> !IsExpired(p, now)
    ensures p.expiresAt == Some(now) ==> !IsExpired(p, now)
    ensures p.expiresAt.Some? ==> (IsExpired(p, now) <==> p.expiresAt.value < now)
  {
  }

  /** Once expired, expired at every later time. */
  lemma ExpiryMonotone(p: ProposalPermission, t1: int, t2: int)
    requires t1 <= t2 && IsExpired(p, t1)
    ensures IsExpired(p, t2)
  {
  }

  /** The upload flag plays no part in expiry. */
  lemma ExpiryIgnoresUpload(p: ProposalPermission, now: int, canUpload: bool)
    ensures IsExpired(p.(canUpload := canUpload), now) == IsExpired(p, now)
  {
  }

  /** One entry of store's permission list. */
  datatype PermissionRequest = PermissionRequest(userId: nat, directoryId: nat, expiresAt: Option<int>)

  /** The row a request entry becomes: upload allowed, expiry as given. */
  function PermissionRow(proposalId: nat, req: PermissionRequest): ProposalPermission {
    ProposalPermission(proposalId, req.userId, req.directoryId, req.expiresAt, true)
  }

  /** The rows created for `reqs` under consecutive ids from `start`. */
  function NewRows(start: nat, proposalId: nat, reqs: seq<PermissionRequest>): map<nat, ProposalPermission> {
    if reqs == [] then map[]
    else NewRows(start, proposalId, reqs[..|reqs| - 1])[start + |reqs| - 1 := PermissionRow(proposalId, reqs[|reqs| - 1])]
  }

  /** The new rows take the keys from `start` on, one per entry, in order. */
  lemma {:induction false} NewRowsMeaning(start: nat, proposalId: nat, reqs: seq<PermissionRequest>)
    ensures forall k :: k in NewRows(start, proposalId, reqs) <==> start <= k < start + |reqs|
    ensures forall k :: k in NewRows(start, proposalId, reqs) ==>
              NewRows(start, proposalId, reqs)[k] == PermissionRow(proposalId, reqs[k - start])
    decreases |reqs|
  {
    if reqs != [] {
      var n := |reqs| - 1;
      NewRowsMeaning(start, proposalId, reqs[..n]);
      assert forall j :: 0 <= j < n ==> reqs[..n][j] == reqs[j];
    }
  }

  /** Every row added beside `base` belongs to proposal `p` and allows
      uploads. */
  lemma NewRowsFor(base: map<nat, ProposalPermission>, start: nat, p: nat, reqs: seq<PermissionRequest>)
    ensures forall k :: k in base + NewRows(start, p, reqs) && k !in base ==>
              (base + NewRows(start, p, reqs))[k].proposalId == p && (base + NewRows(start, p, reqs))[k].canUpload
  {
    NewRowsMeaning(start, p, reqs);
  }

  /** store's validation rules. */
  predicate StoreValid(title: string, status: Option<string>, reqs: seq<PermissionRequest>,
                       users: map<nat, User>, dirs: map<nat, Directory>) {
    && RequiredString(title)
    && (status.Some? ==> status.value in ProposalStatuses)
    && (forall i :: 0 <= i < |reqs| ==> reqs[i].userId in users && reqs[i].directoryId in dirs)
  }

  /** The entries of the permission list: an explicit null list has none
      for the validation rules, which only look at its elements. */
  function Entries(reqs: Option<seq<PermissionRequest>>): (r: seq<PermissionRequest>)
    ensures reqs.Some? ==> r == reqs.value
    ensures reqs.None? ==> r == []
  {
    if reqs.Some? then reqs.value else []
  }

  /** store: the proposal (status draft unless given, creator the actor),
      then one permission row per entry, in order. `reqs` is `None` for a
      list sent as an explicit null, which passes the nullable rule; an
      absent list and an empty one both add no row. Iterating over the null
      list raises an error after the proposal row was written: 500, with the
      proposal kept and no permission row. */
  method StoreProposal(db: Db, actor: nat, title: string, description: Option<string>, status: Option<string>,
                       reqs: Option<seq<PermissionRequest>>) returns (code: nat, id: Option<nat>)
    requires db.Valid() && actor in db.users
    modifies db`proposals, db`nextProposal, db`permissions, db`nextPermission
    ensures db.Valid()
    ensures code == 201 || code == 422 || code == 500
    ensures code == 422 <==> !StoreValid(title, status, Entries(reqs), db.users, db.directories)
    ensures code == 500 <==> StoreValid(title, status, Entries(reqs), db.users, db.directories) && reqs.None?
    ensures code == 422 ==> id == None && unchanged(db)
    ensures code != 422 ==>
              && id == Some(old(db.nextProposal)) && id.value !in old(db.proposals)
              && db.nextProposal == old(db.nextProposal) + 1
              && db.proposals == old(db.proposals)[id.value := Proposal(title, description, actor,
                                                                        if status.Some? then status.value else "draft")]
    ensures code == 500 ==> db.permissions == old(db.permissions) && db.nextPermission == old(db.nextPermission)
    ensures code == 201 ==>
              && db.nextPermission == old(db.nextPermission) + |reqs.value|
              && db.permissions == old(db.permissions) + NewRows(old(db.nextPermission), id.value, reqs.value)
              && (forall k :: k in db.permissions && k !in old(db.permissions) ==>
                    db.permissions[k].proposalId == id.value && db.permissions[k].canUpload)
  {
    if !StoreValid(title, status, Entries(reqs), db.users, db.directories) {
      return 422, None;
    }
    var p := InsertProposal(db, Proposal(title, description, actor, if status.Some? then status.value else "draft"));
    if reqs.None? {
      return 500, Some(p);
    }
    CreatePermissions(db, p, reqs.value);
    NewRowsFor(old(db.permissions), old(db.nextPermission), p, reqs.value);
    return 201, Some(p);
  }

  /** One more entry adds one more row under the next id. */
  lemma ExtendRows(base: map<nat, ProposalPermission>, start: nat, p: nat, reqs: seq<PermissionRequest>, i: nat)
    requires i < |reqs|
    ensures (base + NewRows(start, p, reqs[..i]))[start + i := PermissionRow(p, reqs[i])]
            == base + NewRows(start, p, reqs[..i + 1])
  {
    assert reqs[..i + 1][..i] == reqs[..i];
    assert NewRows(start, p, reqs[..i + 1]) == NewRows(start, p, reqs[..i])[start + i := PermissionRow(p, reqs[i])];
  }

  /** The loop of store: one permission row per entry, in order, under
      consecutive ids. */
  method CreatePermissions(db: Db, p: nat, reqs: seq<PermissionRequest>)
    requires db.Valid() && p in db.proposals
    requires forall i :: 0 <= i < |reqs| ==> reqs[i].userId in db.users && reqs[i].directoryId in db.directories
    modifies db`permissions, db`nextPermission
    ensures db.Valid()
    ensures db.nextPermission == old(db.nextPermission) + |reqs|
    ensures db.permissions == old(db.permissions) + NewRows(old(db.nextPermission), p, reqs)
  {
    var i := 0;
    while i < |reqs|
      invariant 0 <= i <= |reqs|
      invariant db.Valid()
      invariant db.nextPermission == old(db.nextPermission) + i
      invariant db.permissions == old(db.permissions) + NewRows(old(db.nextPermission), p, reqs[..i])
    {
      ExtendRows(old(db.permissions), old(db.nextPermission), p, reqs, i);
      var k := InsertPermission(db, PermissionRow(p, reqs[i]));
      i := i + 1;
    }
    assert reqs[..i] == reqs;
  }

  /** update: title, and description and status when the request carries
      them; the creator stays. */
  method UpdateProposal(db: Db, p: nat, title: string, description: Option<Option<string>>, status: Option<string>)
    returns (code: nat)
    requires db.Valid()
    modifies db`proposals
    ensures db.Valid()
    ensures code == 200 || code == 404 || code == 422
    ensures code == 404 <==> p !in old(db.proposals)
    ensures code == 422 <==> p in old(db.proposals) && !(RequiredString(title) && (status.Some? ==> status.value in ProposalStatuses))
    ensures code != 200 ==> unchanged(db)
    ensures code == 200 ==>
              var q := old(db.proposals)[p];
              db.proposals == old(db.proposals)[p := Proposal(title, if description.Some? then description.value else q.description,
                                                               q.createdBy, if status.Some? then status.value else q.status)]
  {
    if p !in db.proposals {
      return 404;
    }
    if !(RequiredString(title) && (status.Some? ==> status.value in ProposalStatuses)) {
      return 422;
    }
    var q := db.proposals[p];
    db.proposals := db.proposals[p := Proposal(title, if description.Some? then description.value else q.description,
                                               q.createdBy, if status.Some? then status.value else q.status)];
    code := 200;
  }

  /** destroy: the proposal goes, with all its permission rows. */
  method DestroyProposal(db: Db, p: nat) returns (code: nat)
    requires db.Valid()
    modifies db`proposals, db`permissions
    ensures db.Valid()
    ensures code == 200 || code == 404
    ensures code == 404 <==> p !in old(db.proposals)
    ensures code == 404 ==> unchanged(db)
    ensures code == 200 ==> db.proposals == old(db.proposals) - {p}
                            && db.permissions == DropPermissions(old(db.permissions), {p}, {}, {})
  {
    if p !in db.proposals {
      return 404;
    }
    db.proposals := db.proposals - {p};
    db.permissions := DropPermissions(db.permissions, {p}, {}, {});
    code := 200;
  }

  /** The permission rows of proposal `p` for user `u` on directory `d`. */
  function RowsFor(perms: map<nat, ProposalPermission>, p: nat, u: nat, d: nat): (r: set<nat>)
    ensures forall k :: k in r <==> k in perms && perms[k].proposalId == p && perms[k].userId == u && perms[k].directoryId == d
  {
    set k | k in perms && perms[k].proposalId == p && perms[k].userId == u && perms[k].directoryId == d
  }

  /** A new row for the same proposal, user and directory adds exactly its
      id to the rows for them. */
  lemma RowsForInsert(perms: map<nat, ProposalPermission>, k: nat, row: ProposalPermission)
    requires k !in perms
    ensures RowsFor(perms[k := row], row.proposalId, row.userId, row.directoryId)
            == RowsFor(perms, row.proposalId, row.userId, row.directoryId) + {k}
    ensures |RowsFor(perms[k := row], row.proposalId, row.userId, row.directoryId)|
            == |RowsFor(perms, row.proposalId, row.userId, row.directoryId)| + 1
  {
    assert RowsFor(perms[k := row], row.proposalId, row.userId, row.directoryId)
           == RowsFor(perms, row.proposalId, row.userId, row.directoryId) + {k};
  }

  /** addPermission: exactly one new row, upload allowed, without looking for
      an existing row for the same user and directory. */
  method AddPermission(db: Db, p: nat, u: nat, d: nat, expiresAt: Option<int>) returns (code: nat, id: Option<nat>)
    requires db.Valid()
    modifies db`permissions, db`nextPermission
    ensures db.Valid()
    ensures code == 201 || code == 404 || code == 422
    ensures code == 404 <==> p !in db.proposals
    ensures code == 422 <==> p in db.proposals && (u !in db.users || d !in db.directories)
    ensures code != 201 ==> id == None && unchanged(db)
    ensures code == 201 ==>
              && id == Some(old(db.nextPermission)) && id.value !in old(db.permissions)
              && db.nextPermission == old(db.nextPermission) + 1
              && db.permissions == old(db.permissions)[id.value := ProposalPermission(p, u, d, expiresAt, true)]
              && RowsFor(db.permissions, p, u, d) == RowsFor(old(db.permissions), p, u, d) + {id.value}
              && |RowsFor(db.permissions, p, u, d)| == |RowsFor(old(db.permissions), p, u, d)| + 1
  {
    if p !in db.proposals {
      return 404, None;
    }
    if u !in db.users || d !in db.directories {
      return 422, None;
    }
    RowsForInsert(db.permissions, db.nextPermission, ProposalPermission(p, u, d, expiresAt, true));
    var k := InsertPermission(db, ProposalPermission(p, u, d, expiresAt, true));
    return 201, Some(k);
  }
}
