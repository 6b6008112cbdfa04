/** The member editor of the group page: the difference between the members
    shown before and the members chosen now, and the requests that carry it
    to the server one after another, additions first. */
module FrontMembers {
  import opened Common

  /** The elements of `s` that are not in `other`, in their order in `s`. */
  function Without(s: seq<nat>, other: seq<nat>): (r: seq<nat>)
    ensures |r| <= |s|
    ensures forall x :: x in r <==> x in s && x !in other
  {
    if s == [] then []
    else if s[0] in other then Without(s[1..], other)
    else [s[0]] + Without(s[1..], other)
  }

  /** The chosen users that were not members. */
  function Added(oldKeys: seq<nat>, newKeys: seq<nat>): seq<nat> {
    Without(newKeys, oldKeys)
  }

  /** The members that are no longer chosen. */
  function Removed(oldKeys: seq<nat>, newKeys: seq<nat>): seq<nat> {
    Without(oldKeys, newKeys)
  }

  /** The diff is exact: the added users are new, the removed users were
      members, the two never overlap, and keeping the members that are not
      removed and adding the added ones gives the chosen set. */
  lemma DiffExact(oldKeys: seq<nat>, newKeys: seq<nat>, x: nat)
    ensures x in Added(oldKeys, newKeys) <==> x in newKeys && x !in oldKeys
    ensures x in Removed(oldKeys, newKeys) <==> x in oldKeys && x !in newKeys
    ensures !(x in Added(oldKeys, newKeys) && x in Removed(oldKeys, newKeys))
    ensures ((x in oldKeys && x !in Removed(oldKeys, newKeys)) || x in Added(oldKeys, newKeys)) <==> x in newKeys
  {
  }

  /** Choosing the same members, in any order, sends nothing. */
  lemma {:induction false} SameMembersNoCalls(oldKeys: seq<nat>, newKeys: seq<nat>)
    requires forall x :: x in oldKeys <==> x in newKeys
    ensures Added(oldKeys, newKeys) == [] && Removed(oldKeys, newKeys) == []
  {
    NothingLeft(newKeys, oldKeys);
    NothingLeft(oldKeys, newKeys);
  }

  lemma {:induction false} NothingLeft(s: seq<nat>, other: seq<nat>)
    requires forall x :: x in s ==> x in other
    ensures Without(s, other) == []
  {
    if s != [] {
      assert s[0] in other;
      NothingLeft(s[1..], other);
    }
  }

  /** One request to the server. */
  datatype Call = AddUser(group: nat, user: nat) | RemoveUser(group: nat, user: nat)

  function AddCalls(group: nat, users: seq<nat>): (r: seq<Call>)
    ensures |r| == |users|
    ensures forall i :: 0 <= i < |r| ==> r[i] == AddUser(group, users[i])
  {
    if users == [] then [] else [AddUser(group, users[0])] + AddCalls(group, users[1..])
  }

  function RemoveCalls(group: nat, users: seq<nat>): (r: seq<Call>)
    ensures |r| == |users|
    ensures forall i :: 0 <= i < |r| ==> r[i] == RemoveUser(group, users[i])
  {
    if users == [] then [] else [RemoveUser(group, users[0])] + RemoveCalls(group, users[1..])
  }

  /** The requests of one change: every addition, then every removal. */
  function Planned(group: nat, oldKeys: seq<nat>, newKeys: seq<nat>): seq<Call> {
    AddCalls(group, Added(oldKeys, newKeys)) + RemoveCalls(group, Removed(oldKeys, newKeys))
  }

  /** The group's members after the server accepted `calls` in order. */
  function Apply(members: set<nat>, calls: seq<Call>): set<nat>
    decreases calls
  {
    if calls == [] then members
    else
      var next := match calls[0]
        case AddUser(_, u) => members + {u}
        case RemoveUser(_, u) => members - {u};
      Apply(next, calls[1..])
  }

  lemma {:induction false} ApplyAdds(members: set<nat>, group: nat, users: seq<nat>)
    ensures Apply(members, AddCalls(group, users)) == members + Elems(users)
    decreases users
  {
    if users != [] {
      ApplyAdds(members + {users[0]}, group, users[1..]);
    }
  }

  lemma {:induction false} ApplyRemoves(members: set<nat>, group: nat, users: seq<nat>)
    ensures Apply(members, RemoveCalls(group, users)) == members - Elems(users)
    decreases users
  {
    if users != [] {
      ApplyRemoves(members - {users[0]}, group, users[1..]);
    }
  }

  lemma {:induction false} ApplyConcat(members: set<nat>, a: seq<Call>, b: seq<Call>)
    ensures Apply(members, a + b) == Apply(Apply(members, a), b)
    decreases a
  {
    if a == [] {
      assert a + b == b;
    } else {
      assert (a + b)[1..] == a[1..] + b;
      var next := match a[0]
        case AddUser(_, u) => members + {u}
        case RemoveUser(_, u) => members - {u};
      ApplyConcat(next, a[1..], b);
    }
  }

  /** When the server accepts every request, the group ends with exactly the
      chosen members. */
  lemma ReachesChoice(group: nat, oldKeys: seq<nat>, newKeys: seq<nat>)
    ensures Apply(Elems(oldKeys), Planned(group, oldKeys, newKeys)) == Elems(newKeys)
  {
    var added := Added(oldKeys, newKeys);
    var removed := Removed(oldKeys, newKeys);
    var start := Elems(oldKeys);
    ApplyConcat(start, AddCalls(group, added), RemoveCalls(group, removed));
    ApplyAdds(start, group, added);
    ApplyRemoves(start + Elems(added), group, removed);
    forall x
      ensures x in (start + Elems(added)) - Elems(removed) <==> x in newKeys
    {
      DiffExact(oldKeys, newKeys, x);
    }
  }

  /** The index of the first call the server refuses. */
  function FirstRefused(calls: seq<Call>, refused: set<Call>): (r: Option<nat>)
    ensures r.Some? ==> r.value < |calls|
  {
    if calls == [] then None
    else if calls[0] in refused then Some(0)
    else
      var rest := FirstRefused(calls[1..], refused);
      if rest.None? then None else Some(rest.value + 1)
  }

  /** The requests sent when `calls` are issued in order until one is
      refused, that one included. */
  function Issued(calls: seq<Call>, refused: set<Call>): seq<Call> {
    var stop := FirstRefused(calls, refused);
    if stop.None? then calls else calls[..stop.value + 1]
  }

  /** No call is refused exactly when there is no first refused call; the
      first refused call is refused and every call before it accepted. */
  lemma {:induction false} FirstRefusedMeaning(calls: seq<Call>, refused: set<Call>)
    ensures var r := FirstRefused(calls, refused);
            && (r.None? <==> forall i :: 0 <= i < |calls| ==> calls[i] !in refused)
            && (r.Some? ==> calls[r.value] in refused && forall i :: 0 <= i < r.value ==> calls[i] !in refused)
    decreases calls
  {
    if calls != [] && calls[0] !in refused {
      FirstRefusedMeaning(calls[1..], refused);
      var rest := FirstRefused(calls[1..], refused);
      if rest.None? {
        forall i | 0 <= i < |calls|
          ensures calls[i] !in refused
        {
          if i > 0 {
            assert calls[i] == calls[1..][i - 1];
          }
        }
      } else {
        forall i | 0 <= i < rest.value + 1
          ensures calls[i] !in refused
        {
          if i > 0 {
            assert calls[i] == calls[1..][i - 1];
          }
        }
      }
    }
  }

  /** A refused call with every earlier call accepted is the first refused
      one. */
  lemma FirstRefusedAt(calls: seq<Call>, refused: set<Call>, i: nat)
    requires i < |calls| && calls[i] in refused
    requires forall j :: 0 <= j < i ==> calls[j] !in refused
    ensures FirstRefused(calls, refused) == Some(i)
  {
    FirstRefusedMeaning(calls, refused);
  }

  /** With every call accepted there is no refused one, and all are
      issued. */
  lemma FirstRefusedNone(calls: seq<Call>, refused: set<Call>)
    requires forall j :: 0 <= j < |calls| ==> calls[j] !in refused
    ensures FirstRefused(calls, refused).None?
    ensures Issued(calls, refused) == calls
  {
    FirstRefusedMeaning(calls, refused);
  }

  /** A refused call with every earlier call accepted is the last one
      issued. */
  lemma IssuedUpTo(calls: seq<Call>, refused: set<Call>, i: nat)
    requires i < |calls| && calls[i] in refused
    requires forall j :: 0 <= j < i ==> calls[j] !in refused
    ensures FirstRefused(calls, refused).Some?
    ensures Issued(calls, refused) == calls[..i + 1]
  {
    FirstRefusedAt(calls, refused, i);
  }

  /** A refusal in the first batch stops there. */
  lemma RefusedInFirst(a: seq<Call>, b: seq<Call>, refused: set<Call>)
    requires FirstRefused(a, refused).Some?
    ensures FirstRefused(a + b, refused) == FirstRefused(a, refused)
    ensures Issued(a + b, refused) == Issued(a, refused)
  {
    var k := FirstRefused(a, refused).value;
    FirstRefusedMeaning(a, refused);
    FirstRefusedAt(a + b, refused, k);
    assert (a + b)[..k + 1] == a[..k + 1];
  }

  /** After an accepted first batch, a refusal in the second stops there. */
  lemma RefusedInSecond(a: seq<Call>, b: seq<Call>, refused: set<Call>)
    requires FirstRefused(a, refused).None? && FirstRefused(b, refused).Some?
    ensures FirstRefused(a + b, refused).Some?
    ensures Issued(a + b, refused) == a + Issued(b, refused)
    ensures forall before :: before + Issued(a, refused) + Issued(b, refused) == before + Issued(a + b, refused)
  {
    var k := FirstRefused(b, refused).value;
    FirstRefusedMeaning(a, refused);
    FirstRefusedMeaning(b, refused);
    FirstRefusedAt(a + b, refused, |a| + k);
    assert (a + b)[..|a| + k + 1] == a + b[..k + 1];
  }

  /** Two accepted batches make an accepted concatenation. */
  lemma RefusedInNeither(a: seq<Call>, b: seq<Call>, refused: set<Call>)
    requires FirstRefused(a, refused).None? && FirstRefused(b, refused).None?
    ensures FirstRefused(a + b, refused).None?
    ensures forall before :: before + Issued(a, refused) + Issued(b, refused) == before + Issued(a + b, refused)
  {
    FirstRefusedMeaning(a, refused);
    FirstRefusedMeaning(b, refused);
    forall i | 0 <= i < |a + b|
      ensures (a + b)[i] !in refused
    {
      if i >= |a| {
        assert (a + b)[i] == b[i - |a|];
      }
    }
    FirstRefusedNone(a + b, refused);
  }

  /** The page state: the members shown, and the requests sent so far. */
  class MemberEditor {
    var targetKeys: seq<nat>
    var sent: seq<Call>

    constructor(targetKeys: seq<nat>)
      ensures this.targetKeys == targetKeys && sent == []
    {
      this.targetKeys := targetKeys;
      sent := [];
    }

    /** One awaited request; the server refuses the calls in `refused`. */
    method Send(c: Call, refused: set<Call>) returns (accepted: bool)
      modifies this`sent
      ensures sent == old(sent) + [c]
      ensures accepted <==> c !in refused
    {
      sent := sent + [c];
      accepted := c !in refused;
    }

    /** The loop over the added users: one awaited addUser request each,
        stopping at the first refused one. */
    method AddAll(group: nat, users: seq<nat>, refused: set<Call>) returns (ok: bool)
      modifies this`sent
      ensures ok <==> FirstRefused(AddCalls(group, users), refused).None?
      ensures sent == old(sent) + Issued(AddCalls(group, users), refused)
    {
      ghost var calls := AddCalls(group, users);
      var i := 0;
      while i < |users|
        invariant 0 <= i <= |users|
        invariant sent == old(sent) + calls[..i]
        invariant forall j :: 0 <= j < i ==> calls[j] !in refused
      {
        assert calls[i] == AddUser(group, users[i]);
        var accepted := Send(AddUser(group, users[i]), refused);
        assert calls[..i + 1] == calls[..i] + [calls[i]];
        if !accepted {
          IssuedUpTo(calls, refused, i);
          return false;
        }
        i := i + 1;
      }
      assert calls[..i] == calls;
      FirstRefusedNone(calls, refused);
      ok := true;
    }

    /** The loop over the removed users, likewise with removeUser. */
    method RemoveAll(group: nat, users: seq<nat>, refused: set<Call>) returns (ok: bool)
      modifies this`sent
      ensures ok <==> FirstRefused(RemoveCalls(group, users), refused).None?
      ensures sent == old(sent) + Issued(RemoveCalls(group, users), refused)
    {
      ghost var calls := RemoveCalls(group, users);
      var i := 0;
      while i < |users|
        invariant 0 <= i <= |users|
        invariant sent == old(sent) + calls[..i]
        invariant forall j :: 0 <= j < i ==> calls[j] !in refused
      {
        assert calls[i] == RemoveUser(group, users[i]);
        var accepted := Send(RemoveUser(group, users[i]), refused);
        assert calls[..i + 1] == calls[..i] + [calls[i]];
        if !accepted {
          IssuedUpTo(calls, refused, i);
          return false;
        }
        i := i + 1;
      }
      assert calls[..i] == calls;
      FirstRefusedNone(calls, refused);
      ok := true;
    }

    /** handleMemberChange: the additions, then the removals, one awaited
        request at a time. The first refused request stops the rest and
        leaves the shown members as they were; when all are accepted the
        chosen members are shown. */
    method HandleMemberChange(group: nat, newKeys: seq<nat>, refused: set<Call>) returns (ok: bool)
      modifies this
      ensures ok <==> FirstRefused(Planned(group, old(targetKeys), newKeys), refused).None?
      ensures sent == old(sent) + Issued(Planned(group, old(targetKeys), newKeys), refused)
      ensures targetKeys == if ok then newKeys else old(targetKeys)
    {
      var oldKeys := targetKeys;
      var added := Without(newKeys, oldKeys);
      var removed := Without(oldKeys, newKeys);
      ghost var adds := AddCalls(group, added);
      ghost var removes := RemoveCalls(group, removed);
      assert Planned(group, oldKeys, newKeys) == adds + removes;
      ok := AddAll(group, added, refused);
      if !ok {
        RefusedInFirst(adds, removes, refused);
        return;
      }
      ok := RemoveAll(group, removed, refused);
      if !ok {
        RefusedInSecond(adds, removes, refused);
        return;
      }
      RefusedInNeither(adds, removes, refused);
      targetKeys := newKeys;
    }
  }
}
