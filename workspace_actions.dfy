/** The server action `getWorkspaces`: the workspaces the signed-in user
    holds a membership row in, newest first. */
module WorkspaceActions {
  import opened Records
  import opened Ordering

  /** `listDocuments(MEMBERS, [Query.equal("userId", userId)])`. */
  function MembershipsOf(members: seq<Member>, userId: Id): (r: seq<Member>)
    ensures forall m :: m in r <==> m in members && m.userId == userId
  {
    if members == [] then []
    else if members[0].userId == userId then [members[0]] + MembershipsOf(members[1..], userId)
    else MembershipsOf(members[1..], userId)
  }

  /** `members.documents.map((member) => member.workspaceId)`. */
  function WorkspaceIdsOf(memberships: seq<Member>): (r: seq<Id>)
    ensures |r| == |memberships|
    ensures forall x :: x in r <==> exists m :: m in memberships && m.workspaceId == x
  {
    var ids := seq(|memberships|, i requires 0 <= i < |memberships| => memberships[i].workspaceId);
    assert forall x :: x in ids <==> exists m :: m in memberships && m.workspaceId == x by {
      forall x ensures x in ids <==> exists m :: m in memberships && m.workspaceId == x {
        if x in ids {
          var i :| 0 <= i < |ids| && ids[i] == x;
          assert memberships[i] in memberships;
        }
        if exists m :: m in memberships && m.workspaceId == x {
          var m :| m in memberships && m.workspaceId == x;
          var i :| 0 <= i < |memberships| && memberships[i] == m;
          assert ids[i] == x;
        }
      }
    }
    ids
  }

  /** `listDocuments(WORKSPACES, [Query.contains("$id", ids)])`, in store order. */
  function WithIds(workspaces: seq<Workspace>, ids: seq<Id>): (r: seq<Workspace>)
    ensures forall w :: w in r <==> w in workspaces && w.id in ids
    ensures forall w :: multiset(r)[w] == if w.id in ids then multiset(workspaces)[w] else 0
  {
    if workspaces == [] then []
    else
      var rest := WithIds(workspaces[1..], ids);
      assert workspaces == [workspaces[0]] + workspaces[1..];
      if workspaces[0].id in ids then [workspaces[0]] + rest else rest
  }

  /** Some membership row of `userId` names workspace `workspaceId`. */
  ghost predicate Joined(members: seq<Member>, userId: Id, workspaceId: Id) {
    exists m :: m in members && m.userId == userId && m.workspaceId == workspaceId
  }

  /** Lines 13-23 of the action, given the caller's membership rows. */
  function WorkspacesOfMemberships(mine: seq<Member>, workspaces: seq<Workspace>): (r: DocumentList<Workspace>)
    ensures r.total == |r.documents|
    ensures mine == [] ==> r == DocumentList([], 0)
    ensures forall w :: w in r.documents <==> w in workspaces && exists m :: m in mine && m.workspaceId == w.id
    ensures forall w :: multiset(r.documents)[w] ==
              if exists m :: m in mine && m.workspaceId == w.id then multiset(workspaces)[w] else 0
    ensures NewestFirst(r.documents, CreatedAt)
  {
    if |mine| == 0 then
      DocumentList([], 0)
    else
      var ids := WorkspaceIdsOf(mine);
      var found := SortNewestFirst(WithIds(workspaces, ids), CreatedAt);
      assert forall w :: w in found <==> w in WithIds(workspaces, ids) by {
        forall w ensures w in found <==> w in WithIds(workspaces, ids) {
          assert w in found <==> w in multiset(found);
          assert w in WithIds(workspaces, ids) <==> w in multiset(WithIds(workspaces, ids));
        }
      }
      DocumentList(found, |found|)
  }

  function GetWorkspaces(members: seq<Member>, workspaces: seq<Workspace>, userId: Id): (r: DocumentList<Workspace>)
    ensures r.total == |r.documents|
    ensures (forall m :: m in members ==> m.userId != userId) ==> r == DocumentList([], 0)
    ensures forall w :: w in r.documents <==> w in workspaces && Joined(members, userId, w.id)
    ensures forall w :: multiset(r.documents)[w] == if Joined(members, userId, w.id) then multiset(workspaces)[w] else 0
    ensures NewestFirst(r.documents, CreatedAt)
  {
    var mine := MembershipsOf(members, userId);
    assert mine != [] ==> mine[0] in mine;
    WorkspacesOfMemberships(mine, workspaces)
  }

  /** Since stored workspace ids are distinct, each of the user's workspaces
      is listed exactly once, so `total` is the number of those workspaces. */
  lemma EachWorkspaceListedOnce(members: seq<Member>, workspaces: seq<Workspace>, userId: Id, w: Workspace)
    requires DistinctWorkspaceIds(workspaces)
    requires w in workspaces && Joined(members, userId, w.id)
    ensures multiset(GetWorkspaces(members, workspaces, userId).documents)[w] == 1
  {
    DistinctWorkspacesStoredOnce(workspaces, w);
  }

  /** Selecting a user's memberships distributes over concatenation. */
  lemma {:induction false} MembershipsOfAppend(a: seq<Member>, b: seq<Member>, userId: Id)
    ensures MembershipsOf(a + b, userId) == MembershipsOf(a, userId) + MembershipsOf(b, userId)
  {
    if a == [] {
      assert a + b == b;
    } else {
      assert (a + b)[0] == a[0];
      assert (a + b)[1..] == a[1..] + b;
      MembershipsOfAppend(a[1..], b, userId);
    }
  }

  /** Only the caller's own membership rows are consulted: another user's
      row, wherever it is stored, changes nothing in the result. */
  lemma OtherUsersRowsIgnored(a: seq<Member>, m: Member, b: seq<Member>, workspaces: seq<Workspace>, userId: Id)
    requires m.userId != userId
    ensures GetWorkspaces(a + [m] + b, workspaces, userId) == GetWorkspaces(a + b, workspaces, userId)
  {
    var x, y := MembershipsOf(a, userId), MembershipsOf(b, userId);
    assert MembershipsOf(a + [m] + b, userId) == x + y by {
      MembershipsOfAppend(a + [m], b, userId);
      MembershipsOfAppend(a, [m], userId);
      assert MembershipsOf([m], userId) == [];
      assert x + [] == x;
    }
    assert MembershipsOf(a + b, userId) == x + y by {
      MembershipsOfAppend(a, b, userId);
    }
  }
}
