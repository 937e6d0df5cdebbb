/** The document store the handlers are given (`c.get("databases")`): four
    collections held in memory, and the id generator `ID.unique()`. */
module Database {
  import opened Records

  /** What every state the handlers produce satisfies: each id handed out so
      far is below `nextId`, a membership row only names a workspace id that
      was handed out, no two workspaces or projects share an id, and no
      (user, workspace) pair has two rows. */
  ghost predicate Consistent(workspaces: seq<Workspace>, members: seq<Member>, projects: seq<Project>, nextId: nat) {
    && (forall w :: w in workspaces ==> w.id < nextId)
    && (forall m :: m in members ==> m.id < nextId && m.workspaceId < nextId)
    && (forall p :: p in projects ==> p.id < nextId)
    && DistinctWorkspaceIds(workspaces) && DistinctProjectIds(projects)
    && UniqueMemberships(members)
  }

  class Store {
    var workspaces: seq<Workspace>
    var members: seq<Member>
    var projects: seq<Project>
    /** Written by the task endpoints, which are not part of this model. */
    var tasks: seq<Task>
    /** The next id `ID.unique()` hands out. */
    var nextId: nat

    ghost predicate Valid()
      reads this
    {
      Consistent(workspaces, members, projects, nextId)
    }

    constructor (workspaces: seq<Workspace>, members: seq<Member>, projects: seq<Project>, tasks: seq<Task>, nextId: nat)
      requires Consistent(workspaces, members, projects, nextId)
      ensures Valid()
      ensures this.workspaces == workspaces && this.members == members && this.projects == projects
      ensures this.tasks == tasks && this.nextId == nextId
    {
      this.workspaces := workspaces;
      this.members := members;
      this.projects := projects;
      this.tasks := tasks;
      this.nextId := nextId;
    }

    /** `ID.unique()`: an id no stored document has. */
    method UniqueId() returns (id: Id)
      requires Valid()
      modifies this`nextId
      ensures Valid()
      ensures id == old(nextId) && nextId == id + 1
      ensures forall w :: w in workspaces ==> w.id != id
      ensures forall m :: m in members ==> m.id != id && m.workspaceId != id
      ensures forall p :: p in projects ==> p.id != id
    {
      id := nextId;
      nextId := nextId + 1;
    }

    /** createDocument on the members collection, for a pair that has no row
        yet and a workspace id that was handed out. */
    method AddMember(userId: Id, workspaceId: Id, role: MemberRole) returns (m: Member)
      requires Valid() && workspaceId < nextId && !IsMember(members, workspaceId, userId)
      modifies this`members, this`nextId
      ensures Valid()
      ensures m == Member(old(nextId), userId, workspaceId, role) && nextId == old(nextId) + 1
      ensures members == old(members) + [m]
      ensures GetMember(members, workspaceId, userId) == Some(m)
    {
      var id := UniqueId();
      m := Member(id, userId, workspaceId, role);
      AppendKeepsMembershipsUnique(members, m);
      members := members + [m];
      GetMemberFindsTheRow(members, |members| - 1);
      assert members[|members| - 1] == m;
    }
  }

  /** updateDocument on the workspaces collection: the stored workspace with
      the id of `w` is replaced by `w`; every other one is kept in place. */
  function ReplaceWorkspace(workspaces: seq<Workspace>, w: Workspace): (r: seq<Workspace>)
    ensures |r| == |workspaces|
    ensures forall i :: 0 <= i < |r| ==> r[i].id == workspaces[i].id
    ensures forall i :: 0 <= i < |r| && workspaces[i].id != w.id ==> r[i] == workspaces[i]
    ensures forall x :: x in r ==> x in workspaces || x == w
    ensures (exists x :: x in workspaces && x.id == w.id) ==> w in r
    ensures DistinctWorkspaceIds(workspaces) ==> DistinctWorkspaceIds(r)
  {
    seq(|workspaces|, i requires 0 <= i < |workspaces| => if workspaces[i].id == w.id then w else workspaces[i])
  }

  /** updateDocument on the projects collection. */
  function ReplaceProject(projects: seq<Project>, p: Project): (r: seq<Project>)
    ensures |r| == |projects|
    ensures forall i :: 0 <= i < |r| ==> r[i].id == projects[i].id
    ensures forall i :: 0 <= i < |r| && projects[i].id != p.id ==> r[i] == projects[i]
    ensures forall x :: x in r ==> x in projects || x == p
    ensures (exists x :: x in projects && x.id == p.id) ==> p in r
    ensures DistinctProjectIds(projects) ==> DistinctProjectIds(r)
  {
    seq(|projects|, i requires 0 <= i < |projects| => if projects[i].id == p.id then p else projects[i])
  }

  /** deleteDocument on the workspaces collection: exactly the documents with
      another id remain, in their order. */
  function RemoveWorkspace(workspaces: seq<Workspace>, id: Id): (r: seq<Workspace>)
    ensures forall w :: w in r <==> w in workspaces && w.id != id
    ensures |r| <= |workspaces|
    ensures DistinctWorkspaceIds(workspaces) ==> DistinctWorkspaceIds(r)
  {
    if workspaces == [] then []
    else
      var rest := RemoveWorkspace(workspaces[1..], id);
      assert DistinctWorkspaceIds(workspaces) ==> DistinctWorkspaceIds(workspaces[1..]) by {
        if DistinctWorkspaceIds(workspaces) {
          forall i, j | 0 <= i < j < |workspaces[1..]| ensures workspaces[1..][i].id != workspaces[1..][j].id {
            assert workspaces[1..][i] == workspaces[i + 1] && workspaces[1..][j] == workspaces[j + 1];
          }
        }
      }
      if workspaces[0].id == id then rest
      else
        assert DistinctWorkspaceIds(workspaces) ==> forall x :: x in rest ==> x.id != workspaces[0].id by {
          if DistinctWorkspaceIds(workspaces) {
            forall x | x in rest ensures x.id != workspaces[0].id {
              var k :| 0 <= k < |workspaces[1..]| && workspaces[1..][k] == x;
              assert x == workspaces[k + 1];
            }
          }
        }
        assert forall i :: 0 < i < |[workspaces[0]] + rest| ==> ([workspaces[0]] + rest)[i] == rest[i - 1];
        assert forall i :: 0 <= i < |rest| ==> rest[i] in rest;
        [workspaces[0]] + rest
  }

  /** deleteDocument on the projects collection. */
  function RemoveProject(projects: seq<Project>, id: Id): (r: seq<Project>)
    ensures forall p :: p in r <==> p in projects && p.id != id
    ensures |r| <= |projects|
    ensures DistinctProjectIds(projects) ==> DistinctProjectIds(r)
  {
    if projects == [] then []
    else
      var rest := RemoveProject(projects[1..], id);
      assert DistinctProjectIds(projects) ==> DistinctProjectIds(projects[1..]) by {
        if DistinctProjectIds(projects) {
          forall i, j | 0 <= i < j < |projects[1..]| ensures projects[1..][i].id != projects[1..][j].id {
            assert projects[1..][i] == projects[i + 1] && projects[1..][j] == projects[j + 1];
          }
        }
      }
      if projects[0].id == id then rest
      else
        assert DistinctProjectIds(projects) ==> forall x :: x in rest ==> x.id != projects[0].id by {
          if DistinctProjectIds(projects) {
            forall x | x in rest ensures x.id != projects[0].id {
              var k :| 0 <= k < |projects[1..]| && projects[1..][k] == x;
              assert x == projects[k + 1];
            }
          }
        }
        assert forall i :: 0 < i < |[projects[0]] + rest| ==> ([projects[0]] + rest)[i] == rest[i - 1];
        assert forall i :: 0 <= i < |rest| ==> rest[i] in rest;
        [projects[0]] + rest
  }
}
