/** The workspace endpoints. The read-only ones (list, get, info, analytics)
    are functions of the collections they read; the ones that write (create,
    patch, delete, reset-invite-code, join) are methods on the store. */
module WorkspaceRoutes {
  import opened Records
  import opened Ordering
  import opened InviteCode
  import opened Analytics
  import opened Database
  import WorkspaceActions

  /** GET / : the caller's workspaces, newest first; never refused. */
  function ListWorkspaces(members: seq<Member>, workspaces: seq<Workspace>, userId: Id): (r: Reply<DocumentList<Workspace>>)
    ensures r.Ok? && r.data.total == |r.data.documents|
    ensures forall w :: w in r.data.documents <==> w in workspaces && WorkspaceActions.Joined(members, userId, w.id)
    ensures forall w :: multiset(r.data.documents)[w] ==
              if WorkspaceActions.Joined(members, userId, w.id) then multiset(workspaces)[w] else 0
    ensures NewestFirst(r.data.documents, CreatedAt)
  {
    Ok(WorkspaceActions.GetWorkspaces(members, workspaces, userId))
  }

  /** GET /:workspaceId : members only; 401 exactly when the caller has no
      membership row, otherwise the stored workspace. */
  function GetWorkspace(members: seq<Member>, workspaces: seq<Workspace>, userId: Id, workspaceId: Id): (r: Reply<Workspace>)
    ensures r.Err? <==> !IsMember(members, workspaceId, userId)
    ensures r.Err? ==> r == Err(401, "Unauthorized")
    ensures r.DocumentNotFound? <==> IsMember(members, workspaceId, userId) && forall w :: w in workspaces ==> w.id != workspaceId
    ensures r.Ok? ==> r.data in workspaces && r.data.id == workspaceId
  {
    if GetMember(members, workspaceId, userId).None? then Err(401, "Unauthorized")
    else
      match FindWorkspace(workspaces, workspaceId)
      case None => DocumentNotFound
      case Some(w) => Ok(w)
  }

  /** GET /:workspaceId/info : id, name and image of a stored workspace, for
      any signed-in user; no membership is looked up. */
  function GetWorkspaceInfo(workspaces: seq<Workspace>, workspaceId: Id): (r: Reply<WorkspaceInfo>)
    ensures !r.Err?
    ensures r.DocumentNotFound? <==> forall w :: w in workspaces ==> w.id != workspaceId
    ensures r.Ok? ==> exists w :: w in workspaces && w.id == workspaceId && r.data == WorkspaceInfo(w.id, w.name, w.image)
  {
    match FindWorkspace(workspaces, workspaceId)
    case None => DocumentNotFound
    case Some(w) => Ok(WorkspaceInfo(w.id, w.name, w.image))
  }

  /** GET /:workspaceId/analytics : 401 before anything is counted when the
      caller is not a member; otherwise the report over the workspace's tasks,
      with "assigned" meaning assigned to the caller's member row. Whether the
      workspace itself is stored is not checked. */
  function GetWorkspaceAnalytics(members: seq<Member>, tasks: seq<Task>, userId: Id, workspaceId: Id, cal: Calendar): (r: Reply<Report>)
    ensures !r.DocumentNotFound?
    ensures r.Err? <==> !IsMember(members, workspaceId, userId)
    ensures r.Err? ==> r == Err(401, "Unauthorized")
    ensures r.Ok? ==> r.data == Compute(tasks, InWorkspace(workspaceId), GetMember(members, workspaceId, userId).value.id, cal)
  {
    match GetMember(members, workspaceId, userId)
    case None => Err(401, "Unauthorized")
    case Some(member) => Ok(Compute(tasks, InWorkspace(workspaceId), member.id, cal))
  }

  /** POST / : stores a workspace owned by the caller with a fresh id and the
      12-character invite code `inviteCode` (what `generateInviteCode(12)`
      returned), then an ADMIN membership row linking the caller to it. */
  method CreateWorkspace(db: Store, userId: Id, name: string, image: ImageField, inviteCode: string, now: int)
    returns (r: Reply<Workspace>)
    requires db.Valid() && |inviteCode| == 12
    modifies db
    ensures db.Valid()
    ensures r.Ok? && r.data == Workspace(old(db.nextId), now, name, userId, UploadedImage(image), inviteCode)
    ensures forall w :: w in old(db.workspaces) ==> w.id != r.data.id
    ensures db.workspaces == old(db.workspaces) + [r.data]
    ensures db.members == old(db.members) + [Member(old(db.nextId) + 1, userId, r.data.id, ADMIN)]
    ensures IsAdmin(db.members, r.data.id, userId)
    ensures db.projects == old(db.projects) && db.tasks == old(db.tasks)
    ensures db.nextId == old(db.nextId) + 2
  {
    var id := db.UniqueId();
    var workspace := Workspace(id, now, name, userId, UploadedImage(image), inviteCode);
    db.workspaces := db.workspaces + [workspace];
    assert !IsMember(db.members, id, userId) by {
      forall i | 0 <= i < |db.members| ensures db.members[i].workspaceId != id {
        assert db.members[i] in db.members;
      }
    }
    var admin := db.AddMember(userId, id, ADMIN);
    r := Ok(workspace);
  }

  /** PATCH /:workspaceId : admins only. Name and image of that workspace are
      updated (an absent field keeps its value); nothing else changes. */
  method PatchWorkspace(db: Store, userId: Id, workspaceId: Id, name: Option<string>, image: ImageField)
    returns (r: Reply<Workspace>)
    requires db.Valid()
    modifies db
    ensures db.Valid()
    ensures r.Err? <==> !IsAdmin(old(db.members), workspaceId, userId)
    ensures r.Err? ==> r == Err(401, "Unauthorized")
    ensures r.DocumentNotFound? <==> IsAdmin(old(db.members), workspaceId, userId) && FindWorkspace(old(db.workspaces), workspaceId).None?
    ensures !r.Ok? ==> unchanged(db)
    ensures r.Ok? ==>
      var w := FindWorkspace(old(db.workspaces), workspaceId).value;
      && r.data == w.(name := Patched(w.name, name), image := PatchedImage(w.image, image))
      && |db.workspaces| == |old(db.workspaces)|
      && (forall i :: 0 <= i < |db.workspaces| ==>
            db.workspaces[i] == if old(db.workspaces)[i].id == workspaceId then r.data else old(db.workspaces)[i])
      && db.members == old(db.members) && db.projects == old(db.projects)
      && db.tasks == old(db.tasks) && db.nextId == old(db.nextId)
  {
    var member := GetMember(db.members, workspaceId, userId);
    if member.None? || member.value.role != ADMIN {
      return Err(401, "Unauthorized");
    }
    var found := FindWorkspace(db.workspaces, workspaceId);
    if found.None? {
      return DocumentNotFound;
    }
    var w := found.value;
    var updated := w.(name := Patched(w.name, name), image := PatchedImage(w.image, image));
    db.workspaces := ReplaceWorkspace(db.workspaces, updated);
    assert forall x :: x in db.workspaces ==> x in old(db.workspaces) || x == updated;
    r := Ok(updated);
  }

  /** DELETE /:workspaceId : admins only. Removes the workspace document and
      nothing else: its members, projects and tasks stay stored. */
  method DeleteWorkspace(db: Store, userId: Id, workspaceId: Id) returns (r: Reply<Id>)
    requires db.Valid()
    modifies db
    ensures db.Valid()
    ensures r.Err? <==> !IsAdmin(old(db.members), workspaceId, userId)
    ensures r.Err? ==> r == Err(401, "Unauthorized")
    ensures r.DocumentNotFound? <==> IsAdmin(old(db.members), workspaceId, userId) && FindWorkspace(old(db.workspaces), workspaceId).None?
    ensures !r.Ok? ==> unchanged(db)
    ensures r.Ok? ==> r.data == workspaceId && db.workspaces == RemoveWorkspace(old(db.workspaces), workspaceId)
    ensures r.Ok? ==> db.members == old(db.members) && db.projects == old(db.projects)
                      && db.tasks == old(db.tasks) && db.nextId == old(db.nextId)
  {
    var member := GetMember(db.members, workspaceId, userId);
    if member.None? || member.value.role != ADMIN {
      return Err(401, "Unauthorized");
    }
    if FindWorkspace(db.workspaces, workspaceId).None? {
      return DocumentNotFound;
    }
    db.workspaces := RemoveWorkspace(db.workspaces, workspaceId);
    r := Ok(workspaceId);
  }

  /** POST /:workspaceId/reset-invite-code : admins only. Only the invite
      code of that workspace changes, to `newCode` (what
      `generateInviteCode(12)` returned). */
  method ResetInviteCode(db: Store, userId: Id, workspaceId: Id, newCode: string) returns (r: Reply<Workspace>)
    requires db.Valid() && |newCode| == 12
    modifies db
    ensures db.Valid()
    ensures r.Err? <==> !IsAdmin(old(db.members), workspaceId, userId)
    ensures r.Err? ==> r == Err(401, "Unauthorized")
    ensures r.DocumentNotFound? <==> IsAdmin(old(db.members), workspaceId, userId) && FindWorkspace(old(db.workspaces), workspaceId).None?
    ensures !r.Ok? ==> unchanged(db)
    ensures r.Ok? ==>
      var w := FindWorkspace(old(db.workspaces), workspaceId).value;
      && r.data == w.(inviteCode := newCode)
      && FindWorkspace(db.workspaces, workspaceId) == Some(r.data)
      && |db.workspaces| == |old(db.workspaces)|
      && (forall i :: 0 <= i < |db.workspaces| ==>
            db.workspaces[i] == if old(db.workspaces)[i].id == workspaceId then r.data else old(db.workspaces)[i])
      && db.members == old(db.members) && db.projects == old(db.projects)
      && db.tasks == old(db.tasks) && db.nextId == old(db.nextId)
  {
    var member := GetMember(db.members, workspaceId, userId);
    if member.None? || member.value.role != ADMIN {
      return Err(401, "Unauthorized");
    }
    var found := FindWorkspace(db.workspaces, workspaceId);
    if found.None? {
      return DocumentNotFound;
    }
    var updated := found.value.(inviteCode := newCode);
    ReplacedIsFound(db.workspaces, updated);
    db.workspaces := ReplaceWorkspace(db.workspaces, updated);
    assert forall x :: x in db.workspaces ==> x in old(db.workspaces) || x == updated;
    r := Ok(updated);
  }

  /** POST /:workspaceId/join : the NOT_MEMBER -> MEMBER transition. A member
      is refused with 400 "Already a Member"; otherwise the caller joins, as
      MEMBER, exactly when the stored and supplied codes are equal once
      trimmed and lower-cased, and is refused with 400 "Invalid Invite Code"
      when they are not. A refusal changes nothing. */
  method JoinWorkspace(db: Store, userId: Id, workspaceId: Id, code: string) returns (r: Reply<Workspace>)
    requires db.Valid()
    modifies db
    ensures db.Valid()
    ensures IsMember(old(db.members), workspaceId, userId) ==> r == Err(400, "Already a Member")
    ensures !IsMember(old(db.members), workspaceId, userId) ==>
              FindWorkspace(old(db.workspaces), workspaceId).None? ==> r == DocumentNotFound
    ensures !IsMember(old(db.members), workspaceId, userId) ==>
              FindWorkspace(old(db.workspaces), workspaceId).Some? ==>
                var w := FindWorkspace(old(db.workspaces), workspaceId).value;
                r == if CodesMatch(w.inviteCode, code) then Ok(w) else Err(400, "Invalid Invite Code")
    ensures !r.Ok? ==> unchanged(db)
    ensures r.Ok? ==> db.members == old(db.members) + [Member(old(db.nextId), userId, workspaceId, MEMBER)]
    ensures r.Ok? ==> GetMember(db.members, workspaceId, userId) == Some(Member(old(db.nextId), userId, workspaceId, MEMBER))
    ensures r.Ok? ==> db.workspaces == old(db.workspaces) && db.projects == old(db.projects) && db.tasks == old(db.tasks)
    ensures r.Ok? ==> db.nextId == old(db.nextId) + 1
    ensures IsMember(db.members, workspaceId, userId) <==> IsMember(old(db.members), workspaceId, userId) || r.Ok?
  {
    if GetMember(db.members, workspaceId, userId).Some? {
      return Err(400, "Already a Member");
    }
    var found := FindWorkspace(db.workspaces, workspaceId);
    if found.None? {
      return DocumentNotFound;
    }
    var w := found.value;
    if !CodesMatch(w.inviteCode, code) {
      return Err(400, "Invalid Invite Code");
    }
    assert w in db.workspaces;
    var joined := db.AddMember(userId, workspaceId, MEMBER);
    r := Ok(w);
  }

  /** After an admin resets the invite code, a non-member supplying a code
      that does not match the new one (for instance the previous code) is
      refused. */
  method ResetInvalidatesOldCode(db: Store, admin: Id, joiner: Id, workspaceId: Id, newCode: string, oldCode: string)
    returns (reset: Reply<Workspace>, join: Reply<Workspace>)
    requires db.Valid() && |newCode| == 12
    requires IsAdmin(db.members, workspaceId, admin) && !IsMember(db.members, workspaceId, joiner)
    requires FindWorkspace(db.workspaces, workspaceId).Some?
    requires !CodesMatch(newCode, oldCode)
    modifies db
    ensures reset.Ok? && reset.data.inviteCode == newCode
    ensures join == Err(400, "Invalid Invite Code") && db.members == old(db.members)
  {
    reset := ResetInviteCode(db, admin, workspaceId, newCode);
    join := JoinWorkspace(db, joiner, workspaceId, oldCode);
  }

  /** After an update, a look-up by the updated id finds the new document. */
  lemma {:induction false} ReplacedIsFound(workspaces: seq<Workspace>, w: Workspace)
    requires FindWorkspace(workspaces, w.id).Some?
    ensures FindWorkspace(ReplaceWorkspace(workspaces, w), w.id) == Some(w)
  {
    var r := ReplaceWorkspace(workspaces, w);
    if workspaces[0].id != w.id {
      ReplacedIsFound(workspaces[1..], w);
      assert ReplaceWorkspace(workspaces, w)[1..] == ReplaceWorkspace(workspaces[1..], w);
    }
  }
}
