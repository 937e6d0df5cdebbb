/** The project endpoints. Any member of a workspace may use them; patch,
    delete, get and analytics authorise against the workspace of the stored
    project, which they look up first. */
module ProjectRoutes {
  import opened Records
  import opened Ordering
  import opened Analytics
  import opened Database

  /** `Query.equal("workspaceId", workspaceId)` on the projects collection. */
  function ProjectsOf(projects: seq<Project>, workspaceId: Id): (r: seq<Project>)
    ensures forall p :: p in r <==> p in projects && p.workspaceId == workspaceId
    ensures |r| <= |projects|
  {
    if projects == [] then []
    else if projects[0].workspaceId == workspaceId then [projects[0]] + ProjectsOf(projects[1..], workspaceId)
    else ProjectsOf(projects[1..], workspaceId)
  }

  /** GET /?workspaceId= : members only; exactly the projects of that
      workspace, each once per stored copy, newest first. */
  function ListProjects(members: seq<Member>, projects: seq<Project>, userId: Id, workspaceId: Id): (r: Reply<DocumentList<Project>>)
    ensures !r.DocumentNotFound?
    ensures r.Err? <==> !IsMember(members, workspaceId, userId)
    ensures r.Err? ==> r == Err(401, "Unauthorized")
    ensures r.Ok? ==> r.data.total == |r.data.documents|
    ensures r.Ok? ==> multiset(r.data.documents) == multiset(ProjectsOf(projects, workspaceId))
    ensures r.Ok? ==> forall p :: p in r.data.documents <==> p in projects && p.workspaceId == workspaceId
    ensures r.Ok? ==> NewestFirst(r.data.documents, ProjectCreatedAt)
  {
    if GetMember(members, workspaceId, userId).None? then Err(401, "Unauthorized")
    else
      var mine := ProjectsOf(projects, workspaceId);
      var sorted := SortNewestFirst(mine, ProjectCreatedAt);
      assert forall p :: p in sorted <==> p in mine by {
        forall p ensures p in sorted <==> p in mine {
          assert p in sorted <==> p in multiset(sorted);
          assert p in mine <==> p in multiset(mine);
        }
      }
      Ok(DocumentList(sorted, |sorted|))
  }

  /** GET /:projectId : the project is looked up first (an unknown id raises
      "not found"), then the caller must be a member of its workspace. */
  function GetProject(members: seq<Member>, projects: seq<Project>, userId: Id, projectId: Id): (r: Reply<Project>)
    ensures r.DocumentNotFound? <==> forall p :: p in projects ==> p.id != projectId
    ensures r.Err? <==> FindProject(projects, projectId).Some?
                        && !IsMember(members, FindProject(projects, projectId).value.workspaceId, userId)
    ensures r.Err? ==> r == Err(401, "Unauthorized")
    ensures r.Ok? ==> r.data in projects && r.data.id == projectId && IsMember(members, r.data.workspaceId, userId)
  {
    match FindProject(projects, projectId)
    case None => DocumentNotFound
    case Some(p) =>
      if GetMember(members, p.workspaceId, userId).None? then Err(401, "Unauthorized") else Ok(p)
  }

  /** GET /:projectId/analytics : the report over the tasks whose projectId
      is the requested project, once the caller is known to be a member of
      the project's workspace. */
  function GetProjectAnalytics(members: seq<Member>, projects: seq<Project>, tasks: seq<Task>, userId: Id, projectId: Id, cal: Calendar)
    : (r: Reply<Report>)
    ensures r.DocumentNotFound? <==> forall p :: p in projects ==> p.id != projectId
    ensures r.Err? <==> FindProject(projects, projectId).Some?
                        && !IsMember(members, FindProject(projects, projectId).value.workspaceId, userId)
    ensures r.Err? ==> r == Err(401, "Unauthorized")
    ensures r.Ok? ==>
      var p := FindProject(projects, projectId).value;
      r.data == Compute(tasks, InProject(projectId), GetMember(members, p.workspaceId, userId).value.id, cal)
  {
    match FindProject(projects, projectId)
    case None => DocumentNotFound
    case Some(p) =>
      match GetMember(members, p.workspaceId, userId)
      case None => Err(401, "Unauthorized")
      case Some(member) => Ok(Compute(tasks, InProject(projectId), member.id, cal))
  }

  /** POST / : members of the target workspace (any role) store a project
      with a fresh id in that workspace. Whether the workspace itself is
      stored is not checked. */
  method CreateProject(db: Store, userId: Id, name: string, image: ImageField, workspaceId: Id, now: int)
    returns (r: Reply<Project>)
    requires db.Valid()
    modifies db
    ensures db.Valid()
    ensures !r.DocumentNotFound?
    ensures r.Err? <==> !IsMember(old(db.members), workspaceId, userId)
    ensures r.Err? ==> r == Err(401, "Unauthorized") && unchanged(db)
    ensures r.Ok? ==> r.data == Project(old(db.nextId), now, name, UploadedImage(image), workspaceId)
    ensures r.Ok? ==> forall p :: p in old(db.projects) ==> p.id != r.data.id
    ensures r.Ok? ==> db.projects == old(db.projects) + [r.data]
    ensures r.Ok? ==> db.workspaces == old(db.workspaces) && db.members == old(db.members) && db.tasks == old(db.tasks)
    ensures r.Ok? ==> db.nextId == old(db.nextId) + 1
  {
    if GetMember(db.members, workspaceId, userId).None? {
      return Err(401, "Unauthorized");
    }
    var id := db.UniqueId();
    var project := Project(id, now, name, UploadedImage(image), workspaceId);
    db.projects := db.projects + [project];
    r := Ok(project);
  }

  /** PATCH /:projectId : a member of the stored project's workspace updates
      its name and image (an absent field keeps its value); nothing else
      changes. */
  method PatchProject(db: Store, userId: Id, projectId: Id, name: Option<string>, image: ImageField)
    returns (r: Reply<Project>)
    requires db.Valid()
    modifies db
    ensures db.Valid()
    ensures r.DocumentNotFound? <==> FindProject(old(db.projects), projectId).None?
    ensures r.Err? <==> FindProject(old(db.projects), projectId).Some?
                        && !IsMember(old(db.members), FindProject(old(db.projects), projectId).value.workspaceId, userId)
    ensures r.Err? ==> r == Err(401, "Unauthorized")
    ensures !r.Ok? ==> unchanged(db)
    ensures r.Ok? ==>
      var p := FindProject(old(db.projects), projectId).value;
      && r.data == p.(name := Patched(p.name, name), image := PatchedImage(p.image, image))
      && |db.projects| == |old(db.projects)|
      && (forall i :: 0 <= i < |db.projects| ==>
            db.projects[i] == if old(db.projects)[i].id == projectId then r.data else old(db.projects)[i])
      && db.workspaces == old(db.workspaces) && db.members == old(db.members)
      && db.tasks == old(db.tasks) && db.nextId == old(db.nextId)
  {
    var found := FindProject(db.projects, projectId);
    if found.None? {
      return DocumentNotFound;
    }
    var p := found.value;
    if GetMember(db.members, p.workspaceId, userId).None? {
      return Err(401, "Unauthorized");
    }
    var updated := p.(name := Patched(p.name, name), image := PatchedImage(p.image, image));
    db.projects := ReplaceProject(db.projects, updated);
    assert forall x :: x in db.projects ==> x in old(db.projects) || x == updated;
    r := Ok(updated);
  }

  /** DELETE /:projectId : a member of the stored project's workspace removes
      the project document and nothing else; its tasks stay stored. */
  method DeleteProject(db: Store, userId: Id, projectId: Id) returns (r: Reply<Id>)
    requires db.Valid()
    modifies db
    ensures db.Valid()
    ensures r.DocumentNotFound? <==> FindProject(old(db.projects), projectId).None?
    ensures r.Err? <==> FindProject(old(db.projects), projectId).Some?
                        && !IsMember(old(db.members), FindProject(old(db.projects), projectId).value.workspaceId, userId)
    ensures r.Err? ==> r == Err(401, "Unauthorized")
    ensures !r.Ok? ==> unchanged(db)
    ensures r.Ok? ==> r.data == projectId && db.projects == RemoveProject(old(db.projects), projectId)
    ensures r.Ok? ==> db.workspaces == old(db.workspaces) && db.members == old(db.members)
                      && db.tasks == old(db.tasks) && db.nextId == old(db.nextId)
  {
    var found := FindProject(db.projects, projectId);
    if found.None? {
      return DocumentNotFound;
    }
    if GetMember(db.members, found.value.workspaceId, userId).None? {
      return Err(401, "Unauthorized");
    }
    db.projects := RemoveProject(db.projects, projectId);
    r := Ok(projectId);
  }
}
