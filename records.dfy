/** Documents of the four collections the route handlers read and write
    (workspaces, members, projects, tasks), the shapes of the handlers'
    replies, and the look-ups every handler starts with. */
module Records {

  /** Document ids (`$id`), user ids and member ids. The store's ids are
      opaque strings that the handlers only compare for equality. */
  type Id = nat

  datatype Option<+T> = None | Some(value: T)

  datatype MemberRole = ADMIN | MEMBER

  /** Only DONE is ever inspected by the handlers modelled here. */
  datatype TaskStatus = BACKLOG | TODO | IN_PROGRESS | IN_REVIEW | DONE

  /** `createdAt` is the store's `$createdAt`, in milliseconds. */
  datatype Workspace = Workspace(
    id: Id, createdAt: int, name: string, userId: Id,
    image: Option<string>, inviteCode: string)

  datatype Member = Member(id: Id, userId: Id, workspaceId: Id, role: MemberRole)

  datatype Project = Project(
    id: Id, createdAt: int, name: string, image: Option<string>, workspaceId: Id)

  /** `assigneeId` holds a member's document id, not a user id. */
  datatype Task = Task(
    id: Id, createdAt: int, workspaceId: Id, projectId: Id,
    assigneeId: Option<Id>, status: TaskStatus, dueDate: Option<int>)

  /** The `{ documents, total }` page a list query returns. */
  datatype DocumentList<+T> = DocumentList(documents: seq<T>, total: nat)

  /** What a handler answers: `{ data }`, `{ error }` with an HTTP status,
      or the store's "document not found" exception escaping the handler
      (getDocument, updateDocument and deleteDocument raise it for an id
      that is not stored; no handler catches it). */
  datatype Reply<+T> = Ok(data: T) | Err(status: nat, message: string) | DocumentNotFound

  /** The public subset the info endpoint returns. */
  datatype WorkspaceInfo = WorkspaceInfo(id: Id, name: string, image: Option<string>)

  /** The `image` field of the create and patch forms: absent, a plain
      string, or an uploaded file. For a file, `preview` stands for the
      `data:image/png;base64,...` URL the upload produces. */
  datatype ImageField = Absent | Text(value: string) | File(preview: string)

  /** The image the create handlers store: only an uploaded file sets one;
      a plain string is dropped. */
  function UploadedImage(image: ImageField): (r: Option<string>)
    ensures r.Some? <==> image.File?
    ensures r.Some? ==> r.value == image.preview
  {
    if image.File? then Some(image.preview) else None
  }

  /** The image the patch handlers store: a file's preview URL, a plain
      string as given, or, for an absent field (left out of the update
      payload), the current image. */
  function PatchedImage(current: Option<string>, image: ImageField): (r: Option<string>)
    ensures image.Absent? ==> r == current
    ensures image.Text? ==> r == Some(image.value)
    ensures image.File? ==> r == Some(image.preview)
  {
    match image
    case Absent => current
    case Text(s) => Some(s)
    case File(preview) => Some(preview)
  }

  /** A field of an update payload: a given value replaces the current one,
      an absent one (left out of the payload) keeps it. */
  function Patched<T>(current: T, given: Option<T>): (r: T)
    ensures given.None? ==> r == current
    ensures given.Some? ==> r == given.value
  {
    if given.Some? then given.value else current
  }

  function CreatedAt(w: Workspace): int { w.createdAt }

  function ProjectCreatedAt(p: Project): int { p.createdAt }

  /** User `userId` has a membership row in workspace `workspaceId`. */
  predicate IsMember(members: seq<Member>, workspaceId: Id, userId: Id) {
    exists i :: 0 <= i < |members| && members[i].workspaceId == workspaceId && members[i].userId == userId
  }

  /** The membership row of `userId` in `workspaceId`: the first stored row
      with that pair, or None when there is none. */
  function GetMember(members: seq<Member>, workspaceId: Id, userId: Id): (r: Option<Member>)
    ensures r.None? <==> !IsMember(members, workspaceId, userId)
    ensures r.Some? ==> r.value in members && r.value.workspaceId == workspaceId && r.value.userId == userId
  {
    if members == [] then None
    else if members[0].workspaceId == workspaceId && members[0].userId == userId then Some(members[0])
    else
      var r := GetMember(members[1..], workspaceId, userId);
      assert IsMember(members, workspaceId, userId) ==> IsMember(members[1..], workspaceId, userId) by {
        if IsMember(members, workspaceId, userId) {
          var i :| 0 <= i < |members| && members[i].workspaceId == workspaceId && members[i].userId == userId;
          assert members[1..][i - 1] == members[i];
        }
      }
      assert IsMember(members[1..], workspaceId, userId) ==> IsMember(members, workspaceId, userId) by {
        if IsMember(members[1..], workspaceId, userId) {
          var i :| 0 <= i < |members[1..]| && members[1..][i].workspaceId == workspaceId && members[1..][i].userId == userId;
          assert members[i + 1] == members[1..][i];
        }
      }
      r
  }

  /** The guard of the admin-only workspace endpoints: a membership row
      exists and its role is ADMIN. */
  predicate IsAdmin(members: seq<Member>, workspaceId: Id, userId: Id): (r: bool)
    ensures r ==> IsMember(members, workspaceId, userId)
    ensures r ==> exists m :: m in members && m.workspaceId == workspaceId && m.userId == userId && m.role == ADMIN
  {
    var m := GetMember(members, workspaceId, userId);
    m.Some? && m.value.role == ADMIN
  }

  /** At most one membership row per (user, workspace) pair. */
  ghost predicate UniqueMemberships(members: seq<Member>) {
    forall i, j :: 0 <= i < j < |members| ==>
      members[i].userId != members[j].userId || members[i].workspaceId != members[j].workspaceId
  }

  /** While memberships are unique, the look-up returns the one row a pair has. */
  lemma {:induction false} GetMemberFindsTheRow(members: seq<Member>, k: nat)
    requires UniqueMemberships(members) && k < |members|
    ensures GetMember(members, members[k].workspaceId, members[k].userId) == Some(members[k])
  {
    if k > 0 {
      assert members[0].userId != members[k].userId || members[0].workspaceId != members[k].workspaceId;
      assert UniqueMemberships(members[1..]) by {
        forall i, j | 0 <= i < j < |members[1..]|
          ensures members[1..][i].userId != members[1..][j].userId || members[1..][i].workspaceId != members[1..][j].workspaceId
        {
          assert members[1..][i] == members[i + 1] && members[1..][j] == members[j + 1];
        }
      }
      GetMemberFindsTheRow(members[1..], k - 1);
      assert members[1..][k - 1] == members[k];
    }
  }

  /** Adding a row for a pair that has none keeps memberships unique. */
  lemma AppendKeepsMembershipsUnique(members: seq<Member>, m: Member)
    requires UniqueMemberships(members) && !IsMember(members, m.workspaceId, m.userId)
    ensures UniqueMemberships(members + [m])
  {
    var ms := members + [m];
    forall i, j | 0 <= i < j < |ms|
      ensures ms[i].userId != ms[j].userId || ms[i].workspaceId != ms[j].workspaceId
    {
      if j == |members| {
        assert ms[i] == members[i];
      } else {
        assert ms[i] == members[i] && ms[j] == members[j];
      }
    }
  }

  /** While memberships are unique, the admin guard passes exactly when the
      caller's row in the workspace has the ADMIN role. */
  lemma AdminRowDecides(members: seq<Member>, workspaceId: Id, userId: Id)
    requires UniqueMemberships(members)
    ensures IsAdmin(members, workspaceId, userId)
        <==> exists m :: m in members && m.workspaceId == workspaceId && m.userId == userId && m.role == ADMIN
  {
    if exists m :: m in members && m.workspaceId == workspaceId && m.userId == userId && m.role == ADMIN {
      var m :| m in members && m.workspaceId == workspaceId && m.userId == userId && m.role == ADMIN;
      var k :| 0 <= k < |members| && members[k] == m;
      GetMemberFindsTheRow(members, k);
    }
  }

  /** No two stored workspaces share an id (`$id` is unique per collection). */
  ghost predicate DistinctWorkspaceIds(workspaces: seq<Workspace>) {
    forall i, j :: 0 <= i < j < |workspaces| ==> workspaces[i].id != workspaces[j].id
  }

  /** No two stored projects share an id. */
  ghost predicate DistinctProjectIds(projects: seq<Project>) {
    forall i, j :: 0 <= i < j < |projects| ==> projects[i].id != projects[j].id
  }

  /** With distinct ids, every workspace is stored at most once. */
  lemma {:induction false} DistinctWorkspacesStoredOnce(workspaces: seq<Workspace>, w: Workspace)
    requires DistinctWorkspaceIds(workspaces)
    ensures multiset(workspaces)[w] <= 1
  {
    if workspaces != [] {
      var rest := workspaces[1..];
      assert workspaces == [workspaces[0]] + rest;
      assert DistinctWorkspaceIds(rest) by {
        forall i, j | 0 <= i < j < |rest| ensures rest[i].id != rest[j].id {
          assert rest[i] == workspaces[i + 1] && rest[j] == workspaces[j + 1];
        }
      }
      DistinctWorkspacesStoredOnce(rest, w);
      if workspaces[0] == w {
        assert w !in rest by {
          forall k | 0 <= k < |rest| ensures rest[k] != w {
            assert rest[k] == workspaces[k + 1];
          }
        }
      }
    }
  }

  /** getDocument on the workspaces collection: the first stored workspace
      with id `id`, or None (the store would raise "not found"). */
  function FindWorkspace(workspaces: seq<Workspace>, id: Id): (r: Option<Workspace>)
    ensures r.None? <==> forall w :: w in workspaces ==> w.id != id
    ensures r.Some? ==> r.value in workspaces && r.value.id == id
  {
    if workspaces == [] then None
    else if workspaces[0].id == id then Some(workspaces[0])
    else FindWorkspace(workspaces[1..], id)
  }

  /** getDocument on the projects collection. */
  function FindProject(projects: seq<Project>, id: Id): (r: Option<Project>)
    ensures r.None? <==> forall p :: p in projects ==> p.id != id
    ensures r.Some? ==> r.value in projects && r.value.id == id
  {
    if projects == [] then None
    else if projects[0].id == id then Some(projects[0])
    else FindProject(projects[1..], id)
  }
}
