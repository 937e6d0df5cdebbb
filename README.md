# Workspace and project server routes of a Jira-style tracker, in Dafny

This project models the server side of a multi-tenant project tracker. Users
own and join workspaces. A workspace holds projects, and projects hold tasks.
The model covers three source files:

- the workspace route handlers: list, create, patch, delete, get, info,
  reset-invite-code, join and analytics;
- the project route handlers: list, create, patch, delete, get and analytics;
- the server action `getWorkspaces`.

The handlers read and write a document store with four collections:
workspaces, members, projects and tasks. Here the store is the class
`Database.Store`. It holds one `seq` per collection and a counter that
stands for `ID.unique()`.

- Handlers that only read (list, get, info, analytics) are functions of the
  collections they read.
- Handlers that write (create, patch, delete, reset-invite-code, join) are
  methods that take the store and change it.

Every handler answers with a `Reply`:

- `Ok(data)`;
- `Err(status, message)`, for the `{ error }` replies (401 "Unauthorized",
  400 "Already a Member", 400 "Invalid Invite Code");
- `DocumentNotFound`, when the store's `getDocument`, `updateDocument` or
  `deleteDocument` raises for an unknown id and the exception escapes the
  handler.

What is proved:

- **Membership and role guard.** Workspace get and analytics answer 401
  exactly when the caller has no membership row. Patch, delete and
  reset-invite-code also require the ADMIN role. Project patch, delete, get
  and analytics check membership in the workspace of the stored project,
  after looking that project up. Every rejection leaves the store unchanged.
- **Invite-code join.** The caller goes from NOT_MEMBER to MEMBER. An
  existing member is refused. Otherwise the caller joins exactly when the
  stored and supplied codes are equal after `trim()` then `toLowerCase()`.
  Lemmas show that this normalisation ignores surrounding whitespace and
  letter case, commutes (trim then lower equals lower then trim), and is
  idempotent.
- **Month-over-month analytics.** Five predicates (all, assigned to the
  caller's member row, incomplete, completed, overdue) are each counted in
  this month's and last month's creation window. Each difference is this
  month's count minus last month's. The lemmas prove:
  - completed + incomplete = total;
  - overdue ≤ incomplete and assigned ≤ total;
  - DONE tasks, tasks without a due date and tasks due at or after `now`
    are never overdue;
  - tasks outside the scope never change the report;
  - adjacent months add up to the two-month count.
- **Store invariant.** Every state the handlers produce keeps at most one
  membership row per (user, workspace) pair, and distinct ids within the
  workspaces and within the projects collection.

Notes on the code's behaviour:

- The analytics payload has five metrics (incomplete as well), not four.
- Its keys are spelled `taskDiffrence`, `assignedTaskDiffrence`, and so on.
  Here they are the `...Difference` fields of `Analytics.Report`.
- The join endpoint refuses with status 400, not 401.
- Project analytics looks the project up before checking membership, so an
  unknown project id fails with "not found" before any authorisation.
- Deleting a workspace or a project does not cascade.

## Model

| member | source | states |
|---|---|---|
| `Records.GetMember` | src/features/workspaces/server/route.ts:176-182 | The membership look-up is None exactly when no row links the user to the workspace; a found row is stored and has that workspace and user. |
| `Records.GetMemberFindsTheRow` | src/features/workspaces/server/route.ts:242-251 | While memberships are unique (join refuses existing members), the look-up returns the one row a (user, workspace) pair has. |
| `Records.AppendKeepsMembershipsUnique` | src/features/workspaces/server/route.ts:248-270 | Adding a membership row only for a pair that has none keeps one row per (user, workspace). |
| `Records.FindWorkspace` | src/features/workspaces/server/route.ts:184-188 | getDocument finds a stored workspace with the requested id, and finds none exactly when no stored workspace has it. |
| `Records.FindProject` | src/features/projects/server/route.ts:109-113 | getDocument finds a stored project with the requested id, and finds none exactly when no stored project has it. |
| `Records.IsAdmin` | src/features/workspaces/server/route.ts:112 | The admin guard (a row must exist and have role ADMIN) passes only for a member, and only when an ADMIN row for the pair is stored. |
| `Records.AdminRowDecides` | src/features/workspaces/server/route.ts:160 | While memberships are unique, the admin guard passes exactly when an ADMIN row links the caller to the workspace. |
| `Records.UploadedImage` | src/features/projects/server/route.ts:63-89 | Create stores an image exactly when the form's image is an uploaded file, and then stores its preview URL; a plain string is dropped. |
| `Records.PatchedImage` | src/features/workspaces/server/route.ts:116-143 | Patch keeps the current image when the field is absent, stores a plain string as given and stores an uploaded file's preview URL. |
| `Records.Patched` | src/features/workspaces/server/route.ts:137-145 | An update payload field that is left out keeps the stored value; a given one replaces it. |
| `Records.DistinctWorkspacesStoredOnce` | src/features/workspaces/actions.ts:18-21 | With distinct ids, no workspace is stored twice. |
| `Ordering.SortNewestFirst` | src/features/projects/server/route.ts:36-40 | `orderDesc("$createdAt")`: the result is ordered newest first and is a permutation of the matched documents. |
| `InviteCode.ToLowerCase` | src/features/workspaces/server/route.ts:259-261 | `toLowerCase()` keeps the length, leaves no upper-case ASCII letter, keeps every other character and maps each upper-case letter to its lower-case letter. |
| `InviteCode.TrimStart` | src/features/workspaces/server/route.ts:259-261 | Removes only leading whitespace: the result is a suffix that does not start with whitespace, and all that was cut is whitespace. |
| `InviteCode.TrimEnd` | src/features/workspaces/server/route.ts:259-261 | Removes only trailing whitespace: the result is a prefix that does not end with whitespace, and all that was cut is whitespace. |
| `InviteCode.Trim` | src/features/workspaces/server/route.ts:259-261 | `trim()` never lengthens the code and leaves no whitespace at either end. |
| `InviteCode.Normalize` | src/features/workspaces/server/route.ts:259-261 | `trim().toLowerCase()` never lengthens the code, leaves no upper-case ASCII letter and no whitespace at either end. |
| `InviteCode.CodesMatch` | src/features/workspaces/server/route.ts:259-261 | The join's comparison: codes equal after trimming match, and codes equal after lower-casing match. |
| `InviteCode.TrimCutsOnlyWhitespace` | src/features/workspaces/server/route.ts:259-261 | The trimmed code is a contiguous part of the code, and everything cut before and after it is whitespace. |
| `InviteCode.LowerTrimCommute` | src/features/workspaces/server/route.ts:259-261 | `trim().toLowerCase()` equals `toLowerCase().trim()`, so the order of the two steps does not matter. |
| `InviteCode.SurroundingWhitespaceIgnored` | src/features/workspaces/server/route.ts:259-261 | Whitespace added before or after a code never changes its normal form. |
| `InviteCode.CaseIgnored` | src/features/workspaces/server/route.ts:259-261 | Codes that differ only in the case of their letters match. |
| `InviteCode.CaseAndPaddingIgnored` | src/features/workspaces/server/route.ts:259-261 | A supplied code matches the stored one when it differs only in letter case and surrounding whitespace. |
| `InviteCode.UpperCaseCodeMatches` | src/features/workspaces/server/route.ts:259-261 | A stored "abc123" is matched by a supplied "ABC123". |
| `InviteCode.TrimIdempotent` | src/features/workspaces/server/route.ts:259-261 | Trimming a trimmed code changes nothing. |
| `InviteCode.NormalizeIdempotent` | src/features/workspaces/server/route.ts:259-261 | Normalising twice is normalising once. |
| `Analytics.Count` | src/features/workspaces/server/route.ts:297-317 | The `total` of a filtered count query is at most the number of tasks, and is zero exactly when no task is in scope, matches the metric and was created in the window. |
| `Analytics.Compute` | src/features/workspaces/server/route.ts:317-433 | Each of the five counts is that metric's count in this month's window. Each difference is that count minus the same metric's count in last month's window. Completed + incomplete = total, both for counts and for differences; overdue ≤ incomplete; assigned ≤ total. |
| `Analytics.Satisfies` | src/features/workspaces/server/route.ts:325-413 | The per-task filters: an overdue task is not DONE, has a due date and is due before `now`; a task is completed exactly when its status is DONE and incomplete exactly when it is not. |
| `Analytics.Difference` | src/features/workspaces/server/route.ts:318 | `count - last.total`: never beyond the number of tasks either way; positive only if some task is counted this month, negative only if some task is counted last month. |
| `Analytics.CountAppend` | src/features/workspaces/server/route.ts:297-305 | A count over two task collections put together is the sum of the two counts. |
| `Analytics.CountSkips` | src/features/workspaces/server/route.ts:297-305 | A task that a query does not match can be stored anywhere without changing that query's count. |
| `Analytics.CountMonotone` | src/features/workspaces/server/route.ts:345-405 | When every task one metric matches is also matched by a second metric, the first metric's count is at most the second's. |
| `Analytics.CompletedAndIncompletePartition` | src/features/projects/server/route.ts:281-329 | In every window, `status == DONE` plus `status != DONE` counts equal the total count. |
| `Analytics.OverdueAtMostIncomplete` | src/features/projects/server/route.ts:281-353 | In every window, the overdue count is at most the incomplete count. |
| `Analytics.AssignedAtMostAll` | src/features/projects/server/route.ts:233-276 | In every window, the count of tasks assigned to the caller is at most the total count. |
| `Analytics.NeverOverdue` | src/features/projects/server/route.ts:331-353 | A DONE task, a task without a due date, or a task due at or after `now` never adds to the overdue count. |
| `Analytics.OutOfScopeIgnored` | src/features/projects/server/route.ts:233-356 | Tasks outside the workspace or project asked about never change any figure of the report. |
| `Analytics.AdjacentMonths` | src/features/workspaces/server/route.ts:291-315 | When last month ends one millisecond before this month starts, no task is counted in both windows, and the two counts add up to the count over both months. |
| `Database.Store.UniqueId` | src/features/workspaces/server/route.ts:72-82 | `ID.unique()` returns an id that no stored workspace, member or project has, and keeps the store invariant. |
| `Database.Store.AddMember` | src/features/workspaces/server/route.ts:266-270 | createDocument on members appends exactly one row with a fresh id, and the look-up then finds that row. |
| `Database.ReplaceWorkspace` | src/features/workspaces/server/route.ts:137-145 | updateDocument keeps every position and id, changes only the document with the updated id, stores the update when that id is stored, and keeps ids distinct. |
| `Database.ReplaceProject` | src/features/projects/server/route.ts:146-154 | updateDocument keeps every position and id, changes only the document with the updated id, stores the update when that id is stored, and keeps ids distinct. |
| `Database.RemoveWorkspace` | src/features/workspaces/server/route.ts:166 | deleteDocument keeps exactly the stored workspaces with another id, and keeps ids distinct. |
| `Database.RemoveProject` | src/features/projects/server/route.ts:181 | deleteDocument keeps exactly the stored projects with another id, and keeps ids distinct. |
| `WorkspaceActions.MembershipsOf` | src/features/workspaces/actions.ts:9-11 | Selects exactly the membership rows whose userId is the current user. |
| `WorkspaceActions.WorkspaceIdsOf` | src/features/workspaces/actions.ts:17 | One id per membership row; an id is listed exactly when some row names it. |
| `WorkspaceActions.WithIds` | src/features/workspaces/actions.ts:18-21 | Selects exactly the stored workspaces whose id is among the given ids, each as many times as it is stored. |
| `WorkspaceActions.WorkspacesOfMemberships` | src/features/workspaces/actions.ts:13-23 | With no memberships the answer is `{ documents: [], total: 0 }`. Otherwise the answer holds each stored workspace some membership names, as many times as it is stored, and no other; it is newest first, and `total` is its length. |
| `WorkspaceActions.GetWorkspaces` | src/features/workspaces/actions.ts:5-24 | The answer holds each stored workspace the user holds a row in, as many times as it is stored, and no other; it is newest first, and `total` is its length. A user with no rows gets `{ documents: [], total: 0 }`. |
| `WorkspaceActions.EachWorkspaceListedOnce` | src/features/workspaces/actions.ts:18-21 | With distinct stored ids (the store invariant), each of the user's workspaces appears exactly once, so `total` is the number of those workspaces. |
| `WorkspaceActions.MembershipsOfAppend` | src/features/workspaces/actions.ts:9-11 | Selecting a user's rows from two collections put together gives the two selections put together. |
| `WorkspaceActions.OtherUsersRowsIgnored` | src/features/workspaces/actions.ts:9-11 | Another user's membership row, wherever it is stored, never changes the result. |
| `WorkspaceRoutes.ListWorkspaces` | src/features/workspaces/server/route.ts:22-41 | Never refused. Answers each of the caller's workspaces as many times as it is stored (once, under the store invariant) and no other, newest first, with `total` equal to the length. |
| `WorkspaceRoutes.GetWorkspace` | src/features/workspaces/server/route.ts:171-191 | 401 "Unauthorized" exactly when the caller has no membership row. "Not found" exactly when a member asks for an unknown id. Otherwise the stored workspace with that id. |
| `WorkspaceRoutes.GetWorkspaceInfo` | src/features/workspaces/server/route.ts:193-205 | Needs no membership and never answers an error. For a stored id it answers that workspace's id, name and image; for an unknown id, "not found". |
| `WorkspaceRoutes.GetWorkspaceAnalytics` | src/features/workspaces/server/route.ts:276-434 | 401 exactly when the caller has no membership row, whatever the tasks. Otherwise the report over the workspace's tasks, with "assigned" meaning assigned to the caller's member row. |
| `WorkspaceRoutes.CreateWorkspace` | src/features/workspaces/server/route.ts:42-92 | Appends exactly one workspace, owned by the caller, with a fresh id and the given 12-character invite code. Appends exactly one ADMIN row linking the caller to it. Projects and tasks are untouched; two ids are used up. |
| `WorkspaceRoutes.PatchWorkspace` | src/features/workspaces/server/route.ts:94-149 | 401 exactly when the caller is not an ADMIN member. Only the name and image of that workspace change; a text image is stored as given. A rejection changes nothing. |
| `WorkspaceRoutes.DeleteWorkspace` | src/features/workspaces/server/route.ts:150-169 | 401 exactly when the caller is not an ADMIN member. Removes only that workspace's document: members, projects and tasks remain. A rejection changes nothing. |
| `WorkspaceRoutes.ResetInviteCode` | src/features/workspaces/server/route.ts:207-231 | 401 exactly when the caller is not an ADMIN member. Only that workspace's inviteCode changes, and a look-up of the id then finds the new code; name, image, members, projects and tasks are untouched. A rejection changes nothing. |
| `WorkspaceRoutes.JoinWorkspace` | src/features/workspaces/server/route.ts:233-274 | An existing member gets 400 "Already a Member". Otherwise the caller joins as MEMBER, with exactly one new row, iff the normalised codes are equal; a mismatch gets 400 "Invalid Invite Code". A refusal changes nothing; a join uses up one id. |
| `WorkspaceRoutes.ResetInvalidatesOldCode` | src/features/workspaces/server/route.ts:207-274 | After a reset, a non-member who supplies a code that does not match the new one (such as the old code) is refused and gains no row. |
| `WorkspaceRoutes.ReplacedIsFound` | src/features/workspaces/server/route.ts:221-228 | After the invite-code update, getDocument on that id returns the updated workspace. |
| `ProjectRoutes.ProjectsOf` | src/features/projects/server/route.ts:36-40 | Selects exactly the stored projects whose workspaceId is the requested one. |
| `ProjectRoutes.ListProjects` | src/features/projects/server/route.ts:19-44 | 401 exactly when the caller has no membership row in the workspace. Otherwise exactly that workspace's projects (a permutation of them), newest first. |
| `ProjectRoutes.GetProject` | src/features/projects/server/route.ts:186-206 | "Not found" exactly for an unknown project id. 401 exactly when the caller is not a member of the stored project's workspace. Otherwise the stored project. |
| `ProjectRoutes.GetProjectAnalytics` | src/features/projects/server/route.ts:208-370 | "Not found" for an unknown project id. 401 exactly when the caller is not a member of the project's workspace. Otherwise the report over the tasks of that project only. |
| `ProjectRoutes.CreateProject` | src/features/projects/server/route.ts:46-95 | Members of the target workspace, of any role, append exactly one project carrying that workspaceId and a fresh id, using up one id. Non-members get 401 and nothing changes. |
| `ProjectRoutes.PatchProject` | src/features/projects/server/route.ts:97-158 | Authorises against the stored project's workspace. Only that project's name and image change; a text image is stored as given. A rejection changes nothing. |
| `ProjectRoutes.DeleteProject` | src/features/projects/server/route.ts:160-184 | Authorises against the stored project's workspace. Removes only that project's document; its tasks remain. A rejection changes nothing. |

## Left out

- Image upload, preview download and base64 encoding are foreign storage
  calls. `File(preview)` stands for the data URL they produce.
- `generateInviteCode(12)` is random. The model takes the new code as a
  parameter and requires only that it has 12 characters.
- `ID.unique()` is random. The model uses a counter, so ids are fresh, but
  their format is not modelled.
- `startOfMonth`, `endOfMonth` and `subMonths` are calendar arithmetic.
  `Analytics.Calendar` takes `now` and the two windows as integers
  (milliseconds). Only `Analytics.AdjacentMonths` needs the guarantees that
  calendar arithmetic gives.
- ISO-8601 string comparisons in the queries are modelled as integer
  comparisons.
- Pagination of `listDocuments` (its default page size) is not modelled.
  Every matching document is returned and `total` is their number.
- `Query.contains("$id", ids)` is modelled as equality with one of the ids.
  Store ids all have the same length, so a substring match is an equal id.
- InviteCode.ToLowerCase: lower-cases ASCII letters only. Other letters that
  JavaScript's `toLowerCase` would change are kept as they are.
- The session middleware, Hono wiring and `console.log` calls are not
  modelled. The caller's user id is a parameter.
- zod validation of the forms and its 400 replies are not modelled.
  `src/features/workspaces/schemas` and `src/features/projects/schema` are
  not part of this model. Patch names are `Option<string>`: an absent name
  keeps the stored one, because JSON drops `undefined` fields.
- `getMember` (`src/features/members/utils`) is not part of this model. It is
  modelled as the first membership row with the given workspace and user.
- Task statuses other than DONE are assumed (`src/features/tasks/types` is
  not part of this model); only DONE is ever inspected. Task name,
  description and position are not modelled.
- The two writes of create-workspace (workspace, then admin row) are not
  atomic in the source. Concurrent join requests can race. The model runs
  one handler at a time, so neither partial failure nor duplicate rows from
  races is modelled.
- Store failures other than "document not found" (network, permissions) are
  not modelled.
- The task endpoints, which write the tasks collection, are outside this
  model. The tasks collection is only read.
