# Verification of the project-management backend

A Dafny model of the stateful parts of the backend and proofs of what they promise over whole runs:
refresh-token rotation with reuse detection, the kanban board, optimistic locking, event-driven
notifications, membership scoping, pagination, analytics, uploads and the cache.

`dafny verify dfyconfig.toml` checks everything.

## How the model is built

**Two descriptions and a proof between them.** Where the source changes rows step by step, there is
a class with the same state and the same branches (`AuthService.Service`, `WorkspaceServices.Api`
and the services inside it), working on a session that has a working and a committed copy
(`Database.Session`). Beside it stands a much simpler machine (`Accounts.Step`, `Workspace.Step`),
and every method is proved to answer and commit exactly what the machine says. The long-run
properties are then proved about the machine.

- *Accounts.* In the machine a refresh-token family is a list of issued tokens that is alive or
  dead; there are no hashes, flags or links. The services work on the real table (hash, `revoked`,
  `replaced_by_id`, ...). `AuthService.Represents` says that the table holds exactly one row for each
  issued token, and `Service.Handle` and `Service.Serve` carry that through every request, including
  rollback and the one explicit commit in the replay branch. The rotation scheme is the one of
  section 10.4 of RFC 6749 and section 4.14.2 of RFC 9700.
- *Workspace.* The machine works on tables, as the services do. The board is a further step up:
  `Board` shows that each request does to the ordered columns what a user would expect.
- *Sort order.* `ORDER BY` is `Ordering.Sort`, the one increasing listing of a set of keys. Statuses
  are stored as strings, so a project's list runs done, in_progress, in_review, todo.

**Assumptions made explicit.**

- Requests of `Accounts` and `Workspace` are executed one at a time. Interleaving of sessions is the
  subject of `Locking`, for tasks, which are the rows that carry a version, and for the notifications
  that go out with their assignments.
- Identifiers (UUIDv7), family identifiers and refresh tokens are drawn from a counter and so are
  fresh; a later identifier is greater. SHA-256 and bcrypt are injective. A run of one machine draws
  from its own counter.
- The clock only moves forward. A refresh reads it twice; `lag` is the time between the readings.
- A valid access token is reduced to its subject, the `actor` of a request; the verdict of the
  password policy is the flag `acceptable`.
- Positions are reals, so adding 1000 always increases them.
- Foreign keys on a task's assignee are enforced, as PostgreSQL does. The SQLite development
  database does not enforce them.
- A dictionary of changes never names a field twice. An explicit null for a NOT NULL column reaches
  the flush and fails there (`Integrity`).
- `PutUser` stands for any request of the accounts modules as the workspace sees it: one account row
  is written (`AccountRuns.OneAccountChanges` shows that this is all such a request can do).
- The subset of changed columns in an UPDATE is written out in `Locking.Update`; flush and commit of
  one session are one step, guarded by the version.

**Where the code says less than one might think.**

- The per-member counts of a project are keyed by full name, so two assignees with one name lose a
  row. `Analytics.SharedNameLosesCount` is a run that ends so, and `Analytics.MemberCountsTotal` says
  that the counts add up exactly when no two accounts with tasks in the project share a full name.
- Deleting an account leaves its refresh tokens unrevoked; they are useless nevertheless
  (`AccountRuns.DeletedUserNeverRefreshes`).
- The join behind the scoped project list repeats a project exactly when memberships repeat
  (`ProjectScoping.DuplicatesIff`); every run keeps them unique.
- Creations or moves that overlap can end at one position. `ConcurrentBoard.OverlapSharesPosition` is
  such a run, and `SharedPositionsOverlap` says that nothing but an overlap leads there.
- A cancelled upload passes the handlers of the local storage. `Storage.LocalStorage.SaveNew` says
  exactly when a file stays behind.
- Tasks stay accessible when their project is deleted. `ProjectScoping.TaskAccessIff` compares the
  two checks, `TaskAccessAgreesIff` says exactly when they agree, and `DeletedProjectStaysWritable`
  is a run in which they do not.

## Files

| file | about |
|---|---|
| `Common.dfy`, `Database.dfy`, `Ordering.dfy`, `PartialUpdates.dfy` | identifiers, the request-scoped session, sorting, attribute loops |
| `Accounts.dfy`, `AccountRuns.dfy`, `AccountAnswers.dfy` | the accounts machine, its run properties, what each request answers and changes |
| `AuthService.dfy` | token table, auth and user services, refinement |
| `Workspace.dfy`, `WorkspaceServices.dfy` | the workspace machine; its services and event bus |
| `Board.dfy`, `NotificationRuns.dfy`, `ProjectScoping.dfy`, `WorkspaceRows.dfy` | columns, notifications, visibility, what each request answers and changes |
| `Locking.dfy`, `SessionEdits.dfy`, `ConcurrentBoard.dfy` | interleaved sessions under the version guard: rows, notifications, edits, positions |
| `Pagination.dfy`, `Analytics.dfy` | pages and aggregates against the list and the board |
| `Cache.dfy`, `Storage.dfy` | TTL cache, uploads |

## Model

Service methods that only check access and write one row (creating or deleting a project, deleting a task or an
account, changing a role) have no row of their own; `Serve` covers
them, and `AccountAnswers` and `WorkspaceRows` say what each answers and which rows it may change.

| member | source | states |
|---|---|---|
| `Database.Session.Commit` | app/core/dependencies.py:27-32 | what the request wrote becomes the committed store |
| `Database.Session.Rollback` | app/core/dependencies.py:33-35 | the committed store is all that survives |
| `AccountRuns.StepStaysReachable` | app/modules/auth/service.py:42-129 | every request keeps: live emails unique, no row or secret issued twice, later tokens of a family have later rows and no earlier expiry, owners exist |
| `AccountRuns.RunStaysReachable` | app/core/dependencies.py:27-35 | the same in every state of every serial run |
| `AccountRuns.RunGrows` | app/modules/auth/service.py:68-114 | over any stretch of a run a family keeps its owner, only gains tokens at its end, and never changes once dead |
| `AccountRuns.RevokedForever` | app/modules/auth/repository.py:22-41 | a replaced token, or one of a dead family, is never valid again |
| `AccountRuns.RevokedTokenIsReuse` | app/modules/auth/service.py:73-91 | a revoked token is answered as reuse whatever its expiry and owner, and the whole effect is that its family dies |
| `AccountRuns.RefreshSucceedsIff` | app/modules/auth/service.py:68-99 | a refresh succeeds exactly for the newest token of a living family, strictly before expiry, with a live and active owner |
| `AccountAnswers.LoginAnswers` | app/modules/auth/service.py:55-64 | login issues a token exactly if a live active account has this address and password, reports inactivity exactly if the matching account is deactivated, and bad credentials exactly if none matches |
| `AccountRuns.IssuedIsRedeemable` | app/modules/auth/service.py:118-129 | a token just issued by login or refresh can be redeemed |
| `AccountRuns.FamilyDiesIff` | app/modules/auth/service.py:73-114 | a session ends exactly by replay of a replaced token, logout of its newest token, or its owner's password change |
| `AccountRuns.LogoutEndsSession` | app/modules/auth/service.py:101-104 | logout never fails, and a later refresh with that token is answered as reuse |
| `AccountRuns.RedeemedAtMostOnce` | app/modules/auth/service.py:68-99 | after one successful refresh every later refresh with that token in the run is reuse |
| `AccountRuns.ReuseKillsFamily` | app/modules/auth/service.py:73-88 | after a replay the family is dead and unchanged for the rest of the run, and each of its tokens is answered as reuse |
| `AccountRuns.PasswordChangeEndsSessions` | app/modules/auth/service.py:106-114 | no token issued before a password change is ever refreshed; other users' families are untouched |
| `AccountRuns.DeletedForever` | app/core/database.py:117-137 | the row of a deleted account is never touched again; nothing clears `deleted_at` |
| `AccountRuns.DeletedUserNeverRefreshes` | app/modules/users/service.py:93-99 | deletion leaves the tokens in place, yet none of the user's tokens is ever redeemed again |
| `AccountRuns.FailureLeavesStore` | app/modules/auth/service.py:81-88 | a failed request leaves the store as it was, except that a replay kills the one family of its token |
| `AccountRuns.RegistrationNeedsFreeEmail` | app/modules/auth/service.py:42-53 | registration succeeds exactly when no live account has the address; the account is an employee with a new identifier |
| `AccountRuns.EmailFreedIff` | app/modules/users/models.py:42-52 | an address becomes free exactly when its live holder is deleted or moves to another one |
| `AccountRuns.UpdateKeepsEmailsUnique` | app/modules/users/service.py:72-79 | the duplicate check of an update keeps live emails unique |
| `AccountRuns.UpdateSetsGivenFields` | app/modules/users/service.py:69-80 | an update gives each named field its new value and leaves the others |
| `AccountRuns.OneAccountChanges` | app/modules/users/service.py:50-99 | a request writes at most one account row and removes none |
| `AccountRuns.StandingNeedsAdmin` | app/modules/users/service.py:62-99 | role, activity and deletion of an account change only by an administrator's request; any other new account is an active employee |
| `AccountRuns.AdminsComeFromAdmins` | app/modules/auth/service.py:46-52 | where nobody is an administrator, no run of requests makes anybody one |
| `AccountAnswers.InactiveIsRefused` | app/modules/auth/dependencies.py:35-38 | a request with an access token is refused for inactivity exactly if its account is unknown, deleted or deactivated, and then changes nothing |
| `AccountAnswers.LoginOf` | app/modules/auth/service.py:55-64 | exactly one password lets an active account in: the stored one |
| `AccountAnswers.PasswordChangeAnswers` | app/modules/auth/service.py:106-114 | a change is carried out exactly if the account could log in with the given current password and the new one is acceptable; the two refusals exactly otherwise |
| `AccountAnswers.PasswordChangeDecidesLogin` | app/modules/auth/service.py:112 | after a change the new password lets the account in and no other does |
| `AccountAnswers.NewUserLogsIn` | app/modules/users/service.py:54-60 | a new account can log in with the password it was created with and no other |
| `AccountAnswers.NewUserAnswers` | app/modules/users/service.py:50-60 | created exactly if the password is acceptable and the address free; each refusal exactly otherwise |
| `AccountAnswers.CreationNeedsAdmin` | app/modules/users/api.py:26-34 | an active account is refused the creation of accounts exactly if it is no administrator |
| `AccountAnswers.LoginOpensFamily` | app/modules/auth/service.py:63-64 | login opens one new family, for the account whose password was given, and changes nothing else |
| `AccountAnswers.RefreshExtendsFamily` | app/modules/auth/service.py:96-99 | refresh puts the token it answers at the end of the presented token's family, and changes nothing else |
| `AccountAnswers.IssuedLastsLifetime` | app/modules/auth/service.py:121-128 | a token just issued can be redeemed after any waiting time shorter than its lifetime, and after no other |
| `AccountAnswers.UserRowFollows` | app/modules/users/service.py:62-99 | an account row changes only while live, by the account's own password change or update, or by an administrator's update, role grant or deletion, and only in the fields these speak of |
| `AccountAnswers.NewUserRowFollows` | app/modules/users/service.py:50-60 | accounts appear by registration as employees or by an administrator in the role given, active and with the given address and name |
| `AccountAnswers.AdminAnswers` | app/modules/users/service.py:84-99 | role grants and deletions are carried out exactly for administrators, on live accounts, never on oneself for deletion, and take effect |
| `AccountAnswers.UpdateUserAnswers` | app/modules/users/service.py:62-82 | an update is carried out exactly for an administrator or the account itself, on a live account, without nulls, address clashes or a forbidden change of activity; then each given field has its value |
| `AuthService.RevokeFamilyKills` | app/modules/auth/repository.py:27-33 | the bulk update by family is exactly the death of that family |
| `AuthService.RevokeUserKillsAll` | app/modules/auth/repository.py:35-41 | the bulk update by user is exactly the death of that user's families |
| `AuthService.RevokeTailKills` | app/modules/auth/service.py:101-104 | revoking the newest row without successor is the death of its family |
| `AuthService.AddStartsFamily` | app/modules/auth/service.py:63-64 | a row under a new family identifier is a family of one token |
| `AuthService.RotateRefines` | app/modules/auth/service.py:96-98 | adding the successor and linking the old row to it appends to the family |
| `AuthService.RefreshOfRow` | app/modules/auth/service.py:68-99 | the stored row alone (flag, expiry, owner) decides the machine's answer to a refresh |
| `AuthService.FamiliesAreChains` | app/modules/auth/models.py:24-34 | in every reachable table a family is one chain from login token to tail: one user, all but the tail revoked and linked to the next, expiry never decreasing |
| `AuthService.ChainLinks` | app/modules/auth/repository.py:22-25 | links are injective, acyclic and stay in the family; at most one token of a family is live |
| `AuthService.TokensAreWriteOnce` | app/modules/auth/repository.py:22-41 | over any run rows stay, `revoked` and `replaced_by_id` are written once, nothing else of a row changes |
| `AuthService.FamiliesDetermineTable` | app/modules/auth/models.py:24-34 | the families determine the table row by row |
| `AuthService.HashesAreUnique` | app/modules/auth/repository.py:17-20 | a lookup by hash never meets two rows |
| `AuthService.FailedRequestTable` | app/modules/auth/service.py:73-88 | a failed request leaves the token table as it was, except that a replay has set `revoked` on the live rows of one family |
| `AuthService.UserRepository.GetByEmail` | app/modules/users/repository.py:14-17 | finds a live account with the address exactly when there is one |
| `AuthService.RefreshTokenRepository.GetByHash` | app/modules/auth/repository.py:17-20 | finds the row with the hash, or none has it |
| `AuthService.RefreshTokenRepository.RevokeToken` | app/modules/auth/repository.py:22-25 | sets both fields of one row, nothing else |
| `AuthService.RefreshTokenRepository.RevokeFamily` | app/modules/auth/repository.py:27-33 | the table after the update by family |
| `AuthService.RefreshTokenRepository.RevokeAllForUser` | app/modules/auth/repository.py:35-41 | the table after the update by user |
| `AuthService.Service.IssuePair` | app/modules/auth/service.py:118-129 | one new unrevoked row under the given family, with the expiry of now plus the lifetime |
| `AuthService.Service.StartFamily` | app/modules/auth/service.py:63 | a login opens a family that holds one token |
| `AuthService.Service.Login` | app/modules/auth/service.py:55-64 | answers and stores what the machine's login does |
| `AuthService.Service.RevokeReused` | app/modules/auth/service.py:81-84 | the family dies in the working and in the committed store |
| `AuthService.Service.Rotate` | app/modules/auth/service.py:96-99 | the looked-up successor is the row just added; the old row is revoked in its favour |
| `AuthService.Service.Redeem` | app/modules/auth/service.py:92-99 | the success branch appends exactly one token to the family |
| `AuthService.Service.Refresh` | app/modules/auth/service.py:68-99 | answers and stores what the machine's refresh does; only the replay branch commits |
| `AuthService.Service.Logout` | app/modules/auth/service.py:101-104 | answers and stores what the machine's logout does |
| `AuthService.Service.ChangePassword` | app/modules/auth/service.py:106-114 | new hash stored and all families of the user dead, or nothing |
| `AuthService.Service.NewUser` | app/modules/users/service.py:50-60 | registration and admin creation refine the machine |
| `AuthService.Service.CreateUser` | app/modules/users/api.py:26-34 | creation by an administrator refines the machine, both refusals included |
| `AuthService.Service.TakesOtherEmail` | app/modules/users/service.py:72-77 | true exactly if a live account has the new address |
| `AuthService.Service.UpdateUser` | app/modules/users/service.py:62-82 | the checks in their order, and the attribute loop, refine the machine |
| `AuthService.Service.Handle` | app/core/dependencies.py:27-35 | one request with commit or rollback: the committed store and the answer are one machine step |
| `AuthService.Service.Serve` | app/core/dependencies.py:27-35 | any sequence of requests: the committed store and all answers follow the machine; the committed token rows form chains, none is lost and each is written once |
| `AuthService.TableIsChains` | app/modules/auth/models.py:24-34 | the token table alone: every row lies on a simple chain that lists its family |
| `AuthService.StoredTokensAreChains` | app/modules/auth/service.py:63-99 | between requests the committed token rows are such chains, whatever was served before |
| `PartialUpdates.SetAttributes` | app/modules/users/service.py:78-80 | the attribute loop applies all changes in order and notices nulls that cannot be stored; tasks use the same |
| `PartialUpdates.SetsGivenFields` | app/modules/tasks/service.py:73-77 | after the loop each given field has its given value, for any row type with independent fields |
| `Ordering.SortOfKeep` | app/modules/tasks/repository.py:34-37 | filtering commutes with sorting |
| `Ordering.SortInsert` | app/modules/tasks/repository.py:34-37 | a new key splits the sorted list at its rank |
| `Board.RunStaysReachable` | app/modules/projects/models.py:64 | in every run (project, user) memberships are unique and assignees known |
| `Board.NextPositionIsMaxPlusStep` | app/modules/tasks/repository.py:39-47 | one step past the greatest live position of the column, or one step when it is empty |
| `Board.ArrivalIgnoresOldRow` | app/modules/tasks/service.py:93-98 | the unflushed row of a task coming from another column does not influence its new position |
| `Board.FlushedArrivalCounts` | app/core/database.py:95 | what flushing the status first would give instead: the greater of the unflushed position and one step past the task's own old position, or the latter alone when the column was empty |
| `Board.JoinsByRank` | app/modules/tasks/repository.py:34-37 | a written row stands in its column at the rank of its (position, id), the others keep their order |
| `Board.MoveRefinesBoard` | app/modules/tasks/service.py:92-102 | a move takes the task out of its column and appends it to the target, or, given a position, inserts it behind exactly the tasks that stood before (that position, its id); same-column moves included |
| `Board.CreateRefinesBoard` | app/modules/tasks/service.py:56-70 | a created task is appended to its column, all other columns keep |
| `Board.DeleteRefinesBoard` | app/modules/tasks/service.py:104-105 | a deleted task leaves its column, the rest keep their order |
| `Board.UpdateRefinesBoard` | app/modules/tasks/service.py:72-90 | a partial update changes no column |
| `Board.UpdateSetsGivenFields` | app/modules/tasks/service.py:73-77 | an update gives each named field its new value and leaves the others |
| `Board.TaskRowFollows` | app/modules/tasks/dependencies.py:23-32 | a stored task changes only while live, by a request naming it, from an account with access to its project; the version then rises by one |
| `WorkspaceRows.TaskFieldsFollow` | app/modules/tasks/service.py:72-105 | a carried-out move, update or deletion leaves exactly the fields asked for, all others as they were, and a new version exactly if something changed |
| `WorkspaceRows.TaskAnswers` | app/modules/tasks/dependencies.py:23-32 | requests on a task get past the access check exactly for administrators and members, on live tasks; each refusal exactly otherwise |
| `WorkspaceRows.UpdateTaskAnswers` | app/modules/tasks/service.py:72-77 | an allowed update fails exactly for a null that cannot be stored or an unknown assignee |
| `WorkspaceRows.NewTaskFollows` | app/modules/tasks/service.py:56-66 | a new task has its draft's fields, its creator, version 1, and stands in a live project open to the creator |
| `WorkspaceRows.CreateTaskAnswers` | app/modules/tasks/api.py:52-63 | created exactly for an administrator or member, in a live project, with a known assignee; each refusal exactly otherwise |
| `WorkspaceRows.InactiveIsRefused` | app/modules/auth/dependencies.py:35-38 | a request is refused for inactivity exactly if its account is unknown, deleted or deactivated |
| `WorkspaceRows.AdministrationNeedsAdmin` | app/modules/projects/api.py:36-101 | an active account is refused project and membership changes exactly if it is no administrator |
| `WorkspaceRows.ProjectRowFollows` | app/modules/projects/service.py:59-76 | a project row appears or changes only by an administrator's creation, or deletion naming it, and only so |
| `WorkspaceRows.CreateProjectAnswers` | app/modules/projects/service.py:59-61 | carried out exactly for an administrator, under an identifier not used before |
| `WorkspaceRows.DeleteProjectAnswers` | app/modules/projects/service.py:72-76 | carried out exactly for an administrator and a live project, which is then not live |
| `WorkspaceRows.MemberRowFollows` | app/modules/projects/service.py:80-115 | membership rows never change; they come and go only by an administrator's request naming project and user |
| `WorkspaceRows.AddMemberAnswers` | app/modules/projects/service.py:83-92 | added exactly for an administrator, a live project, a live account and no membership yet; each refusal exactly otherwise |
| `WorkspaceRows.RemoveMemberAnswers` | app/modules/projects/service.py:111-115 | removed exactly for an administrator and an existing membership |
| `WorkspaceRows.NewNotificationFollows` | app/modules/notifications/handlers.py:17-34 | a new notification is unread, for the member or assignee, and names the task as it now is and the project while that is live |
| `WorkspaceRows.MarkReadAnswers` | app/modules/notifications/service.py:28-36 | carried out exactly for the owner of an existing notification, which is then read |
| `WorkspaceRows.MarkAllReadAnswers` | app/modules/notifications/service.py:38-39 | carried out for every active account |
| `WorkspaceRows.AccountsAreForeign` | app/core/dependencies.py:27-35 | no workspace request writes an account row, and only waiting passes time |
| `Board.StepRefinesBoard` | app/modules/tasks/service.py:56-105 | every request of the workspace does to every column of every project exactly its board move, failed requests nothing |
| `Board.ColumnsInArrivalOrder` | app/modules/tasks/repository.py:39-47 | in every run without explicit positions a column shows its tasks in the order of their last arrival |
| `Board.PositionsStaySpaced` | app/core/constants.py:48 | in such runs live positions are positive multiples of 1000 and distinct within a column |
| `Board.FailureChangesNothing` | app/core/dependencies.py:27-35 | a failed workspace request changes nothing |
| `Board.ListedAreLive` | app/modules/tasks/repository.py:24-37 | the project list holds exactly the live tasks of the project, each once |
| `Board.ListSplitsIntoColumns` | app/modules/tasks/service.py:49-54 | the list by (status, position, id), filtered by status, is the column sorted on its own by (position, id) |
| `Board.RankIsAlphabetical` | app/shared/enums.py:31-35 | statuses are sorted as their stored strings are |
| `Board.ListIsOrdered` | app/modules/tasks/repository.py:34-37 | the project list runs by status string, then position, then id |
| `Board.ColumnsAddUp` | app/modules/tasks/service.py:51-54 | the four columns hold every listed task as often as the list does |
| `Board.BoardIsPartition` | app/modules/tasks/service.py:49-54 | the columns together are exactly the project's live tasks, each once |
| `WorkspaceServices.EventBus.Subscribe` | app/shared/events.py:55-56 | appends to the handlers of one type |
| `WorkspaceServices.EventBus.Publish` | app/shared/events.py:58-61 | as many notifications as there are handlers for the type, in the publisher's session |
| `WorkspaceServices.HandleMemberAdded` | app/modules/notifications/handlers.py:17-24 | one notification for the new member |
| `WorkspaceServices.HandleTaskAssigned` | app/modules/notifications/handlers.py:27-34 | one notification for the assignee |
| `WorkspaceServices.Register` | app/modules/notifications/handlers.py:37-39 | after startup each event type has exactly its one handler |
| `WorkspaceServices.OneDelivery` | app/main.py:82-84 | with those subscriptions publishing delivers exactly once |
| `WorkspaceServices.NotificationService.Create` | app/modules/notifications/service.py:41-50 | one new unread row |
| `WorkspaceServices.NotificationService.MarkRead` | app/modules/notifications/service.py:28-36 | refines the machine, with both error cases |
| `WorkspaceServices.NotificationService.MarkAllRead` | app/modules/notifications/repository.py:24-30 | the conditional bulk update sets the flag on all rows of the caller |
| `WorkspaceServices.ProjectService.AddMember` | app/modules/projects/service.py:80-109 | checks in order, one membership and one notification; the reload succeeds |
| `WorkspaceServices.ProjectService.RemoveMember` | app/modules/projects/service.py:111-115 | deleting the one row found removes the membership entirely |
| `WorkspaceServices.TaskService.KanbanBoard` | app/modules/tasks/service.py:49-54 | each bucket is the independently sorted column |
| `WorkspaceServices.TaskService.NotifyAssignment` | app/modules/tasks/service.py:107-118 | exactly one notification to the assignee |
| `WorkspaceServices.TaskService.CreateTask` | app/modules/tasks/service.py:56-70 | access check, position, row, notification as in the machine; the reload succeeds |
| `WorkspaceServices.TaskService.UpdateTask` | app/modules/tasks/service.py:72-90 | attribute loop, versioned flush and notification condition refine the machine |
| `WorkspaceServices.TaskService.UpdateStatus` | app/modules/tasks/service.py:92-102 | the status is assigned before the position is read, yet the position is that of the unflushed table |
| `WorkspaceServices.BucketByStatus` | app/modules/tasks/service.py:51-54 | the bucketing loop keeps the listed order within each status |
| `WorkspaceServices.Api.Route` | app/modules/tasks/dependencies.py:23-32 | task requests pass the access check first; every request does what the machine says |
| `WorkspaceServices.Api.Handle` | app/core/dependencies.py:27-35 | one request with commit or rollback is one machine step |
| `WorkspaceServices.Api.Serve` | app/core/dependencies.py:27-35 | any sequence of requests follows the machine |
| `NotificationRuns.UpdateTaskCounts` | app/modules/tasks/service.py:79-87 | an update sends one assignment notification exactly if the task becomes assigned to that user by somebody else |
| `NotificationRuns.CreateTaskCounts` | app/modules/tasks/service.py:65-67 | the same for a creation |
| `NotificationRuns.AddMemberCounts` | app/modules/projects/service.py:94-105 | a committed membership sends exactly one notification, to the new member |
| `NotificationRuns.StepConserves` | app/shared/events.py:58-61 | per user and kind, a request adds one notification if it is an occasion for one and none otherwise |
| `NotificationRuns.NotificationsConserved` | app/shared/events.py:58-61 | over any run a user's notifications of a kind number exactly the occasions: committed assignments by others, committed memberships |
| `NotificationRuns.JoinsIffMemberAdded` | app/modules/projects/service.py:80-109 | a membership appears exactly by a committed `add_member` for that user |
| `NotificationRuns.ReadFlagsOnlyRise` | app/modules/notifications/service.py:28-39 | over any run a notification only ever changes from unread to read |
| `NotificationRuns.MarkAllReadLasts` | app/modules/notifications/service.py:38-39 | whatever follows a `mark_all_read`, all notifications its caller had then stay read |
| `NotificationRuns.QuietRequest` | app/modules/notifications/service.py:28-39 | requests that publish nothing at most set read flags of their own actor |
| `ProjectScoping.ListAgreesWithPolicy` | app/modules/projects/permissions.py:26-39 | the unsearched list shows a project once if the policy admits the actor and never otherwise; admins see exactly the live projects |
| `ProjectScoping.ListAgreesInEveryRun` | app/modules/projects/service.py:29-49 | the same, admins included, after any run of membership, project and account changes |
| `ProjectScoping.ListExists` | app/modules/projects/repository.py:26-37 | whatever the tables hold, the query has a newest-first result that lists each row once |
| `ProjectScoping.DuplicatesIff` | app/modules/projects/repository.py:26-37 | the join repeats a project exactly if the actor has two memberships in one live project |
| `ProjectScoping.MembershipFollows` | app/modules/projects/service.py:80-115 | after a request an account is a member exactly if it was added, or was one and was not removed |
| `ProjectScoping.RoleIsGranted` | app/modules/projects/service.py:80-115 | in every run from a new installation a role is held exactly by a committed `add_member` that was not taken back |
| `ProjectScoping.AccessIsGranted` | app/modules/projects/permissions.py:26-39 | the policy, for any minimum role, admits to a live project its admins and exactly the holders of a standing grant that suffices; admins made every grant |
| `ProjectScoping.TaskAccessIff` | app/modules/tasks/dependencies.py:23-32 | the task check admits whom the project policy admits, and besides exactly the members and admins of a deleted project |
| `ProjectScoping.TaskAccessAgreesIff` | app/modules/tasks/dependencies.py:23-32 | the two agree on a task exactly if its project is live or the actor is neither admin nor member |
| `ProjectScoping.DeletedProjectStaysWritable` | app/modules/tasks/dependencies.py:23-32 | a run after which a member may not open the deleted project and still moves its task |
| `Locking.UpdateIsEdited` | app/modules/tasks/models.py:61-63 | a guarded UPDATE of the changed columns writes exactly the edited row |
| `Locking.FlushWithoutConflict` | app/modules/tasks/service.py:92-99 | without a conflicting write the guarded flush is the flush of the task services |
| `Locking.StepIsSerial` | app/modules/tasks/service.py:72-105 | in any interleaving a flush does nothing or acts as if the session ran alone at that moment |
| `Locking.GuardDetectsChange` | app/core/exceptions.py:131-137 | a changing flush is stored exactly if the row is still what was read and refused as stale otherwise; a flush without net change writes nothing |
| `Locking.InterleavingIsSerial` | app/modules/tasks/models.py:61-63 | between any two moments a row is the serial application of exactly the successful changing writes, and the version counts them |
| `SessionEdits.StoredFlushCarries` | app/modules/tasks/service.py:75-77 | in any interleaving a stored flush leaves a row that carries every edit no later one of its kind overrode, is otherwise as the committed row before, and has the next version |
| `SessionEdits.UnmodifiedIff` | app/modules/tasks/models.py:61-63 | a flush writes nothing exactly if the row read carries all the edits already |
| `SessionEdits.LastOfKindWins` | app/modules/tasks/service.py:75-77 | of several edits of one field the last is what the row carries |
| `SessionEdits.SessionCarriesOutUpdate` | app/modules/tasks/service.py:72-77 | a session that sets the given fields and is not disturbed leaves the table of the update request |
| `SessionEdits.SessionCarriesOutMove` | app/modules/tasks/service.py:92-99 | the same for a move |
| `SessionEdits.SessionCarriesOutDelete` | app/modules/tasks/service.py:104-105 | the same for a deletion |
| `SessionEdits.SessionCarriesOutCreate` | app/modules/tasks/service.py:60-65 | the same for a creation |
| `Locking.VersionCountsWrites` | app/modules/tasks/models.py:61 | a version is one plus the number of successful changing writes since the insert |
| `Locking.NoLostUpdate` | app/modules/tasks/models.py:61-63 | if a session's write is stored, the row did not change at any moment since the session read it |
| `Locking.StaleWriterIsRefused` | app/core/exceptions.py:131-137 | a session whose row was written since it read never changes the row |
| `Locking.DeletedRowIsFrozen` | app/modules/tasks/repository.py:19-22 | nothing changes a row after its soft delete committed |
| `Locking.FlushNotifies` | app/modules/tasks/service.py:72-87 | the comparison with the assignee the session read is right about the committed row; a stale flush notifies nobody |
| `Locking.InterleavingNotifies` | app/modules/tasks/service.py:65-87 | however sessions interleave, an account's assignment notifications number exactly the committed writes by others that assign a task to it |
| `ConcurrentBoard.EveryPositionWasRead` | app/modules/tasks/service.py:92-99 | in any interleaving without explicit positions every row stands where the session that put it there read a position, and has not moved since |
| `ConcurrentBoard.EarlierArrivalStandsFirst` | app/modules/tasks/repository.py:39-47 | an arrival committed before another one reads stands at least one step in front of it |
| `ConcurrentBoard.SharedPositionsOverlap` | app/modules/tasks/repository.py:39-47 | two tasks of a column share a position only if each was read for before the other was committed |
| `ConcurrentBoard.PositionsAreMultiples` | app/core/constants.py:48 | in any such interleaving live positions are positive multiples of 1000 |
| `ConcurrentBoard.OverlapSharesPosition` | app/modules/tasks/service.py:60-65 | two overlapping creations that do share a position |
| `Pagination.PagesBounds` | app/shared/pagination.py:97 | the page count is the least number of pages that holds all items |
| `Pagination.FirstPagesArePrefix` | app/shared/pagination.py:67-69 | the first n pages are the first n times size items |
| `Pagination.PagesCoverList` | app/shared/pagination.py:85-98 | pages 1 to `pages` concatenate to the whole list |
| `Pagination.PageSizes` | app/shared/pagination.py:94-98 | pages before the last are full, the last is not empty, later ones are |
| `Pagination.MetaIsAccurate` | app/shared/pagination.py:91-98 | the answer repeats page and size, its total is the length of the list, and its page count is the least one, whose pages make up the list |
| `Pagination.RowsFitMeta` | app/shared/pagination.py:94-98 | by the metadata of the answer: full pages before the last, a non-empty last page, nothing beyond |
| `Pagination.TaskOnSomePage` | app/modules/tasks/service.py:44-47 | every live task of a project is on one of the pages of the default listing |
| `Pagination.TaskOnOnePageOnly` | app/modules/tasks/service.py:44-47 | and at one place only |
| `Analytics.TasksByStatus` | app/modules/analytics/repository.py:58-69 | zeros overlaid with the grouped rows give every status its count |
| `Analytics.TasksByPriority` | app/modules/analytics/repository.py:71-82 | the same for priorities |
| `Analytics.TasksPerMember` | app/modules/analytics/repository.py:133-143 | the dictionary by full name, later rows replacing earlier ones |
| `Analytics.StatusCountsAddUp` | app/modules/analytics/repository.py:37-69 | status counts add up to the total |
| `Analytics.PriorityCountsAddUp` | app/modules/analytics/repository.py:71-82 | priority counts add up to the total |
| `Analytics.CountIsColumnLength` | app/modules/tasks/service.py:49-54 | each status count is the length of that kanban column |
| `Analytics.PriorityCountIsListed` | app/modules/analytics/repository.py:71-82 | each priority count is how often the project's task list shows that priority |
| `Analytics.ScopeIsListed` | app/modules/analytics/repository.py:37-41 | project counts range over the project's task list, dashboard counts over the lists of all projects |
| `Analytics.DaySplitsTasks` | app/modules/analytics/repository.py:84-129 | on any day the live tasks split into done, open without a date, overdue and upcoming; what is due today is not overdue |
| `Analytics.OverdueBounds` | app/modules/analytics/repository.py:84-129 | overdue plus done is at most the total; no task is both overdue and upcoming |
| `Analytics.RoundTenthIsClose` | app/modules/analytics/service.py:47 | rounding gives one decimal, stays in range, moves at most half a tenth, and takes the even neighbour in a tie |
| `Analytics.CompletionInRange` | app/modules/analytics/service.py:38-49 | the completion percentage lies in 0 to 100, within 0.05 of the exact value, and is 0 without tasks |
| `Analytics.ByNameTotal` | app/modules/analytics/repository.py:143 | the dictionary holds the whole count exactly when no full name repeats |
| `Analytics.LastRowCounts` | app/modules/analytics/repository.py:143 | of several rows of one name the dictionary holds the last |
| `Analytics.RowsCountUnion` | app/modules/analytics/repository.py:135-142 | the grouped rows count each assigned task once |
| `Analytics.GroupingExists` | app/modules/analytics/repository.py:135-142 | the grouped query has an answer for every store |
| `Analytics.RowNames` | app/modules/analytics/repository.py:135-142 | the names in the grouped rows are distinct exactly if those of the accounts with tasks in the project are |
| `Analytics.MemberCountsTotal` | app/modules/analytics/repository.py:133-143 | per-member counts add up to the assigned tasks exactly when no two accounts with tasks in the project share a full name, and fall short otherwise |
| `Analytics.SharedNameLosesCount` | app/modules/analytics/repository.py:143 | a run after which the counts fall short: two accounts of one name, a task each |
| `Cache.InMemoryCache.Get` | app/infrastructure/cache/memory.py:16-24 | answers what the history of writes says; eviction leaves that history untouched |
| `Cache.InMemoryCache.Set` | app/infrastructure/cache/memory.py:26-28 | records one write |
| `Cache.InMemoryCache.Delete` | app/infrastructure/cache/memory.py:30-31 | records one removal |
| `Cache.InMemoryCache.Clear` | app/infrastructure/cache/memory.py:33-34 | records the removal of everything |
| `Cache.InMemoryCache.Serve` | app/infrastructure/cache/memory.py:14-34 | for every run of calls under a monotone clock, each `get` answers what the writes so far say |
| `Cache.ServeFromNew` | app/infrastructure/cache/memory.py:13-34 | the same from a new cache, from the writes of the run alone |
| `Cache.LookupIff` | app/infrastructure/cache/memory.py:16-28 | `get` yields a value exactly if the last write affecting the key put it with lifetime absent, zero, or not yet over |
| `Cache.ExpiryIsFinal` | app/infrastructure/cache/memory.py:21-23 | a miss stays a miss until the next write |
| `Storage.UploadFile.Read` | app/infrastructure/storage/local.py:34 | a chunk of at most the asked size, empty exactly at the end, or an exception, or a cancellation |
| `Storage.LocalStorage.Append` | app/infrastructure/storage/local.py:35-42 | the size test comes before the write, and refuses exactly what would exceed the limit |
| `Storage.LocalStorage.Copy` | app/infrastructure/storage/local.py:34-42 | the chunk loop: on success the whole stream is in the file; at any end the file is a prefix of the stream, never over the limit |
| `Storage.LocalStorage.Stream` | app/infrastructure/storage/local.py:32-42 | the same from opening the file on |
| `Storage.LocalStorage.Save` | app/infrastructure/storage/local.py:28-49 | for every chunking and every failing read, open or write: accepts what the one-shot check accepts, stores the whole stream, never holds a file over the limit, and leaves no file under the key on failure; a cancellation after opening leaves a prefix of the stream |
| `Storage.LocalStorage.SaveNew` | app/infrastructure/storage/local.py:43-48 | under a new key an upload that is not stored leaves a file behind exactly if it was cancelled once the file was open |
| `Storage.LocalStorage.Delete` | app/infrastructure/storage/local.py:51-52 | removes the file if there is one |
| `Storage.S3Storage.Save` | app/infrastructure/storage/s3.py:44-61 | the one-shot check: stored in full exactly when readable, not over the limit and accepted by the bucket; nothing is stored otherwise |

## Left out

- Encoding and signing of access tokens, password hashing, random generators: foreign calls, taken as fresh or injective values.
- HTTP routing, schemas, middleware, rate limiting, health, metrics, configuration and password-policy checks: no state of their own.
- Task descriptions, notification titles, `updated_at` and project fields other than name, creator and creation time: stored and returned, never branched on.
- Partial updates of projects: the same attribute loop as for tasks and users, without checks.
- Comments, file attachments and their access: ownership checks only.
- Searches and explicit sort keys: sorting by a non-unique column promises no stable pages.
- Redis, Azure and queue adapters, the no-op cache, migrations and scripts: thin wrappers or schema only.
- Concurrent refreshes of one token: the rows carry no guard against them, and the code makes no promise.
- Cancellation of an upload to S3: the request ends, whether or not the object is still stored.
- Identity-map, eager-loading and `refresh` behaviour of the ORM.
- Foreign keys other than a task's assignee; rows are never removed from the tables they point to.
- Floating point: positions, the page-count division and the percentage are computed over reals and integers, so infinities, NaN and rounding of doubles are not covered.
- Identifiers drawn for a row that the database then rejects: the model draws none, which nothing observes.
- `recent_projects`, `recent_tasks` and the limits of dashboard lists.
- What other sessions see between a flush and its commit: `Locking` takes the two as one step, as a database that shows only committed rows does.
