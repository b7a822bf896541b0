/**
 What each workspace request answers and which rows it may change, table by table, in terms of the
 rows alone.
 */
module WorkspaceRows {
  import opened Common
  import opened PartialUpdates
  import opened Workspace
  import opened Board
  import Accounts

  // ---- Accounts that may act -------------------------------------------------------------------

  predicate Active(store: Store, u: Id) {
    u in store.users && store.users[u].deletedAt == None && store.users[u].isActive
  }

  predicate ActiveAdmin(store: Store, u: Id) {
    Active(store, u) && store.users[u].role == Accounts.Admin
  }

  predicate BelongsTo(member: Member, project: Id, user: Id) {
    member.project == project && member.user == user
  }

  /** An administrator, or an account with a membership row for the project. */
  predicate MayWork(store: Store, u: Id, project: Id) {
    && Active(store, u)
    && (store.users[u].role == Accounts.Admin
        || exists m | m in store.members :: BelongsTo(store.members[m], project, u))
  }

  predicate Exists(store: Store, project: Id) {
    project in store.projects && store.projects[project].deletedAt == None
  }

  predicate ByActor(request: Request) {
    !request.PutUser? && !request.Wait?
  }

  /** Projects and memberships are changed by these requests only. */
  predicate Administers(request: Request) {
    request.CreateProject? || request.DeleteProject? || request.AddMember? || request.RemoveMember?
  }

  /** A deleted, deactivated or unknown account is refused whatever it asks for, and only such a one. */
  lemma InactiveIsRefused(s: State, request: Request)
    requires ByActor(request)
    ensures Step(s, request).1 == Failed(InactiveAccount) <==> !Active(s.store, request.actor)
    ensures !Active(s.store, request.actor) ==> Step(s, request).0 == s
  {}

  /** Whoever is active but no administrator is refused the administration of projects. */
  lemma AdministrationNeedsAdmin(s: State, request: Request)
    requires ByActor(request) && Administers(request) && Active(s.store, request.actor)
    ensures Step(s, request).1 == Failed(Forbidden) <==> !ActiveAdmin(s.store, request.actor)
  {}

  lemma MemberIsMember(store: Store, project: Id, user: Id)
    ensures IsMember(store.members, project, user)
            <==> exists m | m in store.members :: BelongsTo(store.members[m], project, user)
  {
    if m :| m in store.members && BelongsTo(store.members[m], project, user) {
      assert MemberRow(store.members, m, project, user);
    }
  }

  // ---- Projects --------------------------------------------------------------------------------

  /** A project appears or changes only at an administrator's request that says so. */
  lemma ProjectRowFollows(s: State, request: Request, project: Id)
    requires Reachable(s)
    ensures project in s.store.projects ==> project in Step(s, request).0.store.projects
    ensures project in Step(s, request).0.store.projects ==>
              var now := Step(s, request).0.store.projects[project];
              if project !in s.store.projects then
                && request.CreateProject? && ActiveAdmin(s.store, request.actor)
                && Step(s, request).1 == Created(project)
                && now == Project(request.name, request.actor, s.clock, None)
              else
                || now == s.store.projects[project]
                || (&& request.DeleteProject? && request.project == project && ActiveAdmin(s.store, request.actor)
                    && s.store.projects[project].deletedAt == None
                    && now == s.store.projects[project].(deletedAt := Some(s.clock)))
  {
    assert s.supply !in s.store.projects;
  }

  /** An administrator's creation is always carried out, under a new identifier. */
  lemma CreateProjectAnswers(s: State, actor: Id, name: string)
    requires Reachable(s)
    ensures var (s', response) := Step(s, CreateProject(actor, name));
            && (response.Created? <==> ActiveAdmin(s.store, actor))
            && (response.Created? ==> response.id !in s.store.projects && Exists(s'.store, response.id))
  {
    assert s.supply !in s.store.projects;
  }

  /** An administrator's deletion of a live project is carried out, and then the project is not live. */
  lemma DeleteProjectAnswers(s: State, actor: Id, project: Id)
    ensures var (s', response) := Step(s, DeleteProject(actor, project));
            && (response == Ok <==> ActiveAdmin(s.store, actor) && Exists(s.store, project))
            && (response == Ok ==> !Exists(s'.store, project))
            && (response == Failed(NotFound) <==> ActiveAdmin(s.store, actor) && !Exists(s.store, project))
  {}

  // ---- Memberships -----------------------------------------------------------------------------

  /** Membership rows never change; they come and go only at an administrator's request that says so. */
  lemma MemberRowFollows(s: State, request: Request, m: Id)
    requires Reachable(s)
    ensures m in s.store.members ==>
              if m in Step(s, request).0.store.members then
                Step(s, request).0.store.members[m] == s.store.members[m]
              else
                && request.RemoveMember? && ActiveAdmin(s.store, request.actor)
                && BelongsTo(s.store.members[m], request.project, request.user)
    ensures m !in s.store.members && m in Step(s, request).0.store.members ==>
              && request.AddMember? && ActiveAdmin(s.store, request.actor) && Step(s, request).1 == Created(m)
              && Step(s, request).0.store.members[m] == Member(request.project, request.user, request.role)
  {
    assert s.supply !in s.store.members;
    match request
    case AddMember(_, _, _, _) =>
    case RemoveMember(_, _, _) =>
    case _ =>
  }

  lemma AddMemberAnswers(s: State, actor: Id, project: Id, user: Id, role: MemberRole)
    ensures var response := Step(s, AddMember(actor, project, user, role)).1;
            var found := Exists(s.store, project) && user in s.store.users && s.store.users[user].deletedAt == None;
            var already := exists m | m in s.store.members :: BelongsTo(s.store.members[m], project, user);
            && (response.Created? <==> ActiveAdmin(s.store, actor) && found && !already)
            && (response == Failed(NotFound) <==> ActiveAdmin(s.store, actor) && !found)
            && (response == Failed(AlreadyMember) <==> ActiveAdmin(s.store, actor) && found && already)
  {
    MemberIsMember(s.store, project, user);
  }

  lemma RemoveMemberAnswers(s: State, actor: Id, project: Id, user: Id)
    ensures var response := Step(s, RemoveMember(actor, project, user)).1;
            var found := exists m | m in s.store.members :: BelongsTo(s.store.members[m], project, user);
            && (response == Ok <==> ActiveAdmin(s.store, actor) && found)
            && (response == Failed(NotFound) <==> ActiveAdmin(s.store, actor) && !found)
  {
    MemberIsMember(s.store, project, user);
  }

  // ---- Tasks -----------------------------------------------------------------------------------

  /** Whether the task may be touched decides whether a request on it is carried out; nulls aside. */
  lemma TaskAnswers(s: State, request: Request)
    requires request.UpdateTask? || request.MoveTask? || request.DeleteTask?
    ensures var response := Step(s, request).1;
            var found := request.task in s.store.tasks && s.store.tasks[request.task].deletedAt == None;
            var may := found && MayWork(s.store, request.actor, s.store.tasks[request.task].project);
            && (!request.UpdateTask? ==> (response == Ok <==> may))
            && (response == Ok || response == Failed(Integrity) <==> may)
            && (response == Failed(NotFound) <==> Active(s.store, request.actor) && !found)
            && (response == Failed(Forbidden) <==> Active(s.store, request.actor) && found && !may)
  {
    if request.task in s.store.tasks {
      MemberIsMember(s.store, s.store.tasks[request.task].project, request.actor);
    }
  }

  /** A partial update fails at the flush exactly for a null that cannot be stored or an unknown assignee. */
  lemma UpdateTaskAnswers(s: State, actor: Id, task: Id, changes: TaskData)
    requires Reachable(s) && task in s.store.tasks && s.store.tasks[task].deletedAt == None
    requires MayWork(s.store, actor, s.store.tasks[task].project)
    ensures Step(s, UpdateTask(actor, task, changes)).1 == Ok <==>
              && (forall i | 0 <= i < |changes| :: !IsNull(changes[i]))
              && (forall i | 0 <= i < |changes| && changes[i].Assignee? && changes[i].assignee.Some? ::
                    changes[i].assignee.value in s.store.users)
  {
    MemberIsMember(s.store, s.store.tasks[task].project, actor);
    if !HasNull(changes) {
      assert forall i | 0 <= i < |changes| :: !IsNull(changes[i]);
      UpdateSetsGivenFields(s.store.tasks[task], changes);
      if i :| 0 <= i < |changes| && changes[i].Assignee? {
        assert HasValue(ApplyChanges(s.store.tasks[task], changes), changes[i]);
      }
    }
  }

  /** What a request may have made of the row of a live task. */
  predicate Allowed(s: State, request: Request, before: Task, after: Task) {
    match request
    case MoveTask(_, _, status, position) =>
      && after.status == status && (position.Some? ==> after.position == position.value)
      && after == before.(status := status, position := after.position, version := after.version)
    case DeleteTask(_, _) => after == before.(deletedAt := Some(s.clock), version := after.version)
    case UpdateTask(_, _, changes) =>
      && (forall i | 0 <= i < |changes| :: HasValue(after, changes[i]))
      && (after.title == before.title || Any(changes, NamesTitle))
      && (after.priority == before.priority || Any(changes, NamesPriority))
      && (after.assignee == before.assignee || Any(changes, NamesAssignee))
      && (after.dueDate == before.dueDate || Any(changes, NamesDueDate))
      && after == before.(title := after.title, priority := after.priority, assignee := after.assignee,
                          dueDate := after.dueDate, version := after.version)
    case _ => false
  }

  /** The row has a new version exactly if something else of it is new. */
  predicate VersionFollows(before: Task, after: Task) {
    if after.(version := before.version) == before then after == before else after.version == before.version + 1
  }

  lemma UpdateAppliesAll(s: State, request: Request)
    requires request.UpdateTask? && Step(s, request).1 == Ok
    ensures !HasNull(request.changes)
  {}

  /**
   A request on a task that is carried out leaves its row as asked for, every field it does not
   speak of as it was, and the version counting real changes only.
   */
  lemma TaskFieldsFollow(s: State, request: Request)
    requires Reachable(s) && (request.UpdateTask? || request.MoveTask? || request.DeleteTask?)
    requires Step(s, request).1 == Ok
    ensures request.task in s.store.tasks && request.task in Step(s, request).0.store.tasks
    ensures var before, after := s.store.tasks[request.task], Step(s, request).0.store.tasks[request.task];
            Allowed(s, request, before, after) && VersionFollows(before, after)
  {
    WrittenTasks(s, request);
    if request.UpdateTask? {
      var row := s.store.tasks[request.task];
      UpdateAppliesAll(s, request);
      UpdateSetsGivenFields(row, request.changes);
      ApplyChangesKeepsPlace(row, request.changes);
    }
  }

  /**
   A new task is what its draft says, by its creator, live and at version 1, in a live project that is
   open to the creator.
   */
  lemma NewTaskFollows(s: State, request: Request, task: Id)
    requires Reachable(s) && task !in s.store.tasks && task in Step(s, request).0.store.tasks
    ensures request.CreateTask? && Step(s, request).1 == Created(task)
    ensures MayWork(s.store, request.actor, request.draft.project) && Exists(s.store, request.draft.project)
    ensures var row := Step(s, request).0.store.tasks[task];
            && row.project == request.draft.project && row.title == request.draft.title
            && row.status == request.draft.status && row.priority == request.draft.priority
            && row.assignee == request.draft.assignee && row.dueDate == request.draft.dueDate
            && row.createdBy == request.actor && row.version == 1 && row.deletedAt == None
  {
    if !WritesTasks(request) || Step(s, request).1.Failed? {
      OthersKeepTasks(s, request);
    } else {
      WrittenTasks(s, request);
      MemberIsMember(s.store, request.draft.project, request.actor);
    }
  }

  lemma CreateTaskAnswers(s: State, actor: Id, draft: TaskDraft)
    ensures var response := Step(s, CreateTask(actor, draft)).1;
            var may := MayWork(s.store, actor, draft.project);
            var known := draft.assignee.Some? ==> draft.assignee.value in s.store.users;
            && (response.Created? <==> may && Exists(s.store, draft.project) && known)
            && (response == Failed(Forbidden) <==> Active(s.store, actor) && !may)
            && (response == Failed(NotFound) <==> may && !Exists(s.store, draft.project))
            && (response == Failed(Integrity) <==> may && Exists(s.store, draft.project) && !known)
  {
    MemberIsMember(s.store, draft.project, actor);
  }

  // ---- Notifications ---------------------------------------------------------------------------

  function NameIfLive(store: Store, project: Id): string {
    if Exists(store, project) then store.projects[project].name else ""
  }

  /** What a new notification says, from the rows its request finds and leaves. */
  predicate Says(before: Store, after: Store, request: Request, row: Notification) {
    match request
    case AddMember(_, project, user, _) =>
      && project in before.projects
      && row == Notification(user, ProjectMembership,
                             "You have been added to project \"" + before.projects[project].name + "\".", false)
    case CreateTask(_, draft) =>
      && draft.project in before.projects && draft.assignee.Some?
      && row == Notification(draft.assignee.value, TaskAssignment,
                             "You have been assigned \"" + draft.title + "\" in project \""
                             + before.projects[draft.project].name + "\".", false)
    case UpdateTask(_, task, _) =>
      && task in after.tasks && after.tasks[task].assignee.Some?
      && row == Notification(after.tasks[task].assignee.value, TaskAssignment,
                             "You have been assigned \"" + after.tasks[task].title + "\" in project \""
                             + NameIfLive(before, after.tasks[task].project) + "\".", false)
    case _ => false
  }

  /** Every new notification is unread, names its task as it now is, and the project while that is live. */
  lemma NewNotificationFollows(s: State, request: Request, n: Id)
    requires Reachable(s) && n !in s.store.notifications && n in Step(s, request).0.store.notifications
    ensures Says(s.store, Step(s, request).0.store, request, Step(s, request).0.store.notifications[n])
  {
    match request
    case AddMember(_, _, _, _) =>
    case CreateTask(_, _) =>
    case UpdateTask(_, task, changes) => ApplyChangesKeepsPlace(s.store.tasks[task], changes);
    case _ =>
  }

  /** Marking one notification read is for its owner alone, and reads it. */
  lemma MarkReadAnswers(s: State, actor: Id, n: Id)
    ensures var (s', response) := Step(s, MarkRead(actor, n));
            && (response == Ok <==>
                  Active(s.store, actor) && n in s.store.notifications && s.store.notifications[n].user == actor)
            && (response == Failed(NotFound) <==> Active(s.store, actor) && n !in s.store.notifications)
            && (response == Failed(Forbidden) <==>
                  Active(s.store, actor) && n in s.store.notifications && s.store.notifications[n].user != actor)
            && (response == Ok ==> n in s'.store.notifications && s'.store.notifications[n].isRead)
  {}

  /** Every active account may mark all its notifications read. */
  lemma MarkAllReadAnswers(s: State, actor: Id)
    ensures Step(s, MarkAllRead(actor)).1 == Ok <==> Active(s.store, actor)
  {}

  // ---- Accounts and time -----------------------------------------------------------------------

  /** No request of these modules writes an account, and only waiting passes time. */
  lemma AccountsAreForeign(s: State, request: Request)
    ensures Step(s, request).0.store.users
            == if request.PutUser? then s.store.users[request.id := request.account] else s.store.users
    ensures Step(s, request).0.clock == s.clock + if request.Wait? then request.time else 0
  {
    if !Step(s, request).1.Failed? && request.UpdateTask? {
      WrittenTasks(s, request);
    }
  }
}
