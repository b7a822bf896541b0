/** Conservation of notifications over whole runs of the workspace machine. */
module NotificationRuns {
  import opened Common
  import opened PartialUpdates
  import opened Workspace
  import opened Board

  function Sent(notifications: Notifications, user: Id, kind: NotificationKind): set<Id> {
    set n | n in notifications && notifications[n].user == user && notifications[n].kind == kind
  }

  function AssigneeOf(tasks: Tasks, task: Id): Option<Id> {
    if task in tasks then tasks[task].assignee else None
  }

  /** Some task is assigned to `user` after the request and was not before. */
  ghost predicate BecomesAssigned(before: Tasks, after: Tasks, user: Id) {
    exists task :: AssigneeOf(before, task) != Some(user) && AssigneeOf(after, task) == Some(user)
  }

  /** The request is by somebody else and its committed effect assigns a task to `user`. */
  ghost predicate Assigns(s: State, request: Request, user: Id) {
    (request.CreateTask? || request.UpdateTask?) && request.actor != user
    && BecomesAssigned(s.store.tasks, Step(s, request).0.store.tasks, user)
  }

  /** The request's committed effect gives `user` a membership. */
  ghost predicate Joins(s: State, request: Request, user: Id) {
    exists m :: m in Step(s, request).0.store.members && m !in s.store.members
                && Step(s, request).0.store.members[m].user == user
  }

  ghost predicate Causes(s: State, request: Request, user: Id, kind: NotificationKind) {
    if kind.TaskAssignment? then Assigns(s, request, user) else Joins(s, request, user)
  }

  /** How many of the first `n` requests of a run cause a notification of this kind for `user`. */
  ghost function Occasions(s: State, run: seq<Request>, n: nat, user: Id, kind: NotificationKind): nat
    requires n <= |run|
  {
    if n == 0 then 0
    else Occasions(s, run, n - 1, user, kind) + if Causes(After(s, run, n - 1), run[n - 1], user, kind) then 1 else 0
  }

  // ---- One request -------------------------------------------------------------------------

  lemma OnlyAssigneeChangesAssign(row: Task, changes: seq<TaskChange>)
    ensures ApplyChanges(row, changes).assignee != row.assignee ==> SetsAssignee(changes)
  {
    KeepsField(ApplyChange, row, changes, (r: Task) => r.assignee, NamesAssignee);
  }

  lemma DeliveryCounts(s: State, event: Event, user: Id, kind: NotificationKind)
    requires s.supply !in s.store.notifications
    ensures |Sent(Deliver(s, event).store.notifications, user, kind)|
            == |Sent(s.store.notifications, user, kind)|
               + if NotificationFor(event).user == user && NotificationFor(event).kind == kind then 1 else 0
  {
    var before := Sent(s.store.notifications, user, kind);
    var after := Sent(Deliver(s, event).store.notifications, user, kind);
    if NotificationFor(event).user == user && NotificationFor(event).kind == kind {
      assert after == before + {s.supply};
    } else {
      assert after == before;
    }
  }

  /** Only one task changes, so only that one can become assigned. */
  lemma BecomesAssignedByWrite(before: Tasks, after: Tasks, task: Id, user: Id)
    requires forall other | other != task :: AssigneeOf(after, other) == AssigneeOf(before, other)
    ensures BecomesAssigned(before, after, user)
            <==> AssigneeOf(before, task) != Some(user) && AssigneeOf(after, task) == Some(user)
  {}

  lemma UpdateTaskCounts(s: State, actor: Id, task: Id, changes: seq<TaskChange>, user: Id, kind: NotificationKind)
    requires Reachable(s) && LiveTask(s.store.tasks, task)
    ensures var s' := UpdateTaskStep(s, actor, task, changes).0;
            |Sent(s'.store.notifications, user, kind)| == |Sent(s.store.notifications, user, kind)|
              + if kind.TaskAssignment? && actor != user && BecomesAssigned(s.store.tasks, s'.store.tasks, user)
                then 1 else 0
  {
    var s' := UpdateTaskStep(s, actor, task, changes).0;
    var row := ApplyChanges(s.store.tasks[task], changes);
    OnlyAssigneeChangesAssign(s.store.tasks[task], changes);
    BecomesAssignedByWrite(s.store.tasks, s'.store.tasks, task, user);
    var updated := s.(store := s.store.(tasks := Flushed(s.store.tasks, task, row)));
    if row.assignee.Some? {
      var projectName := ProjectName(s.store, row.project);
      DeliveryCounts(updated, TaskAssigned(task, row.title, projectName, row.assignee.value, actor), user, kind);
    }
  }

  lemma CreateTaskCounts(s: State, actor: Id, draft: TaskDraft, user: Id, kind: NotificationKind)
    requires Reachable(s) && actor in s.store.users
    ensures var s' := CreateTaskStep(s, actor, draft).0;
            |Sent(s'.store.notifications, user, kind)| == |Sent(s.store.notifications, user, kind)|
              + if kind.TaskAssignment? && actor != user && BecomesAssigned(s.store.tasks, s'.store.tasks, user)
                then 1 else 0
  {
    var (s', response) := CreateTaskStep(s, actor, draft);
    BecomesAssignedByWrite(s.store.tasks, s'.store.tasks, s.supply, user);
    if response.Created? && draft.assignee.Some? {
      var added := s.(store := s.store.(tasks := s'.store.tasks), supply := s.supply + 1);
      DeliveryCounts(added, TaskAssigned(s.supply, draft.title, s.store.projects[draft.project].name,
                                         draft.assignee.value, actor), user, kind);
    }
  }

  lemma AddMemberCounts(s: State, actor: Id, project: Id, member: Id, role: MemberRole,
                        user: Id, kind: NotificationKind)
    requires Reachable(s)
    ensures var (s', response) := AddMemberStep(s, actor, project, member, role);
            && |Sent(s'.store.notifications, user, kind)| == |Sent(s.store.notifications, user, kind)|
                 + (if kind.ProjectMembership? && response.Created? && member == user then 1 else 0)
            && (response.Created? ==> s'.store.members == s.store.members[s.supply := Member(project, member, role)])
  {
    var (s', response) := AddMemberStep(s, actor, project, member, role);
    if response.Created? {
      var added := s.(store := s.store.(members := s.store.members[s.supply := Member(project, member, role)]),
                      supply := s.supply + 1);
      DeliveryCounts(added, MemberAddedToProject(project, s.store.projects[project].name, member, actor), user, kind);
    }
  }

  lemma ReadingKeepsSent(before: Notifications, after: Notifications, user: Id, kind: NotificationKind)
    requires before.Keys == after.Keys
    requires forall n | n in before :: after[n] == before[n].(isRead := after[n].isRead)
    ensures Sent(before, user, kind) == Sent(after, user, kind)
  {}

  predicate Publishes(request: Request) {
    request.AddMember? || request.CreateTask? || request.UpdateTask?
  }

  /** A request that publishes nothing at most sets read flags, on rows of the account that asks. */
  lemma QuietRequest(s: State, request: Request)
    requires !Publishes(request)
    ensures var before, after := s.store.notifications, Step(s, request).0.store.notifications;
            && before.Keys == after.Keys
            && forall n | n in before ::
                 || after[n] == before[n]
                 || (after[n] == before[n].(isRead := true) && (request.MarkRead? || request.MarkAllRead?)
                     && request.actor == before[n].user && (request.MarkRead? ==> request.notification == n))
    ensures forall m | m in Step(s, request).0.store.members :: m in s.store.members
  {
    match request
    case RemoveMember(_, _, _) =>
    case MarkAllRead(_) =>
    case _ =>
  }

  lemma StepConserves(s: State, request: Request, user: Id, kind: NotificationKind)
    requires Reachable(s)
    ensures |Sent(Step(s, request).0.store.notifications, user, kind)|
            == |Sent(s.store.notifications, user, kind)| + if Causes(s, request, user, kind) then 1 else 0
  {
    var (s', response) := Step(s, request);
    if !Publishes(request) {
      QuietRequest(s, request);
      ReadingKeepsSent(s.store.notifications, s'.store.notifications, user, kind);
    } else if response.Failed? {
      assert s' == s;
    } else if request.AddMember? {
      AddMemberCounts(s, request.actor, request.project, request.user, request.role, user, kind);
      assert s.supply !in s.store.members && s'.store.members[s.supply].user == request.user;
    } else if request.CreateTask? {
      CreateTaskCounts(s, request.actor, request.draft, user, kind);
    } else {
      UpdateTaskCounts(s, request.actor, request.task, request.changes, user, kind);
    }
  }

  // ---- Runs ----------------------------------------------------------------------------------

  /** Notifications number exactly their occasions: none is lost, none is sent twice or without cause. */
  lemma {:induction false} NotificationsConserved(s: State, run: seq<Request>, n: nat, user: Id, kind: NotificationKind)
    requires Reachable(s) && n <= |run|
    ensures |Sent(After(s, run, n).store.notifications, user, kind)|
            == |Sent(s.store.notifications, user, kind)| + Occasions(s, run, n, user, kind)
  {
    if n == 0 {
    } else {
      NotificationsConserved(s, run, n - 1, user, kind);
      RunStaysReachable(s, run, n - 1);
      StepConserves(After(s, run, n - 1), run[n - 1], user, kind);
    }
  }

  /** A membership occasion is exactly a committed `add_member` for that user. */
  lemma JoinsIffMemberAdded(s: State, request: Request, user: Id)
    requires Reachable(s)
    ensures Joins(s, request, user) <==> request.AddMember? && request.user == user && Step(s, request).1.Created?
  {
    var (s', response) := Step(s, request);
    if request.AddMember? && response.Created? {
      AddMemberCounts(s, request.actor, request.project, request.user, request.role, user, ProjectMembership);
      assert s.supply in s'.store.members && s.supply !in s.store.members;
    } else if !Publishes(request) {
      QuietRequest(s, request);
    }
  }

  lemma StepKeepsNotification(s: State, request: Request, n: Id)
    requires Reachable(s) && n in s.store.notifications
    ensures var before := s.store.notifications[n];
            && n in Step(s, request).0.store.notifications
            && var after := Step(s, request).0.store.notifications[n];
               after == before.(isRead := after.isRead) && (before.isRead ==> after.isRead)
  {
    if !Publishes(request) {
      QuietRequest(s, request);
    }
  }

  /** A stored notification is never altered except that it becomes read, and stays read. */
  lemma {:induction false} ReadFlagsOnlyRise(s: State, run: seq<Request>, i: nat, j: nat, n: Id)
    requires Reachable(s) && i <= j <= |run| && n in After(s, run, i).store.notifications
    ensures var before := After(s, run, i).store.notifications[n];
            && n in After(s, run, j).store.notifications
            && var after := After(s, run, j).store.notifications[n];
               after == before.(isRead := after.isRead) && (before.isRead ==> after.isRead)
  {
    if i == j {
    } else {
      ReadFlagsOnlyRise(s, run, i, j - 1, n);
      RunStaysReachable(s, run, j - 1);
      var previous, request := After(s, run, j - 1), run[j - 1];
      StepKeepsNotification(previous, request, n);
      assert After(s, run, j) == Step(previous, request).0;
    }
  }

  /** `mark_all_read` reads exactly its caller's notifications. */
  lemma AllAreRead(s: State, actor: Id, n: Id)
    requires n in s.store.notifications && Step(s, MarkAllRead(actor)).1 == Ok
    ensures n in Step(s, MarkAllRead(actor)).0.store.notifications
    ensures Step(s, MarkAllRead(actor)).0.store.notifications[n]
            == if s.store.notifications[n].user == actor then s.store.notifications[n].(isRead := true)
               else s.store.notifications[n]
  {}

  /** Whatever follows a `mark_all_read`, the notifications its caller had then stay read. */
  lemma MarkAllReadLasts(s: State, run: seq<Request>, i: nat, j: nat, n: Id)
    requires Reachable(s) && i < j <= |run|
    requires run[i].MarkAllRead? && Reply(s, run, i) == Ok
    requires n in After(s, run, i).store.notifications && After(s, run, i).store.notifications[n].user == run[i].actor
    ensures n in After(s, run, j).store.notifications && After(s, run, j).store.notifications[n].isRead
  {
    AllAreRead(After(s, run, i), run[i].actor, n);
    assert run[i] == MarkAllRead(run[i].actor);
    ReadFlagsOnlyRise(s, run, i + 1, j, n);
  }
}
