/**
 The workspace machine: projects, memberships, tasks and notifications, with every request of
 app/modules/projects, app/modules/tasks and app/modules/notifications as one step.
 */
module Workspace {
  import opened Common
  import opened Ordering
  import opened PartialUpdates
  import Accounts

  // ---- Rows ------------------------------------------------------------------------------

  datatype Status = Todo | InProgress | InReview | Done

  datatype Priority = Low | Medium | High | Urgent

  datatype MemberRole = Lead | Contributor

  datatype Project = Project(name: string, createdBy: Id, createdAt: int, deletedAt: Option<int>)

  datatype Member = Member(project: Id, user: Id, role: MemberRole)

  datatype Task = Task(project: Id, title: string, status: Status, priority: Priority, assignee: Option<Id>,
                       dueDate: Option<int>, position: real, createdBy: Id, version: int, deletedAt: Option<int>)

  datatype NotificationKind = ProjectMembership | TaskAssignment

  datatype Notification = Notification(user: Id, kind: NotificationKind, message: string, isRead: bool)

  type Tasks = map<Id, Task>

  type Notifications = map<Id, Notification>

  /** The tables a session reads and writes. `users` is the account table, changed elsewhere. */
  datatype Store = Store(users: map<Id, Accounts.User>, projects: map<Id, Project>, members: map<Id, Member>,
                         tasks: Tasks, notifications: Notifications)

  datatype State = State(store: Store, clock: int, supply: nat)

  // ---- Requests --------------------------------------------------------------------------

  datatype TaskDraft = TaskDraft(project: Id, title: string, status: Status, priority: Priority,
                                 assignee: Option<Id>, dueDate: Option<int>)

  /** One item of a partial task update; None is an explicit JSON null. Status and position are not settable here. */
  datatype TaskChange =
    | Title(title: Option<string>)
    | SetPriority(priority: Option<Priority>)
    | Assignee(assignee: Option<Id>)
    | DueDate(dueDate: Option<int>)

  predicate SameKey(a: TaskChange, b: TaskChange) {
    a.Title? == b.Title? && a.SetPriority? == b.SetPriority? && a.Assignee? == b.Assignee?
  }

  /** The items of a dictionary: no key occurs twice. */
  type TaskData = changes: seq<TaskChange> | DistinctKeys(changes, SameKey) witness []

  /** `PutUser` is any request of the accounts modules, seen from here: one account row changes. */
  datatype Request =
    | PutUser(id: Id, account: Accounts.User)
    | Wait(time: nat)
    | CreateProject(actor: Id, name: string)
    | DeleteProject(actor: Id, project: Id)
    | AddMember(actor: Id, project: Id, user: Id, role: MemberRole)
    | RemoveMember(actor: Id, project: Id, user: Id)
    | CreateTask(actor: Id, draft: TaskDraft)
    | UpdateTask(actor: Id, task: Id, changes: TaskData)
    | MoveTask(actor: Id, task: Id, status: Status, position: Option<real>)
    | DeleteTask(actor: Id, task: Id)
    | MarkRead(actor: Id, notification: Id)
    | MarkAllRead(actor: Id)

  datatype Error = InactiveAccount | Forbidden | NotFound | AlreadyMember | Integrity

  datatype Response =
    | Ok
    | Created(id: Id)
    | Failed(error: Error)

  // ---- Queries ---------------------------------------------------------------------------

  predicate IsAdmin(store: Store, actor: Id)
    requires actor in store.users
  {
    store.users[actor].role == Accounts.Admin
  }

  predicate LiveProject(store: Store, project: Id) {
    project in store.projects && store.projects[project].deletedAt.None?
  }

  predicate MemberRow(members: map<Id, Member>, id: Id, project: Id, user: Id) {
    id in members && members[id].project == project && members[id].user == user
  }

  predicate IsMember(members: map<Id, Member>, project: Id, user: Id) {
    exists id | id in members :: MemberRow(members, id, project, user)
  }

  predicate LiveTask(tasks: Tasks, task: Id) {
    task in tasks && tasks[task].deletedAt.None?
  }

  predicate InColumn(tasks: Tasks, task: Id, project: Id, status: Status) {
    LiveTask(tasks, task) && tasks[task].project == project && tasks[task].status == status
  }

  /** The keys of one board column, by position and then id. */
  function ColumnKeys(tasks: Tasks, project: Id, status: Status): (keys: set<Entry>)
    ensures forall e :: e in keys <==>
              InColumn(tasks, e.id, project, status) && e == Entry(0, tasks[e.id].position, e.id)
  {
    set task | task in tasks && InColumn(tasks, task, project, status) :: Entry(0, tasks[task].position, task)
  }

  /** A board column as users see it. */
  function Column(tasks: Tasks, project: Id, status: Status): seq<Id> {
    Ids(Sort(ColumnKeys(tasks, project, status)))
  }

  const POSITION_STEP: real := 1000.0

  /** The greatest position of the live tasks in a column, or 0 when there are none, plus one step. */
  function NextPosition(tasks: Tasks, project: Id, status: Status): real {
    var keys := Sort(ColumnKeys(tasks, project, status));
    (if keys == [] then 0.0 else keys[|keys| - 1].position) + POSITION_STEP
  }

  // ---- Events ----------------------------------------------------------------------------

  datatype Event =
    | MemberAddedToProject(project: Id, projectName: string, user: Id, actor: Id)
    | TaskAssigned(task: Id, taskTitle: string, projectName: string, assignee: Id, actor: Id)

  function NotificationFor(event: Event): Notification {
    match event
    case MemberAddedToProject(_, projectName, user, _) =>
      Notification(user, ProjectMembership, "You have been added to project \"" + projectName + "\".", false)
    case TaskAssigned(_, taskTitle, projectName, assignee, _) =>
      Notification(assignee, TaskAssignment,
                   "You have been assigned \"" + taskTitle + "\" in project \"" + projectName + "\".", false)
  }

  /** One notification row for one event, in the publisher's session. */
  function Deliver(s: State, event: Event): State {
    s.(store := s.store.(notifications := s.store.notifications[s.supply := NotificationFor(event)]),
       supply := s.supply + 1)
  }

  // ---- Partial task updates --------------------------------------------------------------

  /** One field of a task. A null title or priority cannot be stored; the flush rejects it. */
  function ApplyChange(row: Task, change: TaskChange): Task {
    match change
    case Title(Some(title)) => row.(title := title)
    case SetPriority(Some(priority)) => row.(priority := priority)
    case Assignee(assignee) => row.(assignee := assignee)
    case DueDate(dueDate) => row.(dueDate := dueDate)
    case _ => row
  }

  function ApplyChanges(row: Task, changes: seq<TaskChange>): Task {
    ApplyAll(ApplyChange, row, changes)
  }

  predicate IsNull(change: TaskChange) {
    change in {Title(None), SetPriority(None)}
  }

  predicate HasNull(changes: seq<TaskChange>) {
    Any(changes, IsNull)
  }

  predicate NamesTitle(change: TaskChange) {
    change.Title?
  }

  predicate NamesPriority(change: TaskChange) {
    change.SetPriority?
  }

  predicate NamesDueDate(change: TaskChange) {
    change.DueDate?
  }

  predicate NamesAssignee(change: TaskChange) {
    change.Assignee?
  }

  predicate SetsAssignee(changes: seq<TaskChange>) {
    Any(changes, NamesAssignee)
  }

  // ---- Steps -----------------------------------------------------------------------------

  predicate NeedsAdmin(request: Request) {
    request.CreateProject? || request.DeleteProject? || request.AddMember? || request.RemoveMember?
  }

  function WithoutMember(members: map<Id, Member>, project: Id, user: Id): map<Id, Member> {
    map id | id in members && !MemberRow(members, id, project, user) :: members[id]
  }

  function AllRead(notifications: Notifications, user: Id): Notifications {
    map n | n in notifications ::
      if notifications[n].user == user then notifications[n].(isRead := true) else notifications[n]
  }

  /** `get_accessible_task`: Ok, or why the task may not be touched. */
  function TaskAccess(store: Store, actor: Id, task: Id): Response
    requires actor in store.users
  {
    if !LiveTask(store.tasks, task) then Failed(NotFound)
    else if !IsAdmin(store, actor) && !IsMember(store.members, store.tasks[task].project, actor) then Failed(Forbidden)
    else Ok
  }

  function AddMemberStep(s: State, actor: Id, project: Id, user: Id, role: MemberRole): (State, Response) {
    if !LiveProject(s.store, project) then (s, Failed(NotFound))
    else if !Accounts.Live(s.store.users, user) then (s, Failed(NotFound))
    else if IsMember(s.store.members, project, user) then (s, Failed(AlreadyMember))
    else
      var added := s.(store := s.store.(members := s.store.members[s.supply := Member(project, user, role)]),
                      supply := s.supply + 1);
      var event := MemberAddedToProject(project, s.store.projects[project].name, user, actor);
      (Deliver(added, event), Created(s.supply))
  }

  /** The row a draft becomes: at the end of its column, at version 1. */
  function NewTask(tasks: Tasks, actor: Id, draft: TaskDraft): Task {
    Task(draft.project, draft.title, draft.status, draft.priority, draft.assignee, draft.dueDate,
         NextPosition(tasks, draft.project, draft.status), actor, 1, None)
  }

  predicate KnownAssignee(users: map<Id, Accounts.User>, assignee: Option<Id>) {
    assignee.Some? ==> assignee.value in users
  }

  function CreateTaskStep(s: State, actor: Id, draft: TaskDraft): (State, Response)
    requires actor in s.store.users
  {
    if !IsAdmin(s.store, actor) && !IsMember(s.store.members, draft.project, actor) then (s, Failed(Forbidden))
    else if !LiveProject(s.store, draft.project) then (s, Failed(NotFound))
    else if !KnownAssignee(s.store.users, draft.assignee) then (s, Failed(Integrity))
    else
      var task := NewTask(s.store.tasks, actor, draft);
      var added := s.(store := s.store.(tasks := s.store.tasks[s.supply := task]), supply := s.supply + 1);
      if draft.assignee.Some? && draft.assignee.value != actor then
        var projectName := s.store.projects[draft.project].name;
        var event := TaskAssigned(s.supply, task.title, projectName, draft.assignee.value, actor);
        (Deliver(added, event), Created(s.supply))
      else (added, Created(s.supply))
  }

  /** `flush` of one loaded task: an UPDATE with a new version, or nothing when no column changed. */
  function Flushed(tasks: Tasks, task: Id, row: Task): Tasks
    requires task in tasks
  {
    if row == tasks[task] then tasks else tasks[task := row.(version := row.version + 1)]
  }

  /** `next_position` is read before the new status is flushed, so it still sees the old row. */
  function Moved(tasks: Tasks, task: Id, status: Status, position: Option<real>): Tasks
    requires task in tasks
  {
    var target := if position.Some? then position.value else NextPosition(tasks, tasks[task].project, status);
    Flushed(tasks, task, tasks[task].(status := status, position := target))
  }

  function ProjectName(store: Store, project: Id): string {
    if LiveProject(store, project) then store.projects[project].name else ""
  }

  function UpdateTaskStep(s: State, actor: Id, task: Id, changes: seq<TaskChange>): (State, Response)
    requires task in s.store.tasks
  {
    var previous := s.store.tasks[task].assignee;
    var row := ApplyChanges(s.store.tasks[task], changes);
    if HasNull(changes) || !KnownAssignee(s.store.users, row.assignee) then (s, Failed(Integrity))
    else
      var updated := s.(store := s.store.(tasks := Flushed(s.store.tasks, task, row)));
      if SetsAssignee(changes) && row.assignee.Some? && row.assignee != previous && row.assignee.value != actor then
        var event := TaskAssigned(task, row.title, ProjectName(s.store, row.project), row.assignee.value, actor);
        (Deliver(updated, event), Ok)
      else (updated, Ok)
  }

  /** A request of an account that may act. */
  function Perform(s: State, request: Request): (State, Response)
    requires !request.PutUser? && !request.Wait? && request.actor in s.store.users
  {
    match request
    case CreateProject(actor, name) =>
      var project := Project(name, actor, s.clock, None);
      (s.(store := s.store.(projects := s.store.projects[s.supply := project]), supply := s.supply + 1),
       Created(s.supply))
    case DeleteProject(actor, project) =>
      if !LiveProject(s.store, project) then (s, Failed(NotFound))
      else
        var deleted := s.store.projects[project].(deletedAt := Some(s.clock));
        (s.(store := s.store.(projects := s.store.projects[project := deleted])), Ok)
    case AddMember(actor, project, user, role) => AddMemberStep(s, actor, project, user, role)
    case RemoveMember(actor, project, user) =>
      if !IsMember(s.store.members, project, user) then (s, Failed(NotFound))
      else (s.(store := s.store.(members := WithoutMember(s.store.members, project, user))), Ok)
    case CreateTask(actor, draft) => CreateTaskStep(s, actor, draft)
    case UpdateTask(actor, task, changes) =>
      var access := TaskAccess(s.store, actor, task);
      if access.Failed? then (s, access) else UpdateTaskStep(s, actor, task, changes)
    case MoveTask(actor, task, status, position) =>
      var access := TaskAccess(s.store, actor, task);
      if access.Failed? then (s, access)
      else (s.(store := s.store.(tasks := Moved(s.store.tasks, task, status, position))), Ok)
    case DeleteTask(actor, task) =>
      var access := TaskAccess(s.store, actor, task);
      if access.Failed? then (s, access)
      else
        var deleted := s.store.tasks[task].(deletedAt := Some(s.clock));
        (s.(store := s.store.(tasks := Flushed(s.store.tasks, task, deleted))), Ok)
    case MarkRead(actor, notification) =>
      if notification !in s.store.notifications then (s, Failed(NotFound))
      else if s.store.notifications[notification].user != actor then (s, Failed(Forbidden))
      else
        var read := s.store.notifications[notification].(isRead := true);
        (s.(store := s.store.(notifications := s.store.notifications[notification := read])), Ok)
    case MarkAllRead(actor) =>
      (s.(store := s.store.(notifications := AllRead(s.store.notifications, actor))), Ok)
  }

  function Step(s: State, request: Request): (State, Response) {
    match request
    case PutUser(id, account) => (s.(store := s.store.(users := s.store.users[id := account])), Ok)
    case Wait(time) => (s.(clock := s.clock + time), Ok)
    case _ =>
      if !Accounts.Usable(s.store.users, request.actor) then (s, Failed(InactiveAccount))
      else if NeedsAdmin(request) && !IsAdmin(s.store, request.actor) then (s, Failed(Forbidden))
      else Perform(s, request)
  }

  // ---- Runs ------------------------------------------------------------------------------

  /** The state after the first `n` requests of a run. */
  function After(s: State, run: seq<Request>, n: nat): State
    requires n <= |run|
  {
    if n == 0 then s else Step(After(s, run, n - 1), run[n - 1]).0
  }

  /** The answer to request `i` of a run. */
  function Reply(s: State, run: seq<Request>, i: nat): Response
    requires i < |run|
  {
    Step(After(s, run, i), run[i]).1
  }

  /** A new installation. */
  const EMPTY: State := State(Store(map[], map[], map[], map[], map[]), 0, 0)

  /** An active account for example runs. */
  function Account(email: string, fullName: string, role: Accounts.Role): Accounts.User {
    Accounts.User(email, Accounts.Bcrypt(email), fullName, role, true, None)
  }
}
