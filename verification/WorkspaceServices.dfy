/**
 The services of app/modules/projects, app/modules/tasks and app/modules/notifications, the event
 bus between them, and the proof that under `get_db` they follow the workspace machine.
 */
module WorkspaceServices {
  import opened Common
  import opened PartialUpdates
  import opened Ordering
  import opened Database
  import opened Workspace
  import opened Board
  import Accounts

  // ---- Notifications -----------------------------------------------------------------------

  class NotificationService {
    const db: Session<Store>
    const env: Environment

    constructor (db: Session<Store>, env: Environment)
      ensures this.db == db && this.env == env
    {
      this.db, this.env := db, env;
    }

    function View(): State
      reads db, env
    {
      State(db.working, env.clock, env.supply)
    }

    method Create(user: Id, kind: NotificationKind, message: string) returns (id: Id)
      modifies db`working, env`supply
      ensures id == old(env.supply) && env.supply == id + 1
      ensures db.working == old(db.working).(notifications :=
                old(db.working.notifications)[id := Notification(user, kind, message, false)])
    {
      id := env.Fresh();
      var notification := Notification(user, kind, message, false);
      db.working := db.working.(notifications := db.working.notifications[id := notification]);
    }

    method MarkRead(notification: Id, user: Id) returns (response: Response)
      requires user in db.working.users
      modifies db`working
      ensures (View(), response) == Perform(old(View()), Request.MarkRead(user, notification))
    {
      if notification !in db.working.notifications {
        return Failed(NotFound);
      }
      var row := db.working.notifications[notification];
      if row.user != user {
        return Failed(Forbidden);
      }
      row := row.(isRead := true);
      db.working := db.working.(notifications := db.working.notifications[notification := row]);
      return Ok;
    }

    /** Updates the rows of the user that are not read yet. */
    method MarkAllRead(user: Id) returns (response: Response)
      requires user in db.working.users
      modifies db`working
      ensures (View(), response) == Perform(old(View()), Request.MarkAllRead(user))
    {
      var rows := db.working.notifications;
      db.working := db.working.(notifications := map n | n in rows ::
        if rows[n].user == user && !rows[n].isRead then rows[n].(isRead := true) else rows[n]);
      assert db.working.notifications == AllRead(rows, user);
      return Ok;
    }
  }

  // ---- The event bus -----------------------------------------------------------------------

  datatype EventKind = MemberAddedKind | TaskAssignedKind

  datatype Handler = OnMemberAdded | OnTaskAssigned

  function KindOf(event: Event): EventKind {
    if event.MemberAddedToProject? then MemberAddedKind else TaskAssignedKind
  }

  /** Each handler asserts the type of the event it is given. */
  predicate Accepts(handler: Handler, event: Event) {
    handler.OnMemberAdded? == event.MemberAddedToProject?
  }

  type Handlers = map<EventKind, seq<Handler>>

  function HandlersOf(handlers: Handlers, kind: EventKind): seq<Handler> {
    if kind in handlers then handlers[kind] else []
  }

  function DeliverTimes(s: State, event: Event, times: nat): State {
    if times == 0 then s else Deliver(DeliverTimes(s, event, times - 1), event)
  }

  method HandleMemberAdded(event: Event, notifications: NotificationService)
    requires event.MemberAddedToProject?
    modifies notifications.db`working, notifications.env`supply
    ensures notifications.View() == Deliver(old(notifications.View()), event)
  {
    var message := "You have been added to project \"" + event.projectName + "\".";
    var _ := notifications.Create(event.user, ProjectMembership, message);
  }

  method HandleTaskAssigned(event: Event, notifications: NotificationService)
    requires event.TaskAssigned?
    modifies notifications.db`working, notifications.env`supply
    ensures notifications.View() == Deliver(old(notifications.View()), event)
  {
    var message := "You have been assigned \"" + event.taskTitle + "\" in project \"" + event.projectName + "\".";
    var _ := notifications.Create(event.assignee, TaskAssignment, message);
  }

  class EventBus {
    var handlers: Handlers

    constructor ()
      ensures handlers == map[]
    {
      handlers := map[];
    }

    method Subscribe(kind: EventKind, handler: Handler)
      modifies this
      ensures handlers == old(handlers)[kind := HandlersOf(old(handlers), kind) + [handler]]
    {
      handlers := handlers[kind := HandlersOf(handlers, kind) + [handler]];
    }

    /** Runs every handler subscribed to the event's type, in order, inside the publisher's session. */
    method Publish(event: Event, notifications: NotificationService)
      requires forall handler | handler in HandlersOf(handlers, KindOf(event)) :: Accepts(handler, event)
      modifies notifications.db`working, notifications.env`supply
      ensures notifications.View()
              == DeliverTimes(old(notifications.View()), event, |HandlersOf(handlers, KindOf(event))|)
    {
      var subscribed := HandlersOf(handlers, KindOf(event));
      for i := 0 to |subscribed|
        invariant notifications.View() == DeliverTimes(old(notifications.View()), event, i)
      {
        assert subscribed[i] in subscribed;
        match subscribed[i]
        case OnMemberAdded => HandleMemberAdded(event, notifications);
        case OnTaskAssigned => HandleTaskAssigned(event, notifications);
      }
    }
  }

  function Registered(): Handlers {
    map[MemberAddedKind := [OnMemberAdded], TaskAssignedKind := [OnTaskAssigned]]
  }

  /** The subscriptions made once, during application startup. */
  method Register(bus: EventBus)
    requires bus.handlers == map[]
    modifies bus
    ensures bus.handlers == Registered()
  {
    bus.Subscribe(MemberAddedKind, OnMemberAdded);
    bus.Subscribe(TaskAssignedKind, OnTaskAssigned);
    assert [] + [OnMemberAdded] == [OnMemberAdded] && [] + [OnTaskAssigned] == [OnTaskAssigned];
  }

  lemma OneDelivery(s: State, event: Event)
    ensures DeliverTimes(s, event, |HandlersOf(Registered(), KindOf(event))|) == Deliver(s, event)
    ensures forall handler | handler in HandlersOf(Registered(), KindOf(event)) :: Accepts(handler, event)
  {
    assert DeliverTimes(s, event, 0) == s;
  }

  // ---- Projects ----------------------------------------------------------------------------

  class ProjectService {
    const db: Session<Store>
    const env: Environment
    const bus: EventBus
    const notifications: NotificationService

    constructor (db: Session<Store>, env: Environment, bus: EventBus, notifications: NotificationService)
      requires notifications.db == db && notifications.env == env
      ensures this.db == db && this.env == env && this.bus == bus && this.notifications == notifications
    {
      this.db, this.env, this.bus, this.notifications := db, env, bus, notifications;
    }

    ghost predicate Wired()
      reads bus
    {
      notifications.db == db && notifications.env == env && bus.handlers == Registered()
    }

    function View(): State
      reads db, env
    {
      State(db.working, env.clock, env.supply)
    }

    method CreateProject(actor: Id, name: string) returns (response: Response)
      requires actor in db.working.users
      modifies db`working, env`supply
      ensures (View(), response) == Perform(old(View()), Request.CreateProject(actor, name))
    {
      var id := env.Fresh();
      var project := Project(name, actor, env.clock, None);
      db.working := db.working.(projects := db.working.projects[id := project]);
      return Created(id);
    }

    method DeleteProject(actor: Id, project: Id) returns (response: Response)
      requires actor in db.working.users
      modifies db`working
      ensures (View(), response) == Perform(old(View()), Request.DeleteProject(actor, project))
    {
      if !LiveProject(db.working, project) {
        return Failed(NotFound);
      }
      var row := db.working.projects[project];
      row := row.(deletedAt := Some(env.clock));
      db.working := db.working.(projects := db.working.projects[project := row]);
      return Ok;
    }

    method AddMember(actor: Id, project: Id, user: Id, role: MemberRole) returns (response: Response)
      requires Wired() && actor in db.working.users
      modifies db`working, env`supply
      ensures (View(), response) == AddMemberStep(old(View()), actor, project, user, role)
    {
      if !LiveProject(db.working, project) {
        return Failed(NotFound);
      }
      if !Accounts.Live(db.working.users, user) {
        return Failed(NotFound);
      }
      if IsMember(db.working.members, project, user) {
        return Failed(AlreadyMember);
      }
      var id := env.Fresh();
      db.working := db.working.(members := db.working.members[id := Member(project, user, role)]);
      var event := MemberAddedToProject(project, db.working.projects[project].name, user, actor);
      OneDelivery(View(), event);
      bus.Publish(event, notifications);
      assert MemberRow(db.working.members, id, project, user);  // the reload for the response succeeds
      return Created(id);
    }

    method RemoveMember(actor: Id, project: Id, user: Id) returns (response: Response)
      requires MembersUnique(db.working.members) && actor in db.working.users
      modifies db`working
      ensures (View(), response) == Perform(old(View()), Request.RemoveMember(actor, project, user))
    {
      var members := db.working.members;
      if id :| id in members && MemberRow(members, id, project, user) {
        db.working := db.working.(members := members - {id});
        assert db.working.members == WithoutMember(members, project, user);
        return Ok;
      }
      return Failed(NotFound);
    }
  }

  // ---- Tasks -------------------------------------------------------------------------------

  lemma {:induction false} WithStatusAppend(tasks: Tasks, ids: seq<Id>, id: Id, status: Status)
    requires id in tasks && forall x | x in ids :: x in tasks
    ensures WithStatus(tasks, ids + [id], status)
            == WithStatus(tasks, ids, status) + if tasks[id].status == status then [id] else []
  {
    if ids == [] {
    } else {
      assert (ids + [id])[1..] == ids[1..] + [id];
      WithStatusAppend(tasks, ids[1..], id, status);
    }
  }

  /** One pass over the listed tasks, each appended to the bucket of its status. */
  method BucketByStatus(tasks: Tasks, listed: seq<Id>) returns (board: map<Status, seq<Id>>)
    requires forall id | id in listed :: id in tasks
    ensures forall status: Status :: status in board && board[status] == WithStatus(tasks, listed, status)
  {
    board := map[Todo := [], InProgress := [], InReview := [], Done := []];
    forall status: Status ensures status in board && board[status] == WithStatus(tasks, listed[..0], status) {
      match status
      case Todo =>
      case InProgress =>
      case InReview =>
      case Done =>
    }
    for i := 0 to |listed|
      invariant forall status: Status :: status in board && board[status] == WithStatus(tasks, listed[..i], status)
    {
      forall status: Status ensures WithStatus(tasks, listed[..i + 1], status)
          == WithStatus(tasks, listed[..i], status) + if tasks[listed[i]].status == status then [listed[i]] else []
      {
        assert listed[..i + 1] == listed[..i] + [listed[i]];
        WithStatusAppend(tasks, listed[..i], listed[i], status);
      }
      var status := tasks[listed[i]].status;
      board := board[status := board[status] + [listed[i]]];
    }
    assert listed[..|listed|] == listed;
  }

  class TaskService {
    const db: Session<Store>
    const env: Environment
    const bus: EventBus
    const notifications: NotificationService

    constructor (db: Session<Store>, env: Environment, bus: EventBus, notifications: NotificationService)
      requires notifications.db == db && notifications.env == env
      ensures this.db == db && this.env == env && this.bus == bus && this.notifications == notifications
    {
      this.db, this.env, this.bus, this.notifications := db, env, bus, notifications;
    }

    ghost predicate Wired()
      reads bus
    {
      notifications.db == db && notifications.env == env && bus.handlers == Registered()
    }

    function View(): State
      reads db, env
    {
      State(db.working, env.clock, env.supply)
    }

    method KanbanBoard(project: Id) returns (board: map<Status, seq<Id>>)
      ensures forall status: Status :: status in board && board[status] == Column(db.working.tasks, project, status)
    {
      ListedAreLive(db.working.tasks, project);
      board := BucketByStatus(db.working.tasks, ListForProject(db.working.tasks, project));
      forall status ensures board[status] == Column(db.working.tasks, project, status) {
        ListSplitsIntoColumns(db.working.tasks, project, status);
      }
    }

    method NotifyAssignment(task: Id, row: Task, projectName: string, actor: Id)
      requires Wired() && row.assignee.Some?
      modifies db`working, env`supply
      ensures View() == Deliver(old(View()), TaskAssigned(task, row.title, projectName, row.assignee.value, actor))
    {
      var event := TaskAssigned(task, row.title, projectName, row.assignee.value, actor);
      OneDelivery(View(), event);
      bus.Publish(event, notifications);
    }

    method CreateTask(actor: Id, draft: TaskDraft) returns (response: Response)
      requires Wired() && actor in db.working.users
      modifies db`working, env`supply
      ensures (View(), response) == CreateTaskStep(old(View()), actor, draft)
    {
      if !IsAdmin(db.working, actor) && !IsMember(db.working.members, draft.project, actor) {
        return Failed(Forbidden);
      }
      if !LiveProject(db.working, draft.project) {
        return Failed(NotFound);
      }
      var position := NextPosition(db.working.tasks, draft.project, draft.status);
      if !KnownAssignee(db.working.users, draft.assignee) {
        return Failed(Integrity);
      }
      var task := Task(draft.project, draft.title, draft.status, draft.priority, draft.assignee, draft.dueDate,
                       position, actor, 1, None);
      var id := env.Fresh();
      db.working := db.working.(tasks := db.working.tasks[id := task]);
      if task.assignee.Some? && task.assignee.value != actor {
        NotifyAssignment(id, task, db.working.projects[draft.project].name, actor);
      }
      assert LiveTask(db.working.tasks, id);  // the reload for the response succeeds
      return Created(id);
    }

    /** On failure the rejected row may be left in the working copy; the caller rolls back. */
    method UpdateTask(actor: Id, task: Id, changes: TaskData) returns (response: Response)
      requires Wired() && LiveTask(db.working.tasks, task)
      modifies db`working, env`supply
      ensures response == UpdateTaskStep(old(View()), actor, task, changes).1
      ensures response.Failed? ==> env.supply == old(env.supply)
      ensures !response.Failed? ==> View() == UpdateTaskStep(old(View()), actor, task, changes).0
    {
      var previous := db.working.tasks[task].assignee;
      var row, storable := SetAttributes(ApplyChange, IsNull, db.working.tasks[task], changes);
      ApplyChangesKeepsPlace(db.working.tasks[task], changes);
      db.working := db.working.(tasks := Flushed(db.working.tasks, task, row));
      if !storable || !KnownAssignee(db.working.users, row.assignee) {
        return Failed(Integrity);
      }
      if SetsAssignee(changes) && row.assignee.Some? && row.assignee != previous && row.assignee.value != actor {
        NotifyAssignment(task, row, ProjectName(db.working, row.project), actor);
      }
      assert LiveTask(db.working.tasks, task);  // the reload for the response succeeds
      return Ok;
    }

    /**
     The loaded object gets its new status first; the table keeps the old row until the flush, so
     that is the row `next_position` sees.
     */
    method UpdateStatus(task: Id, status: Status, position: Option<real>) returns (response: Response)
      requires LiveTask(db.working.tasks, task)
      modifies db`working
      ensures response == Ok
      ensures db.working == old(db.working).(tasks := Moved(old(db.working.tasks), task, status, position))
    {
      var loaded := db.working.tasks[task];
      loaded := loaded.(status := status);
      if position.Some? {
        loaded := loaded.(position := position.value);
      } else {
        var next := NextPosition(db.working.tasks, loaded.project, status);
        loaded := loaded.(position := next);
      }
      db.working := db.working.(tasks := Flushed(db.working.tasks, task, loaded));
      return Ok;
    }

    method DeleteTask(task: Id) returns (response: Response)
      requires LiveTask(db.working.tasks, task)
      modifies db`working
      ensures response == Ok
      ensures db.working == old(db.working).(tasks :=
                Flushed(old(db.working.tasks), task, old(db.working.tasks)[task].(deletedAt := Some(env.clock))))
    {
      var loaded := db.working.tasks[task];
      loaded := loaded.(deletedAt := Some(env.clock));
      db.working := db.working.(tasks := Flushed(db.working.tasks, task, loaded));
      return Ok;
    }
  }

  // ---- Requests under get_db -----------------------------------------------------------------

  class Api {
    const db: Session<Store>
    const env: Environment
    const bus: EventBus
    const notifications: NotificationService
    const projects: ProjectService
    const tasks: TaskService

    constructor (db: Session<Store>, env: Environment, bus: EventBus)
      ensures this.db == db && this.env == env && this.bus == bus
      ensures Wired() <==> bus.handlers == Registered()
    {
      this.db, this.env, this.bus := db, env, bus;
      var service := new NotificationService(db, env);
      notifications := service;
      projects := new ProjectService(db, env, bus, service);
      tasks := new TaskService(db, env, bus, service);
    }

    ghost predicate Wired()
      reads bus
    {
      && notifications.db == db && notifications.env == env && bus.handlers == Registered()
      && projects.db == db && projects.env == env && projects.bus == bus && projects.notifications == notifications
      && tasks.db == db && tasks.env == env && tasks.bus == bus && tasks.notifications == notifications
    }

    function Working(): State
      reads db, env
    {
      State(db.working, env.clock, env.supply)
    }

    function Committed(): State
      reads db, env
    {
      State(db.committed, env.clock, env.supply)
    }

    /** Between requests: nothing is pending and the store is one that serial requests can reach. */
    ghost predicate Idle()
      reads db, env, bus
    {
      Wired() && db.working == db.committed && Reachable(Committed())
    }

    /** A request of an account that may act. */
    method Route(request: Request) returns (response: Response)
      requires Idle() && !request.PutUser? && !request.Wait? && request.actor in db.working.users
      modifies db`working, env`supply
      ensures response == Perform(old(Working()), request).1
      ensures !response.Failed? ==> Working() == Perform(old(Working()), request).0
      ensures response.Failed? ==> env.supply == old(env.supply)
    {
      match request
      case CreateProject(actor, name) => response := projects.CreateProject(actor, name);
      case DeleteProject(actor, project) => response := projects.DeleteProject(actor, project);
      case AddMember(actor, project, user, role) => response := projects.AddMember(actor, project, user, role);
      case RemoveMember(actor, project, user) => response := projects.RemoveMember(actor, project, user);
      case CreateTask(actor, draft) => response := tasks.CreateTask(actor, draft);
      case MarkRead(actor, notification) => response := notifications.MarkRead(notification, actor);
      case MarkAllRead(actor) => response := notifications.MarkAllRead(actor);
      case UpdateTask(actor, task, changes) =>
        response := TaskAccess(db.working, actor, task);
        if response == Ok {
          response := tasks.UpdateTask(actor, task, changes);
        }
      case MoveTask(actor, task, status, position) =>
        response := TaskAccess(db.working, actor, task);
        if response == Ok {
          response := tasks.UpdateStatus(task, status, position);
        }
      case DeleteTask(actor, task) =>
        response := TaskAccess(db.working, actor, task);
        if response == Ok {
          response := tasks.DeleteTask(task);
        }
    }

    method Dispatch(request: Request) returns (response: Response)
      requires Idle()
      modifies db`working, env
      ensures response == Step(old(Working()), request).1
      ensures !response.Failed? ==> Working() == Step(old(Working()), request).0
      ensures response.Failed? ==> env.clock == old(env.clock) && env.supply == old(env.supply)
    {
      if request.PutUser? {
        db.working := db.working.(users := db.working.users[request.id := request.account]);
        return Ok;
      }
      if request.Wait? {
        env.Elapse(request.time);
        return Ok;
      }
      if !Accounts.Usable(db.working.users, request.actor) {
        return Failed(InactiveAccount);
      }
      if NeedsAdmin(request) && !IsAdmin(db.working, request.actor) {
        return Failed(Forbidden);
      }
      response := Route(request);
    }

    /** One request under `get_db`: commit when the handler returns, roll back when it raises. */
    method Handle(request: Request) returns (response: Response)
      requires Idle()
      modifies db, env
      ensures Idle()
      ensures (Committed(), response) == Step(old(Committed()), request)
    {
      StepStaysReachable(Committed(), request);
      FailureChangesNothing(Committed(), request);
      response := Dispatch(request);
      if response.Failed? {
        db.Rollback();
      } else {
        db.Commit();
      }
    }

    /** Serially executed requests: the committed store follows the machine step by step. */
    method Serve(requests: seq<Request>) returns (responses: seq<Response>)
      requires Idle()
      modifies db, env
      ensures Idle() && Committed() == After(old(Committed()), requests, |requests|)
      ensures |responses| == |requests|
      ensures forall i | 0 <= i < |requests| :: responses[i] == Reply(old(Committed()), requests, i)
    {
      responses := [];
      for n := 0 to |requests|
        invariant Idle() && Committed() == After(old(Committed()), requests, n)
        invariant |responses| == n
        invariant forall i | 0 <= i < n :: responses[i] == Reply(old(Committed()), requests, i)
      {
        var response := Handle(requests[n]);
        responses := responses + [response];
      }
    }
  }
}
