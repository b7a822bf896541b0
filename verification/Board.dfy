/** The kanban board as lists: what each request does to the columns users see. */
module Board {
  import opened Common
  import opened PartialUpdates
  import opened Ordering
  import opened Workspace
  import Accounts

  // ---- Reachable tables ------------------------------------------------------------------

  ghost predicate MembersUnique(members: map<Id, Member>) {
    forall a, b | a in members && b in members
                  && members[a].project == members[b].project && members[a].user == members[b].user :: a == b
  }

  ghost predicate Reachable(s: State) {
    && (forall id | id in s.store.tasks :: id < s.supply && KnownAssignee(s.store.users, s.store.tasks[id].assignee))
    && (forall id | id in s.store.notifications :: id < s.supply)
    && (forall id | id in s.store.members :: id < s.supply)
    && (forall id | id in s.store.projects :: id < s.supply)
    && MembersUnique(s.store.members)
  }

  lemma FailureChangesNothing(s: State, request: Request)
    ensures Step(s, request).1.Failed? ==> Step(s, request).0 == s
  {}

  lemma CreateTaskStaysReachable(s: State, actor: Id, draft: TaskDraft)
    requires Reachable(s) && actor in s.store.users
    ensures Reachable(CreateTaskStep(s, actor, draft).0)
  {}

  lemma UpdateTaskStaysReachable(s: State, actor: Id, task: Id, changes: seq<TaskChange>)
    requires Reachable(s) && task in s.store.tasks
    ensures Reachable(UpdateTaskStep(s, actor, task, changes).0)
  {}

  predicate WritesTasks(request: Request) {
    request.CreateTask? || request.UpdateTask? || request.MoveTask? || request.DeleteTask?
  }

  lemma TaskRequestStaysReachable(s: State, request: Request)
    requires Reachable(s) && WritesTasks(request) && !Step(s, request).1.Failed?
    ensures Reachable(Step(s, request).0)
  {
    if request.CreateTask? {
      CreateTaskStaysReachable(s, request.actor, request.draft);
    } else if request.UpdateTask? {
      UpdateTaskStaysReachable(s, request.actor, request.task, request.changes);
    }
  }

  lemma NewMemberIsUnique(members: map<Id, Member>, project: Id, user: Id, id: Id, role: MemberRole)
    requires MembersUnique(members)
    ensures !IsMember(members, project, user) ==> MembersUnique(members[id := Member(project, user, role)])
  {
    if !IsMember(members, project, user) {
      assert forall other | other in members :: !MemberRow(members, other, project, user);
    }
  }

  lemma StepStaysReachable(s: State, request: Request)
    requires Reachable(s)
    ensures Reachable(Step(s, request).0)
  {
    if Step(s, request).1.Failed? {
      FailureChangesNothing(s, request);
    } else if request.AddMember? {
      NewMemberIsUnique(s.store.members, request.project, request.user, s.supply, request.role);
    } else if WritesTasks(request) {
      TaskRequestStaysReachable(s, request);
    }
  }

  lemma {:induction false} RunStaysReachable(s: State, run: seq<Request>, n: nat)
    requires Reachable(s) && n <= |run|
    ensures Reachable(After(s, run, n))
  {
    if n == 0 {
    } else {
      RunStaysReachable(s, run, n - 1);
      StepStaysReachable(After(s, run, n - 1), run[n - 1]);
    }
  }

  // ---- One row changes -------------------------------------------------------------------

  function OtherKeys(tasks: Tasks, id: Id, project: Id, status: Status): set<Entry> {
    set e | e in ColumnKeys(tasks, project, status) && e.id != id
  }

  /** The keys of a column after one row was written: the old key of that row goes, its new key comes. */
  lemma KeysAfterWrite(tasks: Tasks, id: Id, row: Task, project: Id, status: Status)
    ensures var others := OtherKeys(tasks, id, project, status);
            var own := if InColumn(tasks[id := row], id, project, status) then {Entry(0, row.position, id)} else {};
            ColumnKeys(tasks[id := row], project, status) == others + own
  {}

  /** The rest of a column does not see the write. */
  lemma RestOfColumn(tasks: Tasks, id: Id, project: Id, status: Status)
    ensures Ids(Sort(OtherKeys(tasks, id, project, status)))
            == Without(Column(tasks, project, status), id)
  {
    var keys := ColumnKeys(tasks, project, status);
    SortOfKeep(keys, (e: Entry) => e.id != id);
    WithoutIsKeep(Sort(keys), id);
    assert OtherKeys(tasks, id, project, status) == set e | e in keys && ((e: Entry) => e.id != id)(e);
  }

  lemma LeavesColumn(tasks: Tasks, id: Id, row: Task, project: Id, status: Status)
    requires !InColumn(tasks[id := row], id, project, status)
    ensures Column(tasks[id := row], project, status) == Without(Column(tasks, project, status), id)
  {
    KeysAfterWrite(tasks, id, row, project, status);
    RestOfColumn(tasks, id, project, status);
    assert ColumnKeys(tasks[id := row], project, status) == OtherKeys(tasks, id, project, status);
  }

  lemma JoinsAtEnd(tasks: Tasks, id: Id, row: Task, project: Id, status: Status)
    requires InColumn(tasks[id := row], id, project, status)
    requires forall e | e in ColumnKeys(tasks, project, status) && e.id != id :: e.position < row.position
    ensures Column(tasks[id := row], project, status) == Without(Column(tasks, project, status), id) + [id]
  {
    KeysAfterWrite(tasks, id, row, project, status);
    RestOfColumn(tasks, id, project, status);
    SortAppend(OtherKeys(tasks, id, project, status), Entry(0, row.position, id));
  }

  /** (p, a) comes before (q, b): the lower position first, and of two equal ones the lower id. */
  predicate Before(p: real, a: Id, q: real, b: Id) {
    p < q || (p == q && a < b)
  }

  ghost predicate SplitsAt(tasks: Tasks, rest: seq<Id>, position: real, id: Id, next: seq<Id>, k: nat) {
    && k <= |rest| && next == rest[..k] + [id] + rest[k..]
    && (forall i | 0 <= i < |rest| :: rest[i] in tasks)
    && (forall i | 0 <= i < k :: Before(tasks[rest[i]].position, rest[i], position, id))
    && (forall i | k <= i < |rest| :: Before(position, id, tasks[rest[i]].position, rest[i]))
  }

  /**
   `next` is `rest` with `id` put in: behind exactly those tasks that stand in `tasks` before
   (`position`, `id`).
   */
  ghost predicate PlacedByRank(tasks: Tasks, rest: seq<Id>, position: real, id: Id, next: seq<Id>) {
    exists k :: SplitsAt(tasks, rest, position, id, next, k)
  }

  lemma EntriesSplit(tasks: Tasks, rest: seq<Entry>, own: Entry, k: nat)
    requires k <= |rest| && own.rank == 0
    requires forall e | e in rest :: e.id in tasks && e == Entry(0, tasks[e.id].position, e.id)
    requires forall i | 0 <= i < k :: Less(rest[i], own)
    requires forall i | k <= i < |rest| :: Less(own, rest[i])
    ensures PlacedByRank(tasks, Ids(rest), own.position, own.id, Ids(rest[..k] + [own] + rest[k..]))
  {
    var next := Ids(rest[..k] + [own] + rest[k..]);
    assert next == Ids(rest)[..k] + [own.id] + Ids(rest)[k..];
    assert forall i | 0 <= i < |rest| :: rest[i] in rest;
    assert SplitsAt(tasks, Ids(rest), own.position, own.id, next, k);
  }

  /** A written row stands in its column where its key puts it among the rows that were there. */
  lemma JoinsByRank(tasks: Tasks, id: Id, row: Task, project: Id, status: Status)
    requires InColumn(tasks[id := row], id, project, status)
    ensures PlacedByRank(tasks, Without(Column(tasks, project, status), id), row.position, id,
                         Column(tasks[id := row], project, status))
  {
    KeysAfterWrite(tasks, id, row, project, status);
    RestOfColumn(tasks, id, project, status);
    var own := Entry(0, row.position, id);
    var k := SortInsert(OtherKeys(tasks, id, project, status), own);
    var rest := Sort(OtherKeys(tasks, id, project, status));
    forall e | e in rest ensures e.id in tasks && e == Entry(0, tasks[e.id].position, e.id) {
      assert e in Elements(rest);
    }
    EntriesSplit(tasks, rest, own, k);
  }

  lemma SameKeys(tasks: Tasks, id: Id, row: Task, project: Id, status: Status)
    requires id in tasks && row.position == tasks[id].position
    requires InColumn(tasks[id := row], id, project, status) == InColumn(tasks, id, project, status)
    ensures ColumnKeys(tasks[id := row], project, status) == ColumnKeys(tasks, project, status)
  {
    forall e ensures e in ColumnKeys(tasks[id := row], project, status) <==> e in ColumnKeys(tasks, project, status) {
      assert e.id != id ==> InColumn(tasks[id := row], e.id, project, status) == InColumn(tasks, e.id, project, status);
    }
  }

  lemma KeysOfOthers(tasks: Tasks, id: Id, row: Task, project: Id, status: Status)
    requires !InColumn(tasks[id := row], id, project, status) && !InColumn(tasks, id, project, status)
    ensures ColumnKeys(tasks[id := row], project, status) == ColumnKeys(tasks, project, status)
  {
    forall e ensures e in ColumnKeys(tasks[id := row], project, status) <==> e in ColumnKeys(tasks, project, status) {
      assert e.id != id ==> InColumn(tasks[id := row], e.id, project, status) == InColumn(tasks, e.id, project, status);
    }
  }

  /** A write that keeps project, status, position and liveness keeps every column. */
  lemma SameBoard(tasks: Tasks, id: Id, row: Task, project: Id, status: Status)
    requires id in tasks
    requires row.project == tasks[id].project && row.status == tasks[id].status
    requires row.position == tasks[id].position && row.deletedAt.None? == tasks[id].deletedAt.None?
    ensures Column(tasks[id := row], project, status) == Column(tasks, project, status)
  {
    SameKeys(tasks, id, row, project, status);
  }

  /** `next_position` is the greatest live position of the column plus one step, or one step. */
  lemma NextPositionIsMaxPlusStep(tasks: Tasks, project: Id, status: Status)
    ensures forall task | InColumn(tasks, task, project, status) ::
              tasks[task].position + POSITION_STEP <= NextPosition(tasks, project, status)
    ensures (forall task :: !InColumn(tasks, task, project, status)) ==>
              NextPosition(tasks, project, status) == POSITION_STEP
    ensures (exists task :: InColumn(tasks, task, project, status)) ==>
              exists task :: InColumn(tasks, task, project, status)
                             && NextPosition(tasks, project, status) == tasks[task].position + POSITION_STEP
  {
    var keys := Sort(ColumnKeys(tasks, project, status));
    forall task | InColumn(tasks, task, project, status)
      ensures keys != [] && tasks[task].position <= keys[|keys| - 1].position
    {
      assert Entry(0, tasks[task].position, task) in ColumnKeys(tasks, project, status);
      assert Entry(0, tasks[task].position, task) in Elements(keys);
      var i :| 0 <= i < |keys| && keys[i] == Entry(0, tasks[task].position, task);
      assert i == |keys| - 1 || Less(keys[i], keys[|keys| - 1]);
    }
    if keys != [] {
      assert keys[|keys| - 1] in Elements(keys);
      assert InColumn(tasks, keys[|keys| - 1].id, project, status);
    }
  }

  /** The unflushed read: a task arriving from another column has no say in its new position. */
  lemma ArrivalIgnoresOldRow(tasks: Tasks, task: Id, row: Task, status: Status)
    requires LiveTask(tasks, task) && tasks[task].status != status
    requires row.status != status
    ensures NextPosition(tasks, tasks[task].project, status)
            == NextPosition(tasks[task := row], tasks[task].project, status)
  {
    KeysOfOthers(tasks, task, row, tasks[task].project, status);
  }

  lemma NextPositionAfter(tasks: Tasks, project: Id, status: Status, top: Id)
    requires InColumn(tasks, top, project, status)
    requires forall task | InColumn(tasks, task, project, status) :: tasks[task].position <= tasks[top].position
    ensures NextPosition(tasks, project, status) == tasks[top].position + POSITION_STEP
  {
    NextPositionIsMaxPlusStep(tasks, project, status);
  }

  /**
   What would come of flushing first: the arriving task would already count, at its old position,
   so the position read would be one step past that too.
   */
  lemma FlushedArrivalCounts(tasks: Tasks, task: Id, status: Status)
    requires LiveTask(tasks, task) && tasks[task].status != status
    ensures var project := tasks[task].project;
            var unflushed := NextPosition(tasks, project, status);
            var flushed := NextPosition(tasks[task := tasks[task].(status := status)], project, status);
            var pastOwn := tasks[task].position + POSITION_STEP;
            flushed == if (exists other :: InColumn(tasks, other, project, status)) && unflushed >= pastOwn
                       then unflushed else pastOwn
  {
    var project, own := tasks[task].project, tasks[task].position;
    var flushed := tasks[task := tasks[task].(status := status)];
    NextPositionIsMaxPlusStep(tasks, project, status);
    assert InColumn(flushed, task, project, status);
    forall other | InColumn(flushed, other, project, status) && other != task
      ensures InColumn(tasks, other, project, status) && flushed[other] == tasks[other]
    {}
    if top :| InColumn(tasks, top, project, status) && tasks[top].position >= own
              && NextPosition(tasks, project, status) == tasks[top].position + POSITION_STEP {
      assert InColumn(flushed, top, project, status);
      NextPositionAfter(flushed, project, status, top);
    } else {
      NextPositionAfter(flushed, project, status, task);
    }
  }

  // ---- Requests as board moves -------------------------------------------------------------

  datatype Effect =
    | Unchanged
    | Appended(task: Id, project: Id, status: Status)
    | Placed(task: Id, project: Id, status: Status, position: real)
    | Removed(task: Id)

  /** What a request means for the board, as its caller knows it. */
  function EffectOf(s: State, request: Request): Effect {
    match (request, Step(s, request).1)
    case (CreateTask(_, draft), Created(id)) => Appended(id, draft.project, draft.status)
    case (MoveTask(_, task, status, None), Ok) =>
      if task in s.store.tasks then Appended(task, s.store.tasks[task].project, status) else Unchanged
    case (MoveTask(_, task, status, Some(position)), Ok) =>
      if task in s.store.tasks then Placed(task, s.store.tasks[task].project, status, position) else Unchanged
    case (DeleteTask(_, task), Ok) => Removed(task)
    case _ => Unchanged
  }

  /** The columns after the effect, each from the column before. */
  ghost predicate ColumnFollows(before: Tasks, after: Tasks, effect: Effect, project: Id, status: Status) {
    var was, now := Column(before, project, status), Column(after, project, status);
    match effect
    case Unchanged => now == was
    case Appended(task, p, t) =>
      now == Without(was, task) + (if project == p && status == t then [task] else [])
    case Placed(task, p, t, position) =>
      if project == p && status == t then PlacedByRank(before, Without(was, task), position, task, now)
      else now == Without(was, task)
    case Removed(task) => now == Without(was, task)
  }

  lemma MoveRefinesBoard(tasks: Tasks, task: Id, target: Status, position: Option<real>, project: Id, status: Status)
    requires LiveTask(tasks, task)
    ensures var effect := if position.None? then Appended(task, tasks[task].project, target)
                          else Placed(task, tasks[task].project, target, position.value);
            ColumnFollows(tasks, Moved(tasks, task, target, position), effect, project, status)
  {
    var moved := Moved(tasks, task, target, position);
    var row := moved[task];
    assert moved == tasks[task := row];
    if project == row.project && status == target {
      if position.None? {
        NextPositionIsMaxPlusStep(tasks, project, status);
        JoinsAtEnd(tasks, task, row, project, status);
      } else {
        JoinsByRank(tasks, task, row, project, status);
      }
    } else {
      LeavesColumn(tasks, task, row, project, status);
    }
  }

  lemma CreateRefinesBoard(tasks: Tasks, id: Id, actor: Id, draft: TaskDraft, project: Id, status: Status)
    ensures ColumnFollows(tasks, tasks[id := NewTask(tasks, actor, draft)],
                          Appended(id, draft.project, draft.status), project, status)
  {
    var row := NewTask(tasks, actor, draft);
    if project == draft.project && status == draft.status {
      NextPositionIsMaxPlusStep(tasks, project, status);
      JoinsAtEnd(tasks, id, row, project, status);
    } else {
      LeavesColumn(tasks, id, row, project, status);
    }
  }

  /** What no change of a partial update touches. */
  function Place(row: Task): (Id, Status, real, Id, int, Option<int>) {
    (row.project, row.status, row.position, row.createdBy, row.version, row.deletedAt)
  }

  predicate Never(change: TaskChange) {
    false
  }

  lemma ApplyChangesKeepsPlace(row: Task, changes: seq<TaskChange>)
    ensures Place(ApplyChanges(row, changes)) == Place(row)
  {
    KeepsField(ApplyChange, row, changes, Place, Never);
  }

  predicate HasValue(row: Task, change: TaskChange) {
    match change
    case Title(title) => title == Some(row.title)
    case SetPriority(priority) => priority == Some(row.priority)
    case Assignee(assignee) => assignee == row.assignee
    case DueDate(dueDate) => dueDate == row.dueDate
  }

  /** An update gives each field it names its new value and leaves the other fields as they were. */
  lemma UpdateSetsGivenFields(row: Task, changes: TaskData)
    requires !HasNull(changes)
    ensures var updated := ApplyChanges(row, changes);
            && (forall i | 0 <= i < |changes| :: HasValue(updated, changes[i]))
            && (updated.title == row.title || Any(changes, NamesTitle))
            && (updated.priority == row.priority || Any(changes, NamesPriority))
            && (updated.assignee == row.assignee || Any(changes, NamesAssignee))
            && (updated.dueDate == row.dueDate || Any(changes, NamesDueDate))
            && Place(updated) == Place(row)
  {
    assert forall i | 0 <= i < |changes| :: !IsNull(changes[i]);
    SetsGivenFields(ApplyChange, row, changes, HasValue, SameKey);
    KeepsField(ApplyChange, row, changes, (r: Task) => r.title, NamesTitle);
    KeepsField(ApplyChange, row, changes, (r: Task) => r.priority, NamesPriority);
    KeepsField(ApplyChange, row, changes, (r: Task) => r.assignee, NamesAssignee);
    KeepsField(ApplyChange, row, changes, (r: Task) => r.dueDate, NamesDueDate);
    ApplyChangesKeepsPlace(row, changes);
  }

  lemma DeleteRefinesBoard(tasks: Tasks, task: Id, clock: int, project: Id, status: Status)
    requires LiveTask(tasks, task)
    ensures ColumnFollows(tasks, Flushed(tasks, task, tasks[task].(deletedAt := Some(clock))),
                          Removed(task), project, status)
  {
    var row := tasks[task].(deletedAt := Some(clock));
    assert Flushed(tasks, task, row) == tasks[task := row.(version := row.version + 1)];
    LeavesColumn(tasks, task, row.(version := row.version + 1), project, status);
  }

  lemma UpdateRefinesBoard(tasks: Tasks, task: Id, changes: seq<TaskChange>, project: Id, status: Status)
    requires task in tasks
    ensures ColumnFollows(tasks, Flushed(tasks, task, ApplyChanges(tasks[task], changes)), Unchanged, project, status)
  {
    var row := ApplyChanges(tasks[task], changes);
    var flushed := Flushed(tasks, task, row);
    ApplyChangesKeepsPlace(tasks[task], changes);
    SameBoard(tasks, task, flushed[task], project, status);
    assert flushed == tasks[task := flushed[task]];
  }

  lemma OthersKeepTasks(s: State, request: Request)
    requires !WritesTasks(request) || Step(s, request).1.Failed?
    ensures Step(s, request).0.store.tasks == s.store.tasks
  {}

  /** The task table after a request that writes it, and what it means for the board. */
  lemma WrittenTasks(s: State, request: Request)
    requires WritesTasks(request) && !Step(s, request).1.Failed?
    ensures request.CreateTask? ==>
              && Step(s, request).0.store.tasks
                 == s.store.tasks[s.supply := NewTask(s.store.tasks, request.actor, request.draft)]
              && EffectOf(s, request) == Appended(s.supply, request.draft.project, request.draft.status)
    ensures request.MoveTask? ==>
              && LiveTask(s.store.tasks, request.task)
              && Step(s, request).0.store.tasks == Moved(s.store.tasks, request.task, request.status, request.position)
              && EffectOf(s, request) == if request.position.None?
                   then Appended(request.task, s.store.tasks[request.task].project, request.status)
                   else Placed(request.task, s.store.tasks[request.task].project, request.status,
                               request.position.value)
    ensures request.DeleteTask? ==>
              && LiveTask(s.store.tasks, request.task)
              && Step(s, request).0.store.tasks
                 == Flushed(s.store.tasks, request.task, s.store.tasks[request.task].(deletedAt := Some(s.clock)))
              && EffectOf(s, request) == Removed(request.task)
    ensures request.UpdateTask? ==>
              && LiveTask(s.store.tasks, request.task)
              && Step(s, request).0.store.tasks
                 == Flushed(s.store.tasks, request.task, ApplyChanges(s.store.tasks[request.task], request.changes))
              && EffectOf(s, request) == Unchanged
  {}

  /** Every request moves exactly the task it names and leaves all other tasks in their order. */
  lemma StepRefinesBoard(s: State, request: Request, project: Id, status: Status)
    ensures ColumnFollows(s.store.tasks, Step(s, request).0.store.tasks, EffectOf(s, request), project, status)
  {
    var tasks := s.store.tasks;
    if !WritesTasks(request) || Step(s, request).1.Failed? {
      OthersKeepTasks(s, request);
      return;
    }
    WrittenTasks(s, request);
    if request.CreateTask? {
      CreateRefinesBoard(tasks, s.supply, request.actor, request.draft, project, status);
    } else if request.MoveTask? {
      MoveRefinesBoard(tasks, request.task, request.status, request.position, project, status);
    } else if request.DeleteTask? {
      DeleteRefinesBoard(tasks, request.task, s.clock, project, status);
    } else {
      UpdateRefinesBoard(tasks, request.task, request.changes, project, status);
    }
  }

  predicate MayTouch(store: Store, actor: Id, project: Id) {
    Accounts.Usable(store.users, actor) && (IsAdmin(store, actor) || IsMember(store.members, project, actor))
  }

  /**
   A stored task changes only by a request that names it, while it is live, from an account with
   access to its project; its version then rises by one and its project and author stay.
   */
  lemma TaskRowFollows(s: State, request: Request, task: Id)
    requires Reachable(s) && task in s.store.tasks
    ensures task in Step(s, request).0.store.tasks
    ensures var before, after := s.store.tasks[task], Step(s, request).0.store.tasks[task];
            after == before
            || (&& (request.UpdateTask? || request.MoveTask? || request.DeleteTask?) && request.task == task
                && before.deletedAt.None? && MayTouch(s.store, request.actor, before.project)
                && after.version == before.version + 1
                && after.project == before.project && after.createdBy == before.createdBy)
  {
    if !WritesTasks(request) || Step(s, request).1.Failed? {
      OthersKeepTasks(s, request);
      return;
    }
    WrittenTasks(s, request);
    if request.UpdateTask? {
      ApplyChangesKeepsPlace(s.store.tasks[request.task], request.changes);
    }
  }

  // ---- Runs without explicit positions -------------------------------------------------------

  predicate NoExplicitPositions(run: seq<Request>) {
    forall i | 0 <= i < |run| :: run[i].MoveTask? ==> run[i].position.None?
  }

  /** The number of the last request that put `task` into a column; 0 when there was none. */
  function LastArrival(s: State, run: seq<Request>, n: nat, task: Id): (when: nat)
    requires n <= |run|
    ensures when <= n
  {
    if n == 0 then 0
    else
      match EffectOf(After(s, run, n - 1), run[n - 1])
      case Appended(arriving, _, _) => if arriving == task then n else LastArrival(s, run, n - 1, task)
      case _ => LastArrival(s, run, n - 1, task)
  }

  ghost predicate Rising(ids: seq<Id>, when: Id -> nat) {
    forall i, j | 0 <= i < j < |ids| :: when(ids[i]) < when(ids[j])
  }

  lemma {:induction ids} WithoutMembers(ids: seq<Id>, id: Id)
    ensures forall x :: x in Without(ids, id) <==> x in ids && x != id
  {}

  lemma {:induction false} WithoutStaysRising(ids: seq<Id>, when: Id -> nat, id: Id)
    requires Rising(ids, when)
    ensures Rising(Without(ids, id), when)
  {
    if ids == [] {
    } else {
      WithoutStaysRising(ids[1..], when, id);
      WithoutMembers(ids[1..], id);
      forall x | x in Without(ids[1..], id) ensures when(ids[0]) < when(x) {
        assert x in ids[1..];
      }
    }
  }

  /** Taking `id` out and appending it, when `id` is now later than everything else. */
  lemma ArrivalStaysRising(ids: seq<Id>, when: Id -> nat, id: Id, when': Id -> nat)
    requires Rising(ids, when)
    requires forall x | x != id :: when'(x) == when(x) && when'(x) < when'(id)
    ensures Rising(Without(ids, id), when') && Rising(Without(ids, id) + [id], when')
  {
    WithoutStaysRising(ids, when, id);
    WithoutMembers(ids, id);
    var rest := Without(ids, id);
    assert forall i | 0 <= i < |rest| :: rest[i] in rest;
  }

  lemma EffectStaysRising(before: Tasks, after: Tasks, effect: Effect, project: Id, status: Status,
                          when: Id -> nat, when': Id -> nat)
    requires ColumnFollows(before, after, effect, project, status) && !effect.Placed?
    requires Rising(Column(before, project, status), when)
    requires forall x | effect.Appended? ==> x != effect.task :: when'(x) == when(x)
    requires effect.Appended? ==> forall x | x != effect.task :: when(x) < when'(effect.task)
    ensures Rising(Column(after, project, status), when')
  {
    var was := Column(before, project, status);
    if effect.Appended? {
      ArrivalStaysRising(was, when, effect.task, when');
      assert Without(was, effect.task) + [] == Without(was, effect.task);
    } else if effect.Removed? {
      WithoutStaysRising(was, when, effect.task);
    }
  }

  lemma EffectsWithoutPlacing(s: State, request: Request)
    requires request.MoveTask? ==> request.position.None?
    ensures !EffectOf(s, request).Placed?
  {}

  lemma RequestStaysRising(s: State, request: Request, project: Id, status: Status, when: Id -> nat, when': Id -> nat)
    requires request.MoveTask? ==> request.position.None?
    requires Rising(Column(s.store.tasks, project, status), when)
    requires var effect := EffectOf(s, request);
             && (forall x | effect.Appended? ==> x != effect.task :: when'(x) == when(x))
             && (effect.Appended? ==> forall x | x != effect.task :: when(x) < when'(effect.task))
    ensures Rising(Column(Step(s, request).0.store.tasks, project, status), when')
  {
    StepRefinesBoard(s, request, project, status);
    EffectsWithoutPlacing(s, request);
    EffectStaysRising(s.store.tasks, Step(s, request).0.store.tasks, EffectOf(s, request), project, status,
                      when, when');
  }

  /** A column shows its tasks in the order in which they last arrived in it. */
  lemma {:induction false} ColumnsInArrivalOrder(s: State, run: seq<Request>, n: nat, project: Id, status: Status)
    requires s.store.tasks == map[] && n <= |run| && NoExplicitPositions(run)
    ensures Rising(Column(After(s, run, n).store.tasks, project, status), task => LastArrival(s, run, n, task))
  {
    var when' := (task: Id) => LastArrival(s, run, n, task);
    if n == 0 {
      assert ColumnKeys(s.store.tasks, project, status) == {};
    } else {
      var when := (task: Id) => LastArrival(s, run, n - 1, task);
      ColumnsInArrivalOrder(s, run, n - 1, project, status);
      assert Rising(Column(After(s, run, n - 1).store.tasks, project, status), when);
      RequestStaysRising(After(s, run, n - 1), run[n - 1], project, status, when, when');
      assert After(s, run, n) == Step(After(s, run, n - 1), run[n - 1]).0;
      assert Rising(Column(After(s, run, n).store.tasks, project, status), when');
    }
  }

  predicate IsMultiple(position: real, k: nat) {
    k >= 1 && position == 1000.0 * (k as real)
  }

  ghost predicate StepMultiple(position: real) {
    exists k: nat :: IsMultiple(position, k)
  }

  /** Live positions are positive multiples of the step, and no two tasks of a column share one. */
  ghost predicate Spaced(tasks: Tasks) {
    && (forall a | LiveTask(tasks, a) :: StepMultiple(tasks[a].position))
    && (forall a, b | LiveTask(tasks, a) && InColumn(tasks, b, tasks[a].project, tasks[a].status) && a != b ::
          tasks[a].position != tasks[b].position)
  }

  lemma NextPositionIsMultiple(tasks: Tasks, project: Id, status: Status)
    requires Spaced(tasks)
    ensures StepMultiple(NextPosition(tasks, project, status))
  {
    NextPositionIsMaxPlusStep(tasks, project, status);
    if task :| InColumn(tasks, task, project, status)
               && NextPosition(tasks, project, status) == tasks[task].position + POSITION_STEP {
      var k: nat :| IsMultiple(tasks[task].position, k);
      assert IsMultiple(NextPosition(tasks, project, status), k + 1);
    } else {
      assert IsMultiple(NextPosition(tasks, project, status), 1);
    }
  }

  lemma ArrivalKeepsSpaced(tasks: Tasks, id: Id, row: Task)
    requires Spaced(tasks) && row.position == NextPosition(tasks, row.project, row.status)
    ensures Spaced(tasks[id := row])
  {
    NextPositionIsMultiple(tasks, row.project, row.status);
    NextPositionIsMaxPlusStep(tasks, row.project, row.status);
  }

  lemma StepKeepsSpaced(s: State, request: Request)
    requires Spaced(s.store.tasks) && (request.MoveTask? ==> request.position.None?)
    ensures Spaced(Step(s, request).0.store.tasks)
  {
    var tasks := s.store.tasks;
    if !WritesTasks(request) || Step(s, request).1.Failed? {
      OthersKeepTasks(s, request);
      return;
    }
    WrittenTasks(s, request);
    if request.CreateTask? {
      ArrivalKeepsSpaced(tasks, s.supply, NewTask(tasks, request.actor, request.draft));
    } else if request.MoveTask? {
      var moved := Moved(tasks, request.task, request.status, None);
      assert moved == tasks[request.task := moved[request.task]];
      ArrivalKeepsSpaced(tasks, request.task, moved[request.task]);
    } else if request.UpdateTask? {
      ApplyChangesKeepsPlace(tasks[request.task], request.changes);
    }
  }

  lemma {:induction false} PositionsStaySpaced(s: State, run: seq<Request>, n: nat)
    requires s.store.tasks == map[] && n <= |run| && NoExplicitPositions(run)
    ensures Spaced(After(s, run, n).store.tasks)
  {
    if n == 0 {
    } else {
      PositionsStaySpaced(s, run, n - 1);
      StepKeepsSpaced(After(s, run, n - 1), run[n - 1]);
    }
  }

  // ---- The board query -----------------------------------------------------------------------

  /** The string a status is stored as. */
  function StoredStatus(status: Status): string {
    match status
    case Todo => "todo"
    case InProgress => "in_progress"
    case InReview => "in_review"
    case Done => "done"
  }

  predicate StringBefore(a: string, b: string) {
    if a == "" || b == "" then |a| < |b|
    else a[0] < b[0] || (a[0] == b[0] && StringBefore(a[1..], b[1..]))
  }

  function StatusRank(status: Status): int {
    match status
    case Done => 0
    case InProgress => 1
    case InReview => 2
    case Todo => 3
  }

  lemma CommonPrefix(prefix: string, a: string, b: string)
    ensures StringBefore(prefix + a, prefix + b) <==> StringBefore(a, b)
  {
    if prefix == "" {
      assert prefix + a == a && prefix + b == b;
    } else {
      CommonPrefix(prefix[1..], a, b);
      assert (prefix + a)[1..] == prefix[1..] + a && (prefix + b)[1..] == prefix[1..] + b;
    }
  }

  /** Statuses are sorted as the strings they are stored as: done, in_progress, in_review, todo. */
  lemma RankIsAlphabetical(a: Status, b: Status)
    ensures StatusRank(a) < StatusRank(b) <==> StringBefore(StoredStatus(a), StoredStatus(b))
  {
    CommonPrefix("in_", "progress", "review");
    CommonPrefix("in_", "review", "progress");
    CommonPrefix(StoredStatus(a), "", "");
    assert StoredStatus(a) + "" == StoredStatus(a);
    assert "in_" + "progress" == "in_progress" && "in_" + "review" == "in_review";
  }

  function ProjectKeys(tasks: Tasks, project: Id): (keys: set<Entry>)
    ensures forall e :: e in keys <==> LiveTask(tasks, e.id) && tasks[e.id].project == project
                                       && e == Entry(StatusRank(tasks[e.id].status), tasks[e.id].position, e.id)
  {
    set task | task in tasks && LiveTask(tasks, task) && tasks[task].project == project ::
      Entry(StatusRank(tasks[task].status), tasks[task].position, task)
  }

  /** `list_for_project`: the live tasks of a project by status, position and id. */
  function ListForProject(tasks: Tasks, project: Id): seq<Id> {
    Ids(Sort(ProjectKeys(tasks, project)))
  }

  function WithStatus(tasks: Tasks, ids: seq<Id>, status: Status): seq<Id>
    requires forall id | id in ids :: id in tasks
  {
    if ids == [] then []
    else if tasks[ids[0]].status == status then [ids[0]] + WithStatus(tasks, ids[1..], status)
    else WithStatus(tasks, ids[1..], status)
  }

  lemma ListedAreLive(tasks: Tasks, project: Id)
    ensures forall id :: id in ListForProject(tasks, project) <==> LiveTask(tasks, id) && tasks[id].project == project
    ensures forall i, j | 0 <= i < j < |ListForProject(tasks, project)| ::
              ListForProject(tasks, project)[i] != ListForProject(tasks, project)[j]
  {
    var keys := Sort(ProjectKeys(tasks, project));
    forall id ensures id in Ids(keys) <==> LiveTask(tasks, id) && tasks[id].project == project {
      if id in Ids(keys) {
        var i :| 0 <= i < |keys| && keys[i].id == id;
        assert keys[i] in Elements(keys);
      }
      if LiveTask(tasks, id) && tasks[id].project == project {
        var e := Entry(StatusRank(tasks[id].status), tasks[id].position, id);
        assert e in ProjectKeys(tasks, project) && e in Elements(keys);
        var i :| 0 <= i < |keys| && keys[i] == e;
        assert Ids(keys)[i] == id;
      }
    }
    forall i, j | 0 <= i < j < |keys| ensures keys[i].id != keys[j].id {
      assert keys[i] in Elements(keys) && keys[j] in Elements(keys) && Less(keys[i], keys[j]);
    }
  }

  lemma RankIsInjective(tasks: Tasks, id: Id, status: Status)
    ensures id in tasks && StatusRank(tasks[id].status) == StatusRank(status) ==> tasks[id].status == status
  {}

  /** The list runs through the statuses in the order of their strings, and through each by (position, id). */
  lemma ListIsOrdered(tasks: Tasks, project: Id, i: nat, j: nat)
    requires i < j < |ListForProject(tasks, project)|
    ensures ListForProject(tasks, project)[i] in tasks && ListForProject(tasks, project)[j] in tasks
    ensures var a, b := ListForProject(tasks, project)[i], ListForProject(tasks, project)[j];
            || StringBefore(StoredStatus(tasks[a].status), StoredStatus(tasks[b].status))
            || (tasks[a].status == tasks[b].status && Before(tasks[a].position, a, tasks[b].position, b))
  {
    var keys := Sort(ProjectKeys(tasks, project));
    assert keys[i] in Elements(keys) && keys[j] in Elements(keys) && Less(keys[i], keys[j]);
    RankIsAlphabetical(tasks[keys[i].id].status, tasks[keys[j].id].status);
    RankIsInjective(tasks, keys[i].id, tasks[keys[j].id].status);
  }

  function Unranked(s: seq<Entry>): seq<Entry> {
    seq(|s|, i requires 0 <= i < |s| => s[i].(rank := 0))
  }

  lemma {:induction false} WithStatusIsKeep(tasks: Tasks, keys: seq<Entry>, status: Status, keep: Entry -> bool)
    requires forall i | 0 <= i < |keys| :: keys[i].id in tasks && keep(keys[i]) == (tasks[keys[i].id].status == status)
    ensures forall id | id in Ids(keys) :: id in tasks
    ensures WithStatus(tasks, Ids(keys), status) == Ids(Keep(keys, keep))
  {
    if keys == [] {
    } else {
      var rest := Keep(keys[1..], keep);
      WithStatusIsKeep(tasks, keys[1..], status, keep);
      assert Ids(keys)[1..] == Ids(keys[1..]);
      assert Ids([keys[0]] + rest) == [keys[0].id] + Ids(rest);
    }
  }

  lemma UnrankedIncreasing(s: seq<Entry>, rank: int)
    requires Increasing(s) && forall e | e in s :: e.rank == rank
    ensures Increasing(Unranked(s)) && Ids(Unranked(s)) == Ids(s)
    ensures forall e: Entry :: e in Unranked(s) <==> e.rank == 0 && e.(rank := rank) in s
  {
    assert forall i | 0 <= i < |s| :: s[i] in s;
    forall e: Entry | e.rank == 0 && e.(rank := rank) in s ensures e in Unranked(s) {
      var i :| 0 <= i < |s| && s[i] == e.(rank := rank);
      assert Unranked(s)[i] == e;
    }
  }

  /** Filtering the sorted list by status gives the column that is sorted on its own. */
  lemma ListSplitsIntoColumns(tasks: Tasks, project: Id, status: Status)
    ensures forall id | id in ListForProject(tasks, project) :: id in tasks
    ensures WithStatus(tasks, ListForProject(tasks, project), status) == Column(tasks, project, status)
  {
    ListedAreLive(tasks, project);
    var keys := Sort(ProjectKeys(tasks, project));
    forall e ensures e in keys <==> e in ProjectKeys(tasks, project) {
      assert e in keys <==> e in Elements(keys);
    }
    var keep := (e: Entry) => e.rank == StatusRank(status);
    forall e | e in keys ensures keep(e) == (tasks[e.id].status == status) {
      RankIsInjective(tasks, e.id, status);
    }
    WithStatusIsKeep(tasks, keys, status, keep);
    KeepIncreasing(keys, keep);
    var column := Unranked(Keep(keys, keep));
    UnrankedIncreasing(Keep(keys, keep), StatusRank(status));
    forall e ensures e in Elements(column) <==> e in ColumnKeys(tasks, project, status) {
      assert e in Elements(column) <==> e in column;
      RankIsInjective(tasks, e.id, status);
    }
    SortIs(column, ColumnKeys(tasks, project, status));
  }

  /** How often `id` is in the column: as often as in the list, or never. */
  lemma {:induction false} WithStatusCount(tasks: Tasks, ids: seq<Id>, status: Status, id: Id)
    requires id in tasks && forall x | x in ids :: x in tasks
    ensures multiset(WithStatus(tasks, ids, status))[id] == if tasks[id].status == status then multiset(ids)[id] else 0
  {
    if ids == [] {
    } else {
      WithStatusCount(tasks, ids[1..], status, id);
      assert ids == [ids[0]] + ids[1..];
    }
  }

  lemma {:induction ids} WithStatusMembers(tasks: Tasks, ids: seq<Id>, status: Status)
    requires forall x | x in ids :: x in tasks
    ensures forall id | id in WithStatus(tasks, ids, status) :: id in ids
  {}

  /** The four columns together hold every listed task exactly as often as the list does. */
  lemma ColumnsAddUp(tasks: Tasks, ids: seq<Id>)
    requires forall id | id in ids :: id in tasks
    ensures multiset(WithStatus(tasks, ids, Todo)) + multiset(WithStatus(tasks, ids, InProgress))
            + multiset(WithStatus(tasks, ids, InReview)) + multiset(WithStatus(tasks, ids, Done)) == multiset(ids)
  {
    var todo, doing := WithStatus(tasks, ids, Todo), WithStatus(tasks, ids, InProgress);
    var review, done := WithStatus(tasks, ids, InReview), WithStatus(tasks, ids, Done);
    forall id
      ensures multiset(todo)[id] + multiset(doing)[id] + multiset(review)[id] + multiset(done)[id] == multiset(ids)[id]
    {
      if id in tasks {
        WithStatusCount(tasks, ids, Todo, id);
        WithStatusCount(tasks, ids, InProgress, id);
        WithStatusCount(tasks, ids, InReview, id);
        WithStatusCount(tasks, ids, Done, id);
      } else {
        WithStatusMembers(tasks, ids, Todo);
        WithStatusMembers(tasks, ids, InProgress);
        WithStatusMembers(tasks, ids, InReview);
        WithStatusMembers(tasks, ids, Done);
      }
    }
  }

  lemma {:induction false} OnceEach(ids: seq<Id>)
    requires forall i, j | 0 <= i < j < |ids| :: ids[i] != ids[j]
    ensures forall id :: multiset(ids)[id] == if id in ids then 1 else 0
  {
    if ids == [] {
    } else {
      OnceEach(ids[1..]);
      assert ids == [ids[0]] + ids[1..];
      assert ids[0] !in ids[1..];
    }
  }

  /** The board partitions the live tasks of the project. */
  lemma BoardIsPartition(tasks: Tasks, project: Id)
    ensures multiset(Column(tasks, project, Todo)) + multiset(Column(tasks, project, InProgress))
            + multiset(Column(tasks, project, InReview)) + multiset(Column(tasks, project, Done))
            == multiset(ListForProject(tasks, project))
    ensures forall id :: multiset(ListForProject(tasks, project))[id]
                         == if LiveTask(tasks, id) && tasks[id].project == project then 1 else 0
  {
    ListSplitsIntoColumns(tasks, project, Todo);
    ListSplitsIntoColumns(tasks, project, InProgress);
    ListSplitsIntoColumns(tasks, project, InReview);
    ListSplitsIntoColumns(tasks, project, Done);
    ColumnsAddUp(tasks, ListForProject(tasks, project));
    ListedAreLive(tasks, project);
    OnceEach(ListForProject(tasks, project));
  }
}
