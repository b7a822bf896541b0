/**
 Optimistic locking of tasks: any number of sessions read, change and flush, their steps
 interleaved in any order. The UPDATE of a flush carries the version its session read
 (`version_id_col`); when no row matches, the session fails with STALE_VERSION. A session that
 assigned its task to somebody publishes that in the transaction of its flush.
 */
module Locking {
  import opened Common
  import opened PartialUpdates
  import opened Workspace

  type SessionId = nat

  type StorableChange = c: TaskChange | !IsNull(c) witness DueDate(None)

  /** A change a request makes to the task object it loaded. */
  datatype Edit =
    | SetField(change: StorableChange)
    | SetPlace(status: Status, position: real)
    | SetDeleted(at: int)

  /** The task an account's request loaded, as it was then, and the changes made to it in memory since. */
  datatype Loaded = Loaded(actor: Id, task: Id, base: Task, edits: seq<Edit>)

  /** `notified` counts the committed task-assignment notifications of each account. */
  datatype State = State(rows: Tasks, sessions: map<SessionId, Loaded>, notified: multiset<Id>)

  datatype Action =
    | Insert(actor: Id, task: Id, row: Task)
    | Load(session: SessionId, actor: Id, task: Id)
    | Change(session: SessionId, edit: Edit)
    | FlushAndCommit(session: SessionId)
    | Abandon(session: SessionId)

  datatype Outcome = Inserted | Found | Missing | Changed | Stored | Unmodified | Stale | Ended | Ignored

  function ApplyEdit(row: Task, edit: Edit): Task {
    match edit
    case SetField(change) => ApplyChange(row, change)
    case SetPlace(status, position) => row.(status := status, position := position)
    case SetDeleted(at) => row.(deletedAt := Some(at))
  }

  function ApplyEdits(row: Task, edits: seq<Edit>): Task {
    ApplyAll(ApplyEdit, row, edits)
  }

  /** UPDATE sets only the columns that differ from what was loaded, and the next version. */
  function Update(row: Task, base: Task, edited: Task): Task {
    row.(title := if edited.title != base.title then edited.title else row.title,
         status := if edited.status != base.status then edited.status else row.status,
         priority := if edited.priority != base.priority then edited.priority else row.priority,
         assignee := if edited.assignee != base.assignee then edited.assignee else row.assignee,
         dueDate := if edited.dueDate != base.dueDate then edited.dueDate else row.dueDate,
         position := if edited.position != base.position then edited.position else row.position,
         deletedAt := if edited.deletedAt != base.deletedAt then edited.deletedAt else row.deletedAt,
         version := base.version + 1)
  }

  predicate NamesAssignee(edit: Edit) {
    edit.SetField? && edit.change.Assignee?
  }

  /** Whom `update_task` notifies, going by what its own session read and changed. */
  function Published(loaded: Loaded): multiset<Id> {
    var edited := ApplyEdits(loaded.base, loaded.edits);
    if Any(loaded.edits, NamesAssignee) && edited.assignee.Some? && edited.assignee != loaded.base.assignee
       && edited.assignee.value != loaded.actor
    then multiset{edited.assignee.value}
    else multiset{}
  }

  /** Whom `create_task` notifies. */
  function PublishedByInsert(actor: Id, row: Task): multiset<Id> {
    if row.assignee.Some? && row.assignee.value != actor then multiset{row.assignee.value} else multiset{}
  }

  function Flush(s: State, session: SessionId): (State, Outcome)
    requires session in s.sessions && s.sessions[session].task in s.rows
  {
    var loaded := s.sessions[session];
    var edited := ApplyEdits(loaded.base, loaded.edits);
    var closed := s.(sessions := s.sessions - {session});
    var published := s.notified + Published(loaded);
    if edited == loaded.base then (closed.(notified := published), Unmodified)
    else if s.rows[loaded.task].version != loaded.base.version then (closed, Stale)
    else
      var row := Update(s.rows[loaded.task], loaded.base, edited);
      (closed.(rows := s.rows[loaded.task := row], notified := published), Stored)
  }

  function Step(s: State, action: Action): (State, Outcome) {
    match action
    case Insert(actor, task, row) =>
      if task in s.rows then (s, Ignored)
      else
        var inserted := row.(version := 1, deletedAt := None);
        (s.(rows := s.rows[task := inserted], notified := s.notified + PublishedByInsert(actor, row)), Inserted)
    case Load(session, actor, task) =>
      if session in s.sessions then (s, Ignored)
      else if !LiveTask(s.rows, task) then (s, Missing)
      else (s.(sessions := s.sessions[session := Loaded(actor, task, s.rows[task], [])]), Found)
    case Change(session, edit) =>
      if session !in s.sessions then (s, Ignored)
      else
        var loaded := s.sessions[session];
        (s.(sessions := s.sessions[session := loaded.(edits := loaded.edits + [edit])]), Changed)
    case FlushAndCommit(session) =>
      if session !in s.sessions || s.sessions[session].task !in s.rows then (s, Ignored) else Flush(s, session)
    case Abandon(session) => (s.(sessions := s.sessions - {session}), Ended)
  }

  function After(s: State, actions: seq<Action>, n: nat): State
    requires n <= |actions|
  {
    if n == 0 then s else Step(After(s, actions, n - 1), actions[n - 1]).0
  }

  function OutcomeOf(s: State, actions: seq<Action>, i: nat): Outcome
    requires i < |actions|
  {
    Step(After(s, actions, i), actions[i]).1
  }

  // ---- The invariant ---------------------------------------------------------------------------

  /** A session's version never exceeds the row's, and equals it only while the row is what was read. */
  predicate SessionFits(rows: Tasks, loaded: Loaded) {
    && loaded.task in rows && loaded.base.deletedAt.None?
    && loaded.base.version <= rows[loaded.task].version
    && (loaded.base.version == rows[loaded.task].version ==> loaded.base == rows[loaded.task])
  }

  ghost predicate Consistent(s: State) {
    forall session | session in s.sessions :: SessionFits(s.rows, s.sessions[session])
  }

  /** What no edit touches. */
  function Identity(row: Task): (int, Id, Id) {
    (row.version, row.project, row.createdBy)
  }

  predicate Never(edit: Edit) {
    false
  }

  lemma EditsKeepIdentity(row: Task, edits: seq<Edit>)
    ensures Identity(ApplyEdits(row, edits)) == Identity(row)
  {
    KeepsField(ApplyEdit, row, edits, Identity, Never);
  }

  /** When the guard passes, merging changed columns writes exactly the edited row. */
  lemma UpdateIsEdited(base: Task, edits: seq<Edit>)
    ensures var edited := ApplyEdits(base, edits);
            Update(base, base, edited) == edited.(version := base.version + 1)
  {
    EditsKeepIdentity(base, edits);
  }

  lemma StepStaysConsistent(s: State, action: Action)
    requires Consistent(s)
    ensures Consistent(Step(s, action).0)
  {
    if action.FlushAndCommit? && action.session in s.sessions {
      assert SessionFits(s.rows, s.sessions[action.session]);
    }
  }

  lemma {:induction false} RunStaysConsistent(s: State, actions: seq<Action>, n: nat)
    requires Consistent(s) && n <= |actions|
    ensures Consistent(After(s, actions, n))
  {
    if n == 0 {
    } else {
      RunStaysConsistent(s, actions, n - 1);
      StepStaysConsistent(After(s, actions, n - 1), actions[n - 1]);
    }
  }

  // ---- One action ------------------------------------------------------------------------------

  /** The write an action commits to `task`, if any: the edits of a successful changing flush. */
  function WriteOf(s: State, action: Action, task: Id): Option<seq<Edit>> {
    if action.FlushAndCommit? && action.session in s.sessions && s.sessions[action.session].task == task
       && Step(s, action).1 == Stored
    then Some(s.sessions[action.session].edits) else None
  }

  /** One serial read-modify-write on the committed row. */
  function Serially(row: Task, edits: seq<Edit>): Task {
    ApplyEdits(row, edits).(version := row.version + 1)
  }

  function AtMostOne(write: Option<seq<Edit>>): seq<seq<Edit>> {
    match write
    case Some(edits) => [edits]
    case None => []
  }

  function WriteIfAny(row: Task, write: Option<seq<Edit>>): Task {
    match write
    case Some(edits) => Serially(row, edits)
    case None => row
  }

  /** Whatever a session read, its flush either does nothing or acts as if it ran alone, now. */
  lemma StepIsSerial(s: State, action: Action, task: Id)
    requires Consistent(s) && task in s.rows
    ensures task in Step(s, action).0.rows
    ensures Step(s, action).0.rows[task]
            == WriteIfAny(s.rows[task], WriteOf(s, action, task))
  {
    if action.FlushAndCommit? && action.session in s.sessions {
      var loaded := s.sessions[action.session];
      assert SessionFits(s.rows, loaded);
      UpdateIsEdited(loaded.base, loaded.edits);
    }
  }

  /** Of a row that is still what the session read, the flush is the one the task services make. */
  lemma FlushWithoutConflict(s: State, session: SessionId)
    requires session in s.sessions && s.sessions[session].task in s.rows
    requires s.rows[s.sessions[session].task] == s.sessions[session].base
    ensures var loaded := s.sessions[session];
            Step(s, FlushAndCommit(session)).0.rows
            == Flushed(s.rows, loaded.task, ApplyEdits(loaded.base, loaded.edits))
  {
    UpdateIsEdited(s.sessions[session].base, s.sessions[session].edits);
    EditsKeepIdentity(s.sessions[session].base, s.sessions[session].edits);
  }

  /**
   The version guard decides exactly whether the row is still what the session read: a flush with
   changes is stored if it is, and refused if it is not.
   */
  lemma GuardDetectsChange(s: State, session: SessionId)
    requires Consistent(s) && session in s.sessions
    ensures var loaded := s.sessions[session];
            var changes := ApplyEdits(loaded.base, loaded.edits) != loaded.base;
            var (s', outcome) := Step(s, FlushAndCommit(session));
            && loaded.task in s.rows
            && (outcome == Stored <==> changes && s.rows[loaded.task] == loaded.base)
            && (outcome == Stale <==> changes && s.rows[loaded.task] != loaded.base)
            && (outcome != Stored ==> s'.rows == s.rows)
  {
    assert SessionFits(s.rows, s.sessions[session]);
  }

  // ---- Runs ------------------------------------------------------------------------------------

  /** The successful changing writes to `task` among actions `m` to `n`, in order. */
  function Writes(s: State, actions: seq<Action>, m: nat, n: nat, task: Id): seq<seq<Edit>>
    requires m <= n <= |actions|
  {
    if m == n then []
    else
      Writes(s, actions, m, n - 1, task) + AtMostOne(WriteOf(After(s, actions, n - 1), actions[n - 1], task))
  }

  function Replay(row: Task, writes: seq<seq<Edit>>): Task {
    if writes == [] then row else Serially(Replay(row, writes[..|writes| - 1]), writes[|writes| - 1])
  }

  lemma ReplayOneMore(row: Task, earlier: seq<seq<Edit>>, write: Option<seq<Edit>>)
    ensures Replay(row, earlier + AtMostOne(write)) == WriteIfAny(Replay(row, earlier), write)
  {
    match write
    case Some(edits) => assert (earlier + [edits])[..|earlier|] == earlier;
    case None => assert earlier + [] == earlier;
  }

  /** Each write raises the version by one. */
  lemma {:induction false} ReplayCountsWrites(row: Task, writes: seq<seq<Edit>>)
    ensures Replay(row, writes).version == row.version + |writes|
  {
    if writes == [] {
    } else {
      ReplayCountsWrites(row, writes[..|writes| - 1]);
    }
  }

  /** One more step of a run replays one more write, if the step made one. */
  lemma StepReplays(first: Task, earlier: seq<seq<Edit>>, s: State, action: Action, task: Id)
    requires Consistent(s) && task in s.rows && s.rows[task] == Replay(first, earlier)
    ensures task in Step(s, action).0.rows
    ensures Step(s, action).0.rows[task] == Replay(first, earlier + AtMostOne(WriteOf(s, action, task)))
  {
    StepIsSerial(s, action, task);
    ReplayOneMore(first, earlier, WriteOf(s, action, task));
  }

  lemma RunReplays(s: State, actions: seq<Action>, n: nat, first: Task, earlier: seq<seq<Edit>>, task: Id)
    requires Consistent(s) && 0 < n <= |actions|
    requires task in After(s, actions, n - 1).rows && After(s, actions, n - 1).rows[task] == Replay(first, earlier)
    ensures task in After(s, actions, n).rows
    ensures After(s, actions, n).rows[task]
            == Replay(first, earlier + AtMostOne(WriteOf(After(s, actions, n - 1), actions[n - 1], task)))
  {
    RunStaysConsistent(s, actions, n - 1);
    StepReplays(first, earlier, After(s, actions, n - 1), actions[n - 1], task);
  }

  lemma {:induction false} InterleavingReplays(s: State, actions: seq<Action>, m: nat, n: nat, task: Id)
    requires Consistent(s) && m <= n <= |actions| && task in After(s, actions, m).rows
    ensures task in After(s, actions, n).rows
    ensures After(s, actions, n).rows[task] == Replay(After(s, actions, m).rows[task], Writes(s, actions, m, n, task))
  {
    if m == n {
    } else {
      InterleavingReplays(s, actions, m, n - 1, task);
      var earlier, action := Writes(s, actions, m, n - 1, task), actions[n - 1];
      RunReplays(s, actions, n, After(s, actions, m).rows[task], earlier, task);
      assert Writes(s, actions, m, n, task) == earlier + AtMostOne(WriteOf(After(s, actions, n - 1), action, task));
    }
  }

  /**
   However sessions interleave, a task's committed row is the serial application of exactly the
   successful changing writes, and its version counts them.
   */
  lemma InterleavingIsSerial(s: State, actions: seq<Action>, m: nat, n: nat, task: Id)
    requires Consistent(s) && m <= n <= |actions| && task in After(s, actions, m).rows
    ensures task in After(s, actions, n).rows
    ensures After(s, actions, n).rows[task] == Replay(After(s, actions, m).rows[task], Writes(s, actions, m, n, task))
    ensures After(s, actions, n).rows[task].version
            == After(s, actions, m).rows[task].version + |Writes(s, actions, m, n, task)|
  {
    InterleavingReplays(s, actions, m, n, task);
    ReplayCountsWrites(After(s, actions, m).rows[task], Writes(s, actions, m, n, task));
  }

  /** From its insertion on, a task's version is one more than the number of its writes. */
  lemma VersionCountsWrites(s: State, actions: seq<Action>, i: nat, n: nat)
    requires Consistent(s) && i < n <= |actions|
    requires actions[i].Insert? && OutcomeOf(s, actions, i) == Inserted
    ensures var task := actions[i].task;
            task in After(s, actions, n).rows
            && After(s, actions, n).rows[task].version == 1 + |Writes(s, actions, i + 1, n, task)|
  {
    var task := actions[i].task;
    assert After(s, actions, i + 1) == Step(After(s, actions, i), actions[i]).0;
    assert task in After(s, actions, i + 1).rows && After(s, actions, i + 1).rows[task].version == 1;
    InterleavingIsSerial(s, actions, i + 1, n, task);
  }

  /** The session opened at `r` is neither flushed nor abandoned before `j`. */
  predicate StaysOpen(actions: seq<Action>, session: SessionId, r: nat, j: nat)
    requires r < j <= |actions|
  {
    forall k | r < k < j :: actions[k] != FlushAndCommit(session) && actions[k] != Abandon(session)
  }

  lemma SessionKeepsBase(s: State, action: Action, session: SessionId)
    requires session in s.sessions && action != FlushAndCommit(session) && action != Abandon(session)
    ensures session in Step(s, action).0.sessions
    ensures var after := Step(s, action).0.sessions[session];
            after == s.sessions[session].(edits := after.edits)
  {
    match action
    case FlushAndCommit(other) => assert other != session;
    case Abandon(other) => assert other != session;
    case _ =>
  }

  lemma RunKeepsBase(s: State, actions: seq<Action>, session: SessionId, j: nat)
    requires 0 < j <= |actions| && session in After(s, actions, j - 1).sessions
    requires actions[j - 1] != FlushAndCommit(session) && actions[j - 1] != Abandon(session)
    ensures session in After(s, actions, j).sessions
    ensures var after := After(s, actions, j).sessions[session];
            after == After(s, actions, j - 1).sessions[session].(edits := after.edits)
  {
    SessionKeepsBase(After(s, actions, j - 1), actions[j - 1], session);
  }

  /** An open session keeps its task and what it read. */
  lemma {:induction false} OpenSessionIsKept(s: State, actions: seq<Action>, session: SessionId, r: nat, j: nat)
    requires r < j <= |actions| && StaysOpen(actions, session, r, j)
    requires session in After(s, actions, r + 1).sessions
    ensures session in After(s, actions, j).sessions
    ensures var after := After(s, actions, j).sessions[session];
            after == After(s, actions, r + 1).sessions[session].(edits := after.edits)
  {
    if j == r + 1 {
    } else {
      OpenSessionIsKept(s, actions, session, r, j - 1);
      RunKeepsBase(s, actions, session, j);
    }
  }

  lemma LoadReads(s: State, actions: seq<Action>, r: nat)
    requires r < |actions| && actions[r].Load? && OutcomeOf(s, actions, r) == Found
    ensures actions[r].task in After(s, actions, r).rows
    ensures actions[r].session in After(s, actions, r + 1).sessions
    ensures After(s, actions, r + 1).sessions[actions[r].session]
            == Loaded(actions[r].actor, actions[r].task, After(s, actions, r).rows[actions[r].task], [])
  {}

  lemma BaseIsWhatWasRead(s: State, actions: seq<Action>, session: SessionId, r: nat, j: nat)
    requires r < j <= |actions| && StaysOpen(actions, session, r, j)
    requires actions[r].Load? && actions[r].session == session && OutcomeOf(s, actions, r) == Found
    ensures session in After(s, actions, j).sessions
    ensures After(s, actions, j).sessions[session].task == actions[r].task
    ensures actions[r].task in After(s, actions, r).rows
    ensures After(s, actions, j).sessions[session].base == After(s, actions, r).rows[actions[r].task]
  {
    LoadReads(s, actions, r);
    OpenSessionIsKept(s, actions, session, r, j);
  }

  /**
   No lost update: when a session that loaded the task at `r` stores its changes at `j`, nobody
   else's write came between, at any moment.
   */
  lemma NoLostUpdate(s: State, actions: seq<Action>, session: SessionId, r: nat, j: nat, m: nat)
    requires Consistent(s) && r < m <= j < |actions| && StaysOpen(actions, session, r, j)
    requires actions[r].Load? && actions[r].session == session && OutcomeOf(s, actions, r) == Found
    requires actions[j] == FlushAndCommit(session) && OutcomeOf(s, actions, j) == Stored
    ensures actions[r].task in After(s, actions, r).rows && actions[r].task in After(s, actions, m).rows
    ensures After(s, actions, m).rows[actions[r].task] == After(s, actions, r).rows[actions[r].task]
    ensures Writes(s, actions, r, m, actions[r].task) == []
  {
    var task := actions[r].task;
    BaseIsWhatWasRead(s, actions, session, r, j);
    RunStaysConsistent(s, actions, j);
    GuardDetectsChange(After(s, actions, j), session);
    InterleavingIsSerial(s, actions, r, j, task);
    InterleavingIsSerial(s, actions, r, m, task);
    InterleavingIsSerial(s, actions, m, j, task);
  }

  /** A session whose task was written after it loaded it never changes the row. */
  lemma StaleWriterIsRefused(s: State, actions: seq<Action>, session: SessionId, r: nat, j: nat)
    requires Consistent(s) && r < j < |actions| && StaysOpen(actions, session, r, j)
    requires actions[r].Load? && actions[r].session == session && OutcomeOf(s, actions, r) == Found
    requires actions[j] == FlushAndCommit(session) && Writes(s, actions, r, j, actions[r].task) != []
    ensures OutcomeOf(s, actions, j) in {Stale, Unmodified}
    ensures After(s, actions, j + 1).rows == After(s, actions, j).rows
  {
    BaseIsWhatWasRead(s, actions, session, r, j);
    RunStaysConsistent(s, actions, j);
    InterleavingIsSerial(s, actions, r, j, actions[r].task);
    GuardDetectsChange(After(s, actions, j), session);
  }

  lemma DeletedRowIsKept(s: State, action: Action, task: Id)
    requires Consistent(s) && task in s.rows && s.rows[task].deletedAt.Some?
    ensures task in Step(s, action).0.rows && Step(s, action).0.rows[task] == s.rows[task]
  {
    if action.FlushAndCommit? && action.session in s.sessions {
      assert SessionFits(s.rows, s.sessions[action.session]);
      GuardDetectsChange(s, action.session);
    }
  }

  /** Nothing changes a row once its soft delete is committed. */
  lemma {:induction false} DeletedRowIsFrozen(s: State, actions: seq<Action>, i: nat, j: nat, task: Id)
    requires Consistent(s) && i <= j <= |actions|
    requires task in After(s, actions, i).rows && After(s, actions, i).rows[task].deletedAt.Some?
    ensures task in After(s, actions, j).rows && After(s, actions, j).rows[task] == After(s, actions, i).rows[task]
  {
    if i == j {
    } else {
      DeletedRowIsFrozen(s, actions, i, j - 1, task);
      RunStaysConsistent(s, actions, j - 1);
      DeletedRowIsKept(After(s, actions, j - 1), actions[j - 1], task);
      assert After(s, actions, j) == Step(After(s, actions, j - 1), actions[j - 1]).0;
    }
  }

  // ---- Notifications ---------------------------------------------------------------------------

  predicate BecomesAssigned(s: State, action: Action, task: Id, user: Id) {
    task in Step(s, action).0.rows && Step(s, action).0.rows[task].assignee == Some(user)
    && (task in s.rows ==> s.rows[task].assignee != Some(user))
  }

  function ActorOf(s: State, action: Action): Option<Id> {
    match action
    case Insert(actor, _, _) => Some(actor)
    case FlushAndCommit(session) => if session in s.sessions then Some(s.sessions[session].actor) else None
    case _ => None
  }

  /** The action's committed effect assigns a task to `user`, and another account is behind it. */
  predicate Assigns(s: State, action: Action, user: Id) {
    exists task | task in Step(s, action).0.rows ::
      ActorOf(s, action).Some? && ActorOf(s, action) != Some(user) && BecomesAssigned(s, action, task, user)
  }

  /** How many of the actions `0` to `n` assign a task to `user` on behalf of somebody else. */
  function Assignments(s: State, actions: seq<Action>, n: nat, user: Id): nat
    requires n <= |actions|
  {
    if n == 0 then 0
    else
      Assignments(s, actions, n - 1, user) + if Assigns(After(s, actions, n - 1), actions[n - 1], user) then 1 else 0
  }

  /** What a session publishes is decided by the assignee it read; the guard makes that the committed one. */
  lemma FlushNotifies(s: State, session: SessionId, user: Id)
    requires Consistent(s) && session in s.sessions
    ensures Step(s, FlushAndCommit(session)).0.notified[user]
            == s.notified[user] + if Assigns(s, FlushAndCommit(session), user) then 1 else 0
  {
    var loaded := s.sessions[session];
    var action := FlushAndCommit(session);
    assert SessionFits(s.rows, loaded);
    UpdateIsEdited(loaded.base, loaded.edits);
    KeepsField(ApplyEdit, loaded.base, loaded.edits, (row: Task) => row.assignee, NamesAssignee);
    assert forall task | task != loaded.task :: !BecomesAssigned(s, action, task, user);
    assert Assigns(s, action, user) <==> loaded.actor != user && BecomesAssigned(s, action, loaded.task, user);
  }

  lemma InsertNotifies(s: State, actor: Id, task: Id, row: Task, user: Id)
    ensures Step(s, Insert(actor, task, row)).0.notified[user]
            == s.notified[user] + if Assigns(s, Insert(actor, task, row), user) then 1 else 0
  {
    var action := Insert(actor, task, row);
    assert forall other | other != task :: !BecomesAssigned(s, action, other, user);
    assert Assigns(s, action, user) <==> actor != user && BecomesAssigned(s, action, task, user);
  }

  lemma StepNotifies(s: State, action: Action, user: Id)
    requires Consistent(s)
    ensures Step(s, action).0.notified[user] == s.notified[user] + if Assigns(s, action, user) then 1 else 0
  {
    match action
    case Insert(actor, task, row) => InsertNotifies(s, actor, task, row, user);
    case FlushAndCommit(session) =>
      if session in s.sessions {
        FlushNotifies(s, session, user);
      }
    case _ =>
  }

  /**
   However sessions interleave, an account's assignment notifications number exactly the committed
   writes by others that assign a task to it: a stale session sends none, and no session mistakes
   an assignee that was replaced behind its back.
   */
  lemma {:induction false} InterleavingNotifies(s: State, actions: seq<Action>, n: nat, user: Id)
    requires Consistent(s) && n <= |actions|
    ensures After(s, actions, n).notified[user] == s.notified[user] + Assignments(s, actions, n, user)
  {
    if n == 0 {
    } else {
      InterleavingNotifies(s, actions, n - 1, user);
      RunStaysConsistent(s, actions, n - 1);
      StepNotifies(After(s, actions, n - 1), actions[n - 1], user);
      assert After(s, actions, n) == Step(After(s, actions, n - 1), actions[n - 1]).0;
    }
  }
}
