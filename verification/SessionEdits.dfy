/**
 What a session's edits come to: the fields a stored flush leaves in the committed row, and the
 task requests that such sessions carry out.
 */
module SessionEdits {
  import opened Common
  import opened PartialUpdates
  import opened Locking
  import Workspace
  import Board

  // ---- The last edit of a kind wins -----------------------------------------------------------

  predicate SameKind(a: Edit, b: Edit) {
    match (a, b)
    case (SetField(c), SetField(d)) => Workspace.SameKey(c, d)
    case (SetPlace(_, _), SetPlace(_, _)) => true
    case (SetDeleted(_), SetDeleted(_)) => true
    case _ => false
  }

  /** The row is as the edit wanted it. */
  predicate Carries(row: Workspace.Task, edit: Edit) {
    match edit
    case SetField(change) => Board.HasValue(row, change)
    case SetPlace(status, position) => row.status == status && row.position == position
    case SetDeleted(at) => row.deletedAt == Some(at)
  }

  predicate IsLastOfKind(edits: seq<Edit>, i: nat) {
    i < |edits| && forall j | i < j < |edits| :: !SameKind(edits[i], edits[j])
  }

  lemma {:induction false} LastOfKindWins(row: Workspace.Task, edits: seq<Edit>, i: nat)
    requires IsLastOfKind(edits, i)
    ensures Carries(ApplyEdits(row, edits), edits[i])
  {
    var rest, last := edits[..|edits| - 1], edits[|edits| - 1];
    assert ApplyEdits(row, edits) == ApplyEdit(ApplyEdits(row, rest), last);
    if i == |edits| - 1 {
    } else {
      LastOfKindWins(row, rest, i);
      assert rest[i] == edits[i] && !SameKind(edits[i], last);
    }
  }

  predicate NamesTitle(edit: Edit) {
    edit.SetField? && edit.change.Title?
  }

  predicate NamesPriority(edit: Edit) {
    edit.SetField? && edit.change.SetPriority?
  }

  predicate NamesDueDate(edit: Edit) {
    edit.SetField? && edit.change.DueDate?
  }

  predicate NamesPlace(edit: Edit) {
    edit.SetPlace?
  }

  predicate NamesDeletion(edit: Edit) {
    edit.SetDeleted?
  }

  /** What no edit names is as it was. */
  predicate OthersKept(row: Workspace.Task, edits: seq<Edit>, after: Workspace.Task) {
    && (after.title == row.title || Any(edits, NamesTitle))
    && (after.priority == row.priority || Any(edits, NamesPriority))
    && (after.assignee == row.assignee || Any(edits, NamesAssignee))
    && (after.dueDate == row.dueDate || Any(edits, NamesDueDate))
    && ((after.status == row.status && after.position == row.position) || Any(edits, NamesPlace))
    && (after.deletedAt == row.deletedAt || Any(edits, NamesDeletion))
    && after.project == row.project && after.createdBy == row.createdBy
  }

  lemma OnlyNamedFieldsChange(row: Workspace.Task, edits: seq<Edit>)
    ensures OthersKept(row, edits, ApplyEdits(row, edits))
  {
    KeepsField(ApplyEdit, row, edits, (r: Workspace.Task) => r.title, NamesTitle);
    KeepsField(ApplyEdit, row, edits, (r: Workspace.Task) => r.priority, NamesPriority);
    KeepsField(ApplyEdit, row, edits, (r: Workspace.Task) => r.assignee, NamesAssignee);
    KeepsField(ApplyEdit, row, edits, (r: Workspace.Task) => r.dueDate, NamesDueDate);
    KeepsField(ApplyEdit, row, edits, (r: Workspace.Task) => (r.status, r.position), NamesPlace);
    KeepsField(ApplyEdit, row, edits, (r: Workspace.Task) => r.deletedAt, NamesDeletion);
    EditsKeepIdentity(row, edits);
  }

  // ---- Flushes --------------------------------------------------------------------------------

  /** Every edit that no later one of its kind overrode. */
  ghost predicate CarriesAll(row: Workspace.Task, edits: seq<Edit>) {
    forall i: nat | IsLastOfKind(edits, i) :: Carries(row, edits[i])
  }

  /**
   The row after a stored flush, in any interleaving: every edit that no later one of its kind
   overrode has reached it, everything else is as in the committed row before, and the version is
   the next one.
   */
  lemma StoredFlushCarries(s: State, session: SessionId)
    requires Consistent(s) && session in s.sessions && Step(s, FlushAndCommit(session)).1 == Stored
    ensures s.sessions[session].task in s.rows && s.sessions[session].task in Step(s, FlushAndCommit(session)).0.rows
    ensures var loaded := s.sessions[session];
            var before, after := s.rows[loaded.task], Step(s, FlushAndCommit(session)).0.rows[loaded.task];
            && CarriesAll(after, loaded.edits)
            && OthersKept(before, loaded.edits, after)
            && after.version == before.version + 1
  {
    var loaded := s.sessions[session];
    var edited := ApplyEdits(loaded.base, loaded.edits);
    GuardDetectsChange(s, session);
    UpdateIsEdited(loaded.base, loaded.edits);
    OnlyNamedFieldsChange(loaded.base, loaded.edits);
    var after := Step(s, FlushAndCommit(session)).0.rows[loaded.task];
    assert after == edited.(version := loaded.base.version + 1);
    forall i: nat | IsLastOfKind(loaded.edits, i) ensures Carries(after, loaded.edits[i]) {
      LastOfKindWins(loaded.base, loaded.edits, i);
    }
  }

  lemma LastNaming(edits: seq<Edit>, names: Edit -> bool) returns (i: nat)
    requires Any(edits, names)
    ensures i < |edits| && names(edits[i]) && forall j | i < j < |edits| :: !names(edits[j])
  {
    i := |edits| - 1;
    while !names(edits[i])
      invariant 0 <= i < |edits| && forall j | i < j < |edits| :: !names(edits[j])
      decreases i
    {
      assert exists k :: 0 <= k < i && names(edits[k]);
      i := i - 1;
    }
  }

  /** Two rows that carry the same edits and agree on what these do not name are equal. */
  lemma SameOutcome(base: Workspace.Task, edits: seq<Edit>, row: Workspace.Task, names: Edit -> bool)
    requires CarriesAll(base, edits) && CarriesAll(row, edits) && Any(edits, names)
    requires forall a, b: Edit | names(a) && names(b) :: SameKind(a, b)
    requires forall a, b: Edit | names(a) && SameKind(a, b) :: names(b)
    ensures exists i: nat ::
              IsLastOfKind(edits, i) && names(edits[i]) && Carries(base, edits[i]) && Carries(row, edits[i])
  {
    var i := LastNaming(edits, names);
    assert IsLastOfKind(edits, i);
  }

  lemma SameFields(base: Workspace.Task, edits: seq<Edit>, edited: Workspace.Task)
    requires CarriesAll(base, edits) && CarriesAll(edited, edits) && OthersKept(base, edits, edited)
    ensures edited.title == base.title && edited.priority == base.priority
    ensures edited.assignee == base.assignee && edited.dueDate == base.dueDate
  {
    if Any(edits, NamesTitle) {
      SameOutcome(base, edits, edited, NamesTitle);
    }
    if Any(edits, NamesPriority) {
      SameOutcome(base, edits, edited, NamesPriority);
    }
    if Any(edits, NamesAssignee) {
      SameOutcome(base, edits, edited, NamesAssignee);
    }
    if Any(edits, NamesDueDate) {
      SameOutcome(base, edits, edited, NamesDueDate);
    }
  }

  lemma SamePlace(base: Workspace.Task, edits: seq<Edit>, edited: Workspace.Task)
    requires CarriesAll(base, edits) && CarriesAll(edited, edits) && OthersKept(base, edits, edited)
    ensures edited.status == base.status && edited.position == base.position && edited.deletedAt == base.deletedAt
  {
    if Any(edits, NamesPlace) {
      SameOutcome(base, edits, edited, NamesPlace);
    }
    if Any(edits, NamesDeletion) {
      SameOutcome(base, edits, edited, NamesDeletion);
    }
  }

  lemma CarriedChangesNothing(base: Workspace.Task, edits: seq<Edit>)
    requires CarriesAll(base, edits)
    ensures ApplyEdits(base, edits) == base
  {
    var edited := ApplyEdits(base, edits);
    OnlyNamedFieldsChange(base, edits);
    EditsKeepIdentity(base, edits);
    forall i: nat | IsLastOfKind(edits, i) ensures Carries(edited, edits[i]) {
      LastOfKindWins(base, edits, i);
    }
    SameFields(base, edits, edited);
    SamePlace(base, edits, edited);
  }

  /** A flush writes nothing exactly if the edits come to nothing: the row read carries them all already. */
  lemma UnmodifiedIff(s: State, session: SessionId)
    requires Consistent(s) && session in s.sessions
    ensures Step(s, FlushAndCommit(session)).1 == Unmodified <==>
              CarriesAll(s.sessions[session].base, s.sessions[session].edits)
  {
    var loaded := s.sessions[session];
    assert SessionFits(s.rows, loaded);
    var edited := ApplyEdits(loaded.base, loaded.edits);
    forall i: nat | IsLastOfKind(loaded.edits, i) ensures Carries(edited, loaded.edits[i]) {
      LastOfKindWins(loaded.base, loaded.edits, i);
    }
    if CarriesAll(loaded.base, loaded.edits) {
      CarriedChangesNothing(loaded.base, loaded.edits);
    }
  }

  // ---- Sessions that carry out requests -------------------------------------------------------

  /** The edits a partial update makes, one for each given field. */
  function FieldEdits(changes: seq<Workspace.TaskChange>): (edits: seq<Edit>)
    requires !Workspace.HasNull(changes)
    ensures |edits| == |changes| && forall i | 0 <= i < |changes| :: edits[i] == SetField(changes[i])
  {
    assert forall i | 0 <= i < |changes| :: !Workspace.IsNull(changes[i]);
    seq(|changes|, i requires 0 <= i < |changes| => SetField(changes[i]))
  }

  lemma {:induction false} FieldEditsAreChanges(row: Workspace.Task, changes: seq<Workspace.TaskChange>)
    requires !Workspace.HasNull(changes)
    ensures ApplyEdits(row, FieldEdits(changes)) == Workspace.ApplyChanges(row, changes)
  {
    if changes == [] {
    } else {
      var rest := changes[..|changes| - 1];
      assert forall i | 0 <= i < |rest| :: rest[i] == changes[i];
      assert forall i | 0 <= i < |changes| :: !Workspace.IsNull(changes[i]);
      FieldEditsAreChanges(row, rest);
      assert FieldEdits(changes)[..|changes| - 1] == FieldEdits(rest);
    }
  }

  /** The session has made these edits, and nobody has written its row since it was read. */
  predicate Undisturbed(s: State, session: SessionId, task: Id, edits: seq<Edit>) {
    && session in s.sessions && s.sessions[session].task == task && s.sessions[session].edits == edits
    && task in s.rows && s.rows[task] == s.sessions[session].base
  }

  /** Then its flush leaves the very table that the request leaves when requests run one by one. */
  lemma SessionCarriesOutUpdate(s: State, session: SessionId, w: Workspace.State, request: Workspace.Request)
    requires request.UpdateTask? && Workspace.Step(w, request).1 == Workspace.Ok && w.store.tasks == s.rows
    requires !Workspace.HasNull(request.changes)
    requires Undisturbed(s, session, request.task, FieldEdits(request.changes))
    ensures Step(s, FlushAndCommit(session)).0.rows == Workspace.Step(w, request).0.store.tasks
  {
    FlushWithoutConflict(s, session);
    FieldEditsAreChanges(s.rows[request.task], request.changes);
    Board.WrittenTasks(w, request);
  }

  lemma OneEdit(row: Workspace.Task, edit: Edit)
    ensures ApplyEdits(row, [edit]) == ApplyEdit(row, edit)
  {
    assert [edit][..0] == [];
    assert ApplyEdits(row, [edit]) == ApplyEdit(ApplyEdits(row, [edit][..0]), edit);
  }

  lemma SessionCarriesOutMove(s: State, session: SessionId, w: Workspace.State, request: Workspace.Request)
    requires request.MoveTask? && Workspace.Step(w, request).1 == Workspace.Ok && w.store.tasks == s.rows
    requires request.task in s.rows
    requires var position := if request.position.Some? then request.position.value
                             else Workspace.NextPosition(s.rows, s.rows[request.task].project, request.status);
             Undisturbed(s, session, request.task, [SetPlace(request.status, position)])
    ensures Step(s, FlushAndCommit(session)).0.rows == Workspace.Step(w, request).0.store.tasks
  {
    FlushWithoutConflict(s, session);
    Board.WrittenTasks(w, request);
    OneEdit(s.rows[request.task], s.sessions[session].edits[0]);
  }

  lemma SessionCarriesOutDelete(s: State, session: SessionId, w: Workspace.State, request: Workspace.Request)
    requires request.DeleteTask? && Workspace.Step(w, request).1 == Workspace.Ok && w.store.tasks == s.rows
    requires Undisturbed(s, session, request.task, [SetDeleted(w.clock)])
    ensures Step(s, FlushAndCommit(session)).0.rows == Workspace.Step(w, request).0.store.tasks
  {
    FlushWithoutConflict(s, session);
    Board.WrittenTasks(w, request);
    OneEdit(s.rows[request.task], SetDeleted(w.clock));
  }

  lemma SessionCarriesOutCreate(s: State, w: Workspace.State, request: Workspace.Request)
    requires request.CreateTask? && Workspace.Step(w, request).1.Created? && w.store.tasks == s.rows
    requires w.supply !in s.rows
    ensures var row := Workspace.NewTask(s.rows, request.actor, request.draft);
            Step(s, Insert(request.actor, w.supply, row)).0.rows == Workspace.Step(w, request).0.store.tasks
  {
    Board.WrittenTasks(w, request);
  }
}
