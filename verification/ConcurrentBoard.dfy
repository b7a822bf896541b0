/**
 The board under interleaved sessions: positions read with `next_position` while other sessions are
 at work. Each is one step past the greatest position committed when it was read, so what was
 committed before that read stays in front, and only overlapping arrivals can share a position.
 */
module ConcurrentBoard {
  import opened Common
  import opened Locking
  import Workspace
  import Board

  // ---- Runs without explicit positions -------------------------------------------------------

  /** The place of `row` is the one `next_position` gave for its column after `r` actions. */
  predicate ReadAt(s: State, actions: seq<Action>, r: nat, row: Workspace.Task)
    requires r <= |actions|
  {
    row.position == Workspace.NextPosition(After(s, actions, r).rows, row.project, row.status)
  }

  ghost predicate ReadBefore(s: State, actions: seq<Action>, k: nat, row: Workspace.Task)
    requires k < |actions|
  {
    exists r: nat :: r <= k && ReadAt(s, actions, r, row)
  }

  /**
   Action `k` takes no position from its caller: a created task brings one that its session read
   earlier, and a move sets the one that it reads at this moment.
   */
  ghost predicate PositionIsRead(s: State, actions: seq<Action>, k: nat)
    requires k < |actions|
  {
    match actions[k]
    case Insert(_, _, row) => ReadBefore(s, actions, k, row)
    case Change(session, SetPlace(status, position)) =>
      session in After(s, actions, k).sessions ==>
        ReadAt(s, actions, k, After(s, actions, k).sessions[session].base.(status := status, position := position))
    case _ => true
  }

  ghost predicate NoExplicitPositions(s: State, actions: seq<Action>) {
    forall k | 0 <= k < |actions| :: PositionIsRead(s, actions, k)
  }

  predicate IsEmpty(s: State) {
    s.rows == map[] && s.sessions == map[]
  }

  // ---- Where positions come from -------------------------------------------------------------

  function Place(row: Workspace.Task): (Id, Workspace.Status, real) {
    (row.project, row.status, row.position)
  }

  predicate StandsAt(s: State, actions: seq<Action>, k: nat, task: Id, place: (Id, Workspace.Status, real))
    requires k <= |actions|
  {
    task in After(s, actions, k).rows && Place(After(s, actions, k).rows[task]) == place
  }

  /** Since action `w` the task has stood at this place. */
  predicate Settled(s: State, actions: seq<Action>, w: nat, n: nat, task: Id, place: (Id, Workspace.Status, real))
    requires n <= |actions|
  {
    forall k | w < k <= n :: StandsAt(s, actions, k, task, place)
  }

  /** Action `w` created the task, or committed the move whose session read the position at `r`. */
  predicate Arrives(s: State, actions: seq<Action>, r: nat, w: nat, task: Id)
    requires r <= w < |actions|
  {
    match actions[w]
    case Insert(_, inserted, _) => inserted == task
    case FlushAndCommit(session) =>
      && r < w && actions[r].Change? && actions[r].session == session && actions[r].edit.SetPlace?
      && StaysOpen(actions, session, r, w)
      && session in After(s, actions, w).sessions && After(s, actions, w).sessions[session].task == task
    case _ => false
  }

  /** The task has stood where it is since action `w`, at a position that was read at `r`. */
  predicate ArrivedAt(s: State, actions: seq<Action>, n: nat, task: Id, r: nat, w: nat)
    requires n <= |actions|
  {
    && r <= w < n && task in After(s, actions, n).rows
    && ReadAt(s, actions, r, After(s, actions, n).rows[task])
    && Settled(s, actions, w, n, task, Place(After(s, actions, n).rows[task]))
    && Arrives(s, actions, r, w, task)
  }

  ghost predicate Arrived(s: State, actions: seq<Action>, n: nat, task: Id)
    requires n <= |actions|
  {
    exists r: nat, w: nat :: ArrivedAt(s, actions, n, task, r, w)
  }

  predicate PlacedAt(s: State, actions: seq<Action>, n: nat, session: SessionId, edited: Workspace.Task, r: nat)
    requires n <= |actions|
  {
    && r < n && actions[r] == Change(session, SetPlace(edited.status, edited.position))
    && StaysOpen(actions, session, r, n) && ReadAt(s, actions, r, edited)
  }

  /** What a session is about to write stands where it stood, or where the session read. */
  ghost predicate SessionPlaced(s: State, actions: seq<Action>, n: nat, session: SessionId)
    requires n <= |actions| && session in After(s, actions, n).sessions
  {
    var loaded := After(s, actions, n).sessions[session];
    var edited := ApplyEdits(loaded.base, loaded.edits);
    Place(edited) == Place(loaded.base) || exists r: nat :: PlacedAt(s, actions, n, session, edited, r)
  }

  ghost predicate AllPlaced(s: State, actions: seq<Action>, n: nat)
    requires n <= |actions|
  {
    && Consistent(After(s, actions, n))
    && (forall task | task in After(s, actions, n).rows :: Arrived(s, actions, n, task))
    && (forall session | session in After(s, actions, n).sessions :: SessionPlaced(s, actions, n, session))
  }

  // ---- One action ----------------------------------------------------------------------------

  lemma EditAppended(base: Workspace.Task, edits: seq<Edit>, edit: Edit)
    ensures ApplyEdits(base, edits + [edit]) == ApplyEdit(ApplyEdits(base, edits), edit)
  {
    assert (edits + [edit])[..|edits|] == edits;
  }

  /** What an action can do to an open session. */
  lemma SessionAfter(s: State, action: Action, session: SessionId)
    requires Consistent(s) && session in Step(s, action).0.sessions
    ensures session !in s.sessions ==>
              && action.Load? && Step(s, action).0.sessions[session].edits == []
    ensures session in s.sessions ==>
              && action != FlushAndCommit(session) && action != Abandon(session)
              && Step(s, action).0.sessions[session] ==
                   if action.Change? && action.session == session
                   then s.sessions[session].(edits := s.sessions[session].edits + [action.edit])
                   else s.sessions[session]
  {
    if session in s.sessions {
      assert SessionFits(s.rows, s.sessions[session]);
    }
  }

  lemma StaysPlaced(s: State, actions: seq<Action>, m: nat, session: SessionId,
                    before: Workspace.Task, after: Workspace.Task, r: nat)
    requires m < |actions| && PlacedAt(s, actions, m, session, before, r) && Place(after) == Place(before)
    requires actions[m] != FlushAndCommit(session) && actions[m] != Abandon(session)
    ensures PlacedAt(s, actions, m + 1, session, after, r)
  {}

  lemma MovePlaces(s: State, actions: seq<Action>, m: nat, session: SessionId, edited: Workspace.Task)
    requires m < |actions| && PositionIsRead(s, actions, m)
    requires actions[m] == Change(session, SetPlace(edited.status, edited.position))
    requires session in After(s, actions, m).sessions
    requires edited.project == After(s, actions, m).sessions[session].base.project
    ensures PlacedAt(s, actions, m + 1, session, edited, m)
  {}

  /** A move is placed by what it reads. */
  lemma MoveIsPlaced(s: State, actions: seq<Action>, m: nat, session: SessionId)
    requires m < |actions| && PositionIsRead(s, actions, m)
    requires actions[m].Change? && actions[m].session == session && actions[m].edit.SetPlace?
    requires session in After(s, actions, m).sessions && session in After(s, actions, m + 1).sessions
    requires var loaded := After(s, actions, m).sessions[session];
             After(s, actions, m + 1).sessions[session] == loaded.(edits := loaded.edits + [actions[m].edit])
    ensures SessionPlaced(s, actions, m + 1, session)
  {
    var loaded, edit := After(s, actions, m).sessions[session], actions[m].edit;
    EditAppended(loaded.base, loaded.edits, edit);
    EditsKeepIdentity(loaded.base, loaded.edits + [edit]);
    MovePlaces(s, actions, m, session, ApplyEdits(loaded.base, loaded.edits + [edit]));
  }

  lemma OtherEditsKeepPlace(base: Workspace.Task, edits: seq<Edit>, edit: Edit)
    requires !edit.SetPlace?
    ensures Place(ApplyEdits(base, edits + [edit])) == Place(ApplyEdits(base, edits))
  {
    EditAppended(base, edits, edit);
  }

  /** Any other change keeps the place. */
  lemma ChangeStaysPlaced(s: State, actions: seq<Action>, m: nat, session: SessionId)
    requires m < |actions| && actions[m].Change? && actions[m].session == session && !actions[m].edit.SetPlace?
    requires session in After(s, actions, m).sessions && SessionPlaced(s, actions, m, session)
    requires session in After(s, actions, m + 1).sessions
    requires var loaded := After(s, actions, m).sessions[session];
             After(s, actions, m + 1).sessions[session] == loaded.(edits := loaded.edits + [actions[m].edit])
    ensures SessionPlaced(s, actions, m + 1, session)
  {
    var loaded, edit := After(s, actions, m).sessions[session], actions[m].edit;
    var was, edited := ApplyEdits(loaded.base, loaded.edits), ApplyEdits(loaded.base, loaded.edits + [edit]);
    OtherEditsKeepPlace(loaded.base, loaded.edits, edit);
    if Place(was) != Place(loaded.base) {
      var r: nat :| PlacedAt(s, actions, m, session, was, r);
      StaysPlaced(s, actions, m, session, was, edited, r);
    }
  }

  /** An action of another session, or one that is no change. */
  lemma OtherStaysPlaced(s: State, actions: seq<Action>, m: nat, session: SessionId)
    requires m < |actions| && actions[m] != FlushAndCommit(session) && actions[m] != Abandon(session)
    requires session in After(s, actions, m).sessions && SessionPlaced(s, actions, m, session)
    requires session in After(s, actions, m + 1).sessions
    requires After(s, actions, m + 1).sessions[session] == After(s, actions, m).sessions[session]
    ensures SessionPlaced(s, actions, m + 1, session)
  {
    var loaded := After(s, actions, m).sessions[session];
    var edited := ApplyEdits(loaded.base, loaded.edits);
    if Place(edited) != Place(loaded.base) {
      var r: nat :| PlacedAt(s, actions, m, session, edited, r);
      StaysPlaced(s, actions, m, session, edited, edited, r);
    }
  }

  lemma SessionStaysPlaced(s: State, actions: seq<Action>, m: nat, session: SessionId)
    requires m < |actions| && AllPlaced(s, actions, m) && PositionIsRead(s, actions, m)
    requires session in After(s, actions, m + 1).sessions
    ensures SessionPlaced(s, actions, m + 1, session)
  {
    SessionAfter(After(s, actions, m), actions[m], session);
    if session in After(s, actions, m).sessions {
      if actions[m].Change? && actions[m].session == session && actions[m].edit.SetPlace? {
        MoveIsPlaced(s, actions, m, session);
      } else if actions[m].Change? && actions[m].session == session {
        ChangeStaysPlaced(s, actions, m, session);
      } else {
        OtherStaysPlaced(s, actions, m, session);
      }
    }
  }

  lemma StaysSettled(s: State, actions: seq<Action>, w: nat, m: nat, task: Id, place: (Id, Workspace.Status, real))
    requires m < |actions| && Settled(s, actions, w, m, task, place) && StandsAt(s, actions, m + 1, task, place)
    ensures Settled(s, actions, w, m + 1, task, place)
  {
    forall k | w < k <= m + 1 ensures StandsAt(s, actions, k, task, place) {
      assert k == m + 1 || k <= m;
    }
  }

  lemma StaysArrived(s: State, actions: seq<Action>, m: nat, task: Id, r: nat, w: nat)
    requires m < |actions| && ArrivedAt(s, actions, m, task, r, w)
    requires StandsAt(s, actions, m + 1, task, Place(After(s, actions, m).rows[task]))
    ensures ArrivedAt(s, actions, m + 1, task, r, w)
  {
    StaysSettled(s, actions, w, m, task, Place(After(s, actions, m).rows[task]));
  }

  lemma JustArrived(s: State, actions: seq<Action>, m: nat, task: Id, r: nat)
    requires r <= m < |actions| && task in After(s, actions, m + 1).rows
    requires ReadAt(s, actions, r, After(s, actions, m + 1).rows[task]) && Arrives(s, actions, r, m, task)
    ensures ArrivedAt(s, actions, m + 1, task, r, m)
  {
    var place := Place(After(s, actions, m + 1).rows[task]);
    forall k | m < k <= m + 1 ensures StandsAt(s, actions, k, task, place) {
      assert k == m + 1;
    }
    assert Settled(s, actions, m, m + 1, task, place);
  }

  /** A row that is new after an action was inserted by it, with the position it brought. */
  lemma NewRow(s: State, action: Action, task: Id)
    requires task in Step(s, action).0.rows && task !in s.rows
    ensures action.Insert? && action.task == task && Place(Step(s, action).0.rows[task]) == Place(action.row)
  {}

  /** A write to an existing row is the flush of a session that still sees that row. */
  lemma WrittenRow(s: State, action: Action, task: Id)
    requires Consistent(s) && task in s.rows
    ensures task in Step(s, action).0.rows
    ensures Step(s, action).0.rows[task] == s.rows[task]
            || (&& action.FlushAndCommit? && action.session in s.sessions
                && var loaded := s.sessions[action.session];
                   && loaded.task == task && loaded.base == s.rows[task]
                   && Place(Step(s, action).0.rows[task]) == Place(ApplyEdits(loaded.base, loaded.edits)))
  {
    StepIsSerial(s, action, task);
    if action.FlushAndCommit? && action.session in s.sessions {
      GuardDetectsChange(s, action.session);
    }
  }

  lemma InsertArrives(s: State, actions: seq<Action>, m: nat, task: Id)
    requires m < |actions| && PositionIsRead(s, actions, m)
    requires task in After(s, actions, m + 1).rows && task !in After(s, actions, m).rows
    ensures Arrived(s, actions, m + 1, task)
  {
    NewRow(After(s, actions, m), actions[m], task);
    var r: nat :| r <= m && ReadAt(s, actions, r, actions[m].row);
    JustArrived(s, actions, m, task, r);
  }

  lemma FlushArrives(s: State, actions: seq<Action>, m: nat, task: Id, session: SessionId,
                     edited: Workspace.Task, r: nat)
    requires m < |actions| && actions[m] == FlushAndCommit(session)
    requires session in After(s, actions, m).sessions && After(s, actions, m).sessions[session].task == task
    requires PlacedAt(s, actions, m, session, edited, r)
    requires task in After(s, actions, m + 1).rows && Place(After(s, actions, m + 1).rows[task]) == Place(edited)
    ensures Arrived(s, actions, m + 1, task)
  {
    JustArrived(s, actions, m, task, r);
  }

  lemma RowStaysArrived(s: State, actions: seq<Action>, m: nat, task: Id)
    requires m < |actions| && AllPlaced(s, actions, m) && PositionIsRead(s, actions, m)
    requires task in After(s, actions, m + 1).rows
    ensures Arrived(s, actions, m + 1, task)
  {
    var before, action := After(s, actions, m), actions[m];
    if task !in before.rows {
      InsertArrives(s, actions, m, task);
    } else {
      WrittenRow(before, action, task);
      var row := After(s, actions, m + 1).rows[task];
      assert Arrived(s, actions, m, task);
      var r: nat, w: nat :| ArrivedAt(s, actions, m, task, r, w);
      if Place(row) == Place(before.rows[task]) {
        StaysArrived(s, actions, m, task, r, w);
      } else {
        var loaded := before.sessions[action.session];
        var edited := ApplyEdits(loaded.base, loaded.edits);
        assert SessionPlaced(s, actions, m, action.session);
        var q: nat :| PlacedAt(s, actions, m, action.session, edited, q);
        FlushArrives(s, actions, m, task, action.session, edited, q);
      }
    }
  }

  // ---- Whole runs ----------------------------------------------------------------------------

  /** In any interleaving every row stands where some session read a position for it. */
  lemma {:induction false} EveryPositionWasRead(s: State, actions: seq<Action>, n: nat)
    requires IsEmpty(s) && NoExplicitPositions(s, actions) && n <= |actions|
    ensures AllPlaced(s, actions, n)
  {
    if n == 0 {
    } else {
      var m := n - 1;
      EveryPositionWasRead(s, actions, m);
      RunStaysConsistent(s, actions, n);
      assert PositionIsRead(s, actions, m);
      forall task | task in After(s, actions, n).rows ensures Arrived(s, actions, n, task) {
        RowStaysArrived(s, actions, m, task);
      }
      forall session | session in After(s, actions, n).sessions ensures SessionPlaced(s, actions, n, session) {
        SessionStaysPlaced(s, actions, m, session);
      }
    }
  }

  lemma LiveStaysLive(s: State, actions: seq<Action>, k: nat, n: nat, task: Id)
    requires Consistent(s) && k <= n <= |actions| && task in After(s, actions, k).rows
    requires Workspace.LiveTask(After(s, actions, n).rows, task)
    ensures Workspace.LiveTask(After(s, actions, k).rows, task)
  {
    if After(s, actions, k).rows[task].deletedAt.Some? {
      DeletedRowIsFrozen(s, actions, k, n, task);
    }
  }

  /** Of two tasks of a column, one whose arrival was committed before the other read stands in front. */
  lemma EarlierArrivalStandsFirst(s: State, actions: seq<Action>, n: nat, project: Id, status: Workspace.Status,
                                  a: Id, b: Id, ra: nat, wa: nat, rb: nat, wb: nat)
    requires Consistent(s) && n <= |actions| && wa < rb
    requires ArrivedAt(s, actions, n, a, ra, wa) && ArrivedAt(s, actions, n, b, rb, wb)
    requires Workspace.InColumn(After(s, actions, n).rows, a, project, status)
    requires Workspace.InColumn(After(s, actions, n).rows, b, project, status)
    ensures After(s, actions, n).rows[a].position + Workspace.POSITION_STEP <= After(s, actions, n).rows[b].position
  {
    var rows := After(s, actions, rb).rows;
    assert StandsAt(s, actions, rb, a, Place(After(s, actions, n).rows[a]));
    LiveStaysLive(s, actions, rb, n, a);
    Board.NextPositionIsMaxPlusStep(rows, project, status);
    assert Workspace.InColumn(rows, a, project, status);
  }

  predicate Overlap(s: State, actions: seq<Action>, n: nat, a: Id, b: Id, ra: nat, wa: nat, rb: nat, wb: nat)
    requires n <= |actions|
  {
    ArrivedAt(s, actions, n, a, ra, wa) && ArrivedAt(s, actions, n, b, rb, wb) && ra <= wb && rb <= wa
  }

  /** Two tasks of a column share a position only if each was read for before the other was committed. */
  lemma SharedPositionsOverlap(s: State, actions: seq<Action>, n: nat, project: Id, status: Workspace.Status,
                               a: Id, b: Id)
    requires IsEmpty(s) && NoExplicitPositions(s, actions) && n <= |actions|
    requires Workspace.InColumn(After(s, actions, n).rows, a, project, status)
    requires Workspace.InColumn(After(s, actions, n).rows, b, project, status)
    requires After(s, actions, n).rows[a].position == After(s, actions, n).rows[b].position
    ensures exists ra: nat, wa: nat, rb: nat, wb: nat :: Overlap(s, actions, n, a, b, ra, wa, rb, wb)
  {
    EveryPositionWasRead(s, actions, n);
    assert Arrived(s, actions, n, a) && Arrived(s, actions, n, b);
    var ra: nat, wa: nat :| ArrivedAt(s, actions, n, a, ra, wa);
    var rb: nat, wb: nat :| ArrivedAt(s, actions, n, b, rb, wb);
    if wa < rb {
      EarlierArrivalStandsFirst(s, actions, n, project, status, a, b, ra, wa, rb, wb);
    }
    if wb < ra {
      EarlierArrivalStandsFirst(s, actions, n, project, status, b, a, rb, wb, ra, wa);
    }
    assert Overlap(s, actions, n, a, b, ra, wa, rb, wb);
  }

  ghost predicate LiveMultiples(rows: Workspace.Tasks) {
    forall task | Workspace.LiveTask(rows, task) :: Board.StepMultiple(rows[task].position)
  }

  lemma NextIsMultiple(rows: Workspace.Tasks, project: Id, status: Workspace.Status)
    requires LiveMultiples(rows)
    ensures Board.StepMultiple(Workspace.NextPosition(rows, project, status))
  {
    Board.NextPositionIsMaxPlusStep(rows, project, status);
    if task :| Workspace.InColumn(rows, task, project, status)
               && Workspace.NextPosition(rows, project, status) == rows[task].position + Workspace.POSITION_STEP {
      var k: nat :| Board.IsMultiple(rows[task].position, k);
      assert Board.IsMultiple(Workspace.NextPosition(rows, project, status), k + 1);
    } else {
      assert Board.IsMultiple(Workspace.NextPosition(rows, project, status), 1);
    }
  }

  /** In any interleaving without explicit positions, live positions are positive multiples of the step. */
  lemma {:induction false} PositionsAreMultiples(s: State, actions: seq<Action>, n: nat)
    requires IsEmpty(s) && NoExplicitPositions(s, actions) && n <= |actions|
    ensures LiveMultiples(After(s, actions, n).rows)
  {
    EveryPositionWasRead(s, actions, n);
    var rows := After(s, actions, n).rows;
    forall task | Workspace.LiveTask(rows, task) ensures Board.StepMultiple(rows[task].position) {
      assert Arrived(s, actions, n, task);
      var r: nat, w: nat :| ArrivedAt(s, actions, n, task, r, w);
      PositionsAreMultiples(s, actions, r);
      NextIsMultiple(After(s, actions, r).rows, rows[task].project, rows[task].status);
    }
  }

  // ---- A shared position ---------------------------------------------------------------------

  const NOTHING: State := State(map[], map[], multiset{})

  const CARD: Workspace.Task :=
    Workspace.Task(0, "t", Workspace.Todo, Workspace.Low, None, None, Workspace.POSITION_STEP, 1, 1, None)

  /** Two creations that both read the empty column before either commits. */
  const TWO_AT_ONCE: seq<Action> := [Insert(1, 10, CARD), Insert(1, 11, CARD)]

  /** Such positions do occur: no guard keeps two creations from reading the same maximum. */
  lemma OverlapSharesPosition()
    ensures IsEmpty(NOTHING) && NoExplicitPositions(NOTHING, TWO_AT_ONCE)
    ensures var rows := After(NOTHING, TWO_AT_ONCE, 2).rows;
            && Workspace.InColumn(rows, 10, 0, Workspace.Todo) && Workspace.InColumn(rows, 11, 0, Workspace.Todo)
            && rows[10].position == rows[11].position
  {
    Board.NextPositionIsMaxPlusStep(map[], 0, Workspace.Todo);
    assert ReadAt(NOTHING, TWO_AT_ONCE, 0, CARD);
    forall k | 0 <= k < 2 ensures PositionIsRead(NOTHING, TWO_AT_ONCE, k) {
      assert ReadBefore(NOTHING, TWO_AT_ONCE, k, CARD);
    }
  }
}
