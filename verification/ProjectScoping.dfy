/** The membership-scoped project list against the per-project access policy. */
module ProjectScoping {
  import opened Common
  import opened Workspace
  import opened Board
  import Accounts

  // ---- The policy --------------------------------------------------------------------------

  predicate RoleRow(members: map<Id, Member>, id: Id, project: Id, user: Id, role: MemberRole) {
    MemberRow(members, id, project, user) && members[id].role == role
  }

  /** The role of the membership `get_member` finds. */
  predicate HasRole(members: map<Id, Member>, project: Id, user: Id, role: MemberRole) {
    exists id | id in members :: RoleRow(members, id, project, user, role)
  }

  /** `ProjectAccessPolicy.__call__`: Ok, or why the project may not be opened. */
  function Access(store: Store, actor: Id, project: Id, minimum: Option<MemberRole>): Response
    requires actor in store.users
  {
    if !LiveProject(store, project) then Failed(NotFound)
    else if IsAdmin(store, actor) then Ok
    else if !IsMember(store.members, project, actor) then Failed(Forbidden)
    else if minimum == Some(Lead) && !HasRole(store.members, project, actor, Lead) then Failed(Forbidden)
    else Ok
  }

  // ---- The list ----------------------------------------------------------------------------

  /** One row of `list_query`: a project, joined to a membership when the query is scoped. */
  datatype Row = Row(project: Id, member: Option<Id>)

  /** The rows of the query: all live projects for an admin, one per own membership otherwise. */
  function QueryRows(store: Store, actor: Id): set<Row>
    requires actor in store.users
  {
    if IsAdmin(store, actor) then set p | p in store.projects && LiveProject(store, p) :: Row(p, None)
    else
      set m | m in store.members && store.members[m].user == actor && LiveProject(store, store.members[m].project) ::
        Row(store.members[m].project, Some(m))
  }

  /** Any order a database may return the rows in: newest first, ties left open, each row once. */
  ghost predicate IsResult(store: Store, rows: seq<Row>, expected: set<Row>) {
    && (forall r :: r in rows <==> r in expected)
    && (forall i, j | 0 <= i < j < |rows| :: rows[i] != rows[j])
    && (forall i, j | 0 <= i < j < |rows| && rows[i].project in store.projects && rows[j].project in store.projects ::
          store.projects[rows[i].project].createdAt >= store.projects[rows[j].project].createdAt)
  }

  predicate Listed(rows: seq<Row>, project: Id) {
    exists i :: 0 <= i < |rows| && rows[i].project == project
  }

  lemma LatestRow(store: Store, rows: set<Row>) returns (latest: Row)
    requires rows != {} && forall r | r in rows :: r.project in store.projects
    ensures latest in rows
    ensures forall r | r in rows :: store.projects[r.project].createdAt <= store.projects[latest.project].createdAt
  {
    var row :| row in rows;
    if rows == {row} {
      latest := row;
    } else {
      latest := LatestRow(store, rows - {row});
      assert forall r | r in rows :: r == row || r in rows - {row};
      if store.projects[latest.project].createdAt < store.projects[row.project].createdAt {
        latest := row;
      }
    }
  }

  /** Any set of project rows can be listed newest first. */
  lemma {:induction false} ResultExists(store: Store, expected: set<Row>) returns (rows: seq<Row>)
    requires forall r | r in expected :: r.project in store.projects
    ensures IsResult(store, rows, expected)
  {
    if expected == {} {
      rows := [];
    } else {
      var latest := LatestRow(store, expected);
      var rest := ResultExists(store, expected - {latest});
      rows := [latest] + rest;
      assert forall i | 0 <= i < |rest| :: rest[i] in rest && rest[i] in expected - {latest};
    }
  }

  lemma ListedIfAdmitted(store: Store, actor: Id, project: Id)
    requires actor in store.users && Access(store, actor, project, None) == Ok
    ensures exists r :: r in QueryRows(store, actor) && r.project == project
  {
    if IsAdmin(store, actor) {
      assert Row(project, None) in QueryRows(store, actor);
    } else {
      var m :| m in store.members && MemberRow(store.members, m, project, actor);
      assert Row(project, Some(m)) in QueryRows(store, actor);
    }
  }

  /** The unsearched list shows a project once if the policy would admit the actor, and never otherwise. */
  lemma ListAgreesWithPolicy(s: State, actor: Id, rows: seq<Row>)
    requires Reachable(s) && actor in s.store.users && IsResult(s.store, rows, QueryRows(s.store, actor))
    ensures forall i, j | 0 <= i < j < |rows| :: rows[i].project != rows[j].project
    ensures forall project :: Listed(rows, project) <==> Access(s.store, actor, project, None) == Ok
    ensures IsAdmin(s.store, actor) ==> forall project :: Listed(rows, project) <==> LiveProject(s.store, project)
  {
    var expected := QueryRows(s.store, actor);
    forall i, j | 0 <= i < j < |rows| ensures rows[i].project != rows[j].project {
      assert rows[i] in expected && rows[j] in expected;
    }
    forall project ensures Listed(rows, project) <==> Access(s.store, actor, project, None) == Ok {
      if Listed(rows, project) {
        var i :| 0 <= i < |rows| && rows[i].project == project;
        assert rows[i] in expected;
        if !IsAdmin(s.store, actor) {
          assert MemberRow(s.store.members, rows[i].member.value, project, actor);
        }
      }
      if Access(s.store, actor, project, None) == Ok {
        ListedIfAdmitted(s.store, actor, project);
        var r :| r in expected && r.project == project;
        assert r in rows;
      }
    }
    assert IsAdmin(s.store, actor) ==>
        forall project :: Access(s.store, actor, project, None) == Ok <==> LiveProject(s.store, project);
  }

  /** The same after any run of requests, from a new installation or from any other reachable store. */
  lemma ListAgreesInEveryRun(s: State, run: seq<Request>, n: nat, actor: Id, rows: seq<Row>)
    requires Reachable(s) && n <= |run|
    requires actor in After(s, run, n).store.users
    requires IsResult(After(s, run, n).store, rows, QueryRows(After(s, run, n).store, actor))
    ensures MembersUnique(After(s, run, n).store.members)
    ensures forall i, j | 0 <= i < j < |rows| :: rows[i].project != rows[j].project
    ensures forall project :: Listed(rows, project) <==> Access(After(s, run, n).store, actor, project, None) == Ok
    ensures IsAdmin(After(s, run, n).store, actor) ==>
              forall project :: Listed(rows, project) <==> LiveProject(After(s, run, n).store, project)
  {
    RunStaysReachable(s, run, n);
    ListAgreesWithPolicy(After(s, run, n), actor, rows);
  }

  /** Whatever the tables hold, the query has an answer of the kind the two lemmas above speak of. */
  lemma ListExists(store: Store, actor: Id) returns (rows: seq<Row>)
    requires actor in store.users
    ensures IsResult(store, rows, QueryRows(store, actor))
  {
    rows := ResultExists(store, QueryRows(store, actor));
  }

  /** Two memberships of `actor` in one live project. */
  predicate TwiceMember(store: Store, actor: Id, a: Id, b: Id) {
    && a in store.members && b in store.members && a != b
    && store.members[a].user == actor && store.members[b].user == actor
    && store.members[a].project == store.members[b].project && LiveProject(store, store.members[a].project)
  }

  /** Without unique memberships the join would repeat a project: exactly then the list does. */
  lemma DuplicatesIff(store: Store, actor: Id, rows: seq<Row>)
    requires actor in store.users && !IsAdmin(store, actor) && IsResult(store, rows, QueryRows(store, actor))
    ensures (exists i, j :: 0 <= i < j < |rows| && rows[i].project == rows[j].project)
            <==> exists a, b :: TwiceMember(store, actor, a, b)
  {
    if i, j :| 0 <= i < j < |rows| && rows[i].project == rows[j].project {
      assert rows[i] in QueryRows(store, actor) && rows[j] in QueryRows(store, actor);
      assert TwiceMember(store, actor, rows[i].member.value, rows[j].member.value);
    }
    if a, b :| TwiceMember(store, actor, a, b) {
      var ra, rb := Row(store.members[a].project, Some(a)), Row(store.members[b].project, Some(b));
      assert ra in rows && rb in rows;
      var i :| 0 <= i < |rows| && rows[i] == ra;
      var j :| 0 <= j < |rows| && rows[j] == rb;
      assert rows[i].project == rows[j].project && i != j;
    }
  }

  // ---- Membership ------------------------------------------------------------------------------

  predicate Adds(s: State, request: Request, project: Id, user: Id) {
    request.AddMember? && request.project == project && request.user == user && Step(s, request).1.Created?
  }

  predicate Removes(s: State, request: Request, project: Id, user: Id) {
    request.RemoveMember? && request.project == project && request.user == user && Step(s, request).1 == Ok
  }

  lemma MembersKept(s: State, request: Request)
    requires (!request.AddMember? && !request.RemoveMember?) || Step(s, request).1.Failed?
    ensures Step(s, request).0.store.members == s.store.members
  {}

  lemma OneMemberMore(members: map<Id, Member>, id: Id, member: Member, project: Id, user: Id, role: MemberRole)
    requires id !in members
    ensures HasRole(members[id := member], project, user, role)
            <==> HasRole(members, project, user, role) || member == Member(project, user, role)
  {
    var after := members[id := member];
    if m :| m in members && RoleRow(members, m, project, user, role) {
      assert RoleRow(after, m, project, user, role);
    }
    if m :| m in after && RoleRow(after, m, project, user, role) {
      assert m != id ==> RoleRow(members, m, project, user, role);
    }
    assert RoleRow(after, id, member.project, member.user, member.role);
  }

  lemma OneMemberLess(members: map<Id, Member>, removed: Id, from: Id, project: Id, user: Id, role: MemberRole)
    ensures HasRole(WithoutMember(members, from, removed), project, user, role)
            <==> HasRole(members, project, user, role) && !(from == project && removed == user)
  {
    var after := WithoutMember(members, from, removed);
    if m :| m in members && RoleRow(members, m, project, user, role) {
      assert !(from == project && removed == user) ==> RoleRow(after, m, project, user, role);
    }
    if m :| m in after && RoleRow(after, m, project, user, role) {
      assert RoleRow(members, m, project, user, role);
    }
  }

  /** An account has a role after a request exactly if it was added with it, or had it and was not removed. */
  lemma RoleFollows(s: State, request: Request, project: Id, user: Id, role: MemberRole)
    requires Reachable(s)
    ensures HasRole(Step(s, request).0.store.members, project, user, role) <==>
              (Adds(s, request, project, user) && request.role == role)
              || (HasRole(s.store.members, project, user, role) && !Removes(s, request, project, user))
  {
    var after := Step(s, request).0.store.members;
    if (!request.AddMember? && !request.RemoveMember?) || Step(s, request).1.Failed? {
      MembersKept(s, request);
    } else if request.AddMember? {
      var member := Member(request.project, request.user, request.role);
      OneMemberMore(s.store.members, s.supply, member, project, user, role);
      assert after == s.store.members[s.supply := member];
    } else {
      OneMemberLess(s.store.members, request.user, request.project, project, user, role);
      assert after == WithoutMember(s.store.members, request.project, request.user);
    }
  }

  /** The membership of `user` that request `i` of a run granted still stands after `n` requests. */
  predicate Granted(s: State, run: seq<Request>, i: nat, n: nat, project: Id, user: Id)
    requires n <= |run|
  {
    && i < n && Adds(After(s, run, i), run[i], project, user)
    && forall k | i < k < n :: !Removes(After(s, run, k), run[k], project, user)
  }

  predicate RoleGranted(s: State, run: seq<Request>, i: nat, n: nat, project: Id, user: Id, role: MemberRole)
    requires n <= |run|
  {
    Granted(s, run, i, n, project, user) && run[i].role == role
  }

  ghost predicate StandingGrant(s: State, run: seq<Request>, n: nat, project: Id, user: Id, role: MemberRole)
    requires n <= |run|
  {
    exists i: nat :: RoleGranted(s, run, i, n, project, user, role)
  }

  /** One more request: an earlier grant stands on unless that request takes it back. */
  lemma GrantStandsOn(s: State, run: seq<Request>, i: nat, m: nat, project: Id, user: Id)
    requires i < m < |run|
    ensures Granted(s, run, i, m + 1, project, user)
            <==> Granted(s, run, i, m, project, user) && !Removes(After(s, run, m), run[m], project, user)
  {}

  lemma GrantIsNew(s: State, run: seq<Request>, m: nat, project: Id, user: Id)
    requires m < |run|
    ensures Granted(s, run, m, m + 1, project, user) <==> Adds(After(s, run, m), run[m], project, user)
  {}

  lemma GrantFollows(s: State, run: seq<Request>, m: nat, project: Id, user: Id, role: MemberRole)
    requires m < |run|
    ensures StandingGrant(s, run, m + 1, project, user, role) <==>
              (Adds(After(s, run, m), run[m], project, user) && run[m].role == role)
              || (StandingGrant(s, run, m, project, user, role) && !Removes(After(s, run, m), run[m], project, user))
  {
    GrantIsNew(s, run, m, project, user);
    if StandingGrant(s, run, m + 1, project, user, role) {
      var i: nat :| RoleGranted(s, run, i, m + 1, project, user, role);
      if i < m {
        GrantStandsOn(s, run, i, m, project, user);
        assert RoleGranted(s, run, i, m, project, user, role);
      }
    }
    if Adds(After(s, run, m), run[m], project, user) && run[m].role == role {
      assert RoleGranted(s, run, m, m + 1, project, user, role);
    }
    if StandingGrant(s, run, m, project, user, role) && !Removes(After(s, run, m), run[m], project, user) {
      var i: nat :| RoleGranted(s, run, i, m, project, user, role);
      GrantStandsOn(s, run, i, m, project, user);
      assert RoleGranted(s, run, i, m + 1, project, user, role);
    }
  }

  /** Over a whole run, a role is held exactly by grants that were not taken back. */
  lemma {:induction false} RoleIsGranted(s: State, run: seq<Request>, n: nat, project: Id, user: Id, role: MemberRole)
    requires Reachable(s) && s.store.members == map[] && n <= |run|
    ensures HasRole(After(s, run, n).store.members, project, user, role)
            <==> StandingGrant(s, run, n, project, user, role)
  {
    if n == 0 {
    } else {
      RoleIsGranted(s, run, n - 1, project, user, role);
      RunStaysReachable(s, run, n - 1);
      RoleFollows(After(s, run, n - 1), run[n - 1], project, user, role);
      GrantFollows(s, run, n - 1, project, user, role);
    }
  }

  lemma MemberHasRole(members: map<Id, Member>, project: Id, user: Id)
    ensures IsMember(members, project, user)
            <==> HasRole(members, project, user, Lead) || HasRole(members, project, user, Contributor)
  {
    if m :| m in members && MemberRow(members, m, project, user) {
      assert RoleRow(members, m, project, user, members[m].role);
    }
    forall m, role | m in members && RoleRow(members, m, project, user, role)
      ensures IsMember(members, project, user)
    {
      assert MemberRow(members, m, project, user);
    }
  }

  /** An account is a member after a request exactly if it was added, or was one and was not removed. */
  lemma MembershipFollows(s: State, request: Request, project: Id, user: Id)
    requires Reachable(s)
    ensures IsMember(Step(s, request).0.store.members, project, user) <==>
              Adds(s, request, project, user)
              || (IsMember(s.store.members, project, user) && !Removes(s, request, project, user))
  {
    MemberHasRole(s.store.members, project, user);
    MemberHasRole(Step(s, request).0.store.members, project, user);
    RoleFollows(s, request, project, user, Lead);
    RoleFollows(s, request, project, user, Contributor);
  }

  lemma AddsNeedsAdmin(s: State, request: Request, project: Id, user: Id)
    requires Adds(s, request, project, user)
    ensures request.actor in s.store.users && IsAdmin(s.store, request.actor)
  {}

  /**
   From a new installation on, the policy admits to a live project its administrators and exactly the
   accounts with a standing grant of a sufficient role; and administrators made every grant.
   */
  lemma AccessIsGranted(s: State, run: seq<Request>, n: nat, actor: Id, project: Id, minimum: Option<MemberRole>)
    requires Reachable(s) && s.store.members == map[] && n <= |run|
    requires actor in After(s, run, n).store.users
    ensures Access(After(s, run, n).store, actor, project, minimum) == Ok <==>
              LiveProject(After(s, run, n).store, project)
              && (|| IsAdmin(After(s, run, n).store, actor)
                  || StandingGrant(s, run, n, project, actor, Lead)
                  || (minimum != Some(Lead) && StandingGrant(s, run, n, project, actor, Contributor)))
    ensures Access(After(s, run, n).store, actor, project, minimum) == Failed(NotFound)
            <==> !LiveProject(After(s, run, n).store, project)
    ensures !Access(After(s, run, n).store, actor, project, minimum).Failed?
            || Access(After(s, run, n).store, actor, project, minimum).error in {NotFound, Forbidden}
    ensures forall i: nat | Granted(s, run, i, n, project, actor) ::
              run[i].actor in After(s, run, i).store.users && IsAdmin(After(s, run, i).store, run[i].actor)
  {
    RoleIsGranted(s, run, n, project, actor, Lead);
    RoleIsGranted(s, run, n, project, actor, Contributor);
    MemberHasRole(After(s, run, n).store.members, project, actor);
    forall i: nat | Granted(s, run, i, n, project, actor)
      ensures run[i].actor in After(s, run, i).store.users && IsAdmin(After(s, run, i).store, run[i].actor)
    {
      AddsNeedsAdmin(After(s, run, i), run[i], project, actor);
    }
  }

  // ---- Tasks of a deleted project --------------------------------------------------------------

  /**
   The access check of a task asks for membership but not for a live project, so it admits whom the
   project policy admits, and besides the members and administrators of a deleted project.
   */
  lemma TaskAccessIff(store: Store, actor: Id, task: Id)
    requires actor in store.users && LiveTask(store.tasks, task)
    ensures var project := store.tasks[task].project;
            TaskAccess(store, actor, task) == Ok <==>
              || Access(store, actor, project, None) == Ok
              || (!LiveProject(store, project) && (IsAdmin(store, actor) || IsMember(store.members, project, actor)))
  {}

  /** The policy and the task check agree on a task exactly if its project is live or both refuse. */
  lemma TaskAccessAgreesIff(store: Store, actor: Id, task: Id)
    requires actor in store.users && LiveTask(store.tasks, task)
    ensures var project := store.tasks[task].project;
            (TaskAccess(store, actor, task) == Ok <==> Access(store, actor, project, None) == Ok) <==>
              LiveProject(store, project) || (!IsAdmin(store, actor) && !IsMember(store.members, project, actor))
  {}

  /** A member of project 0 creates a task in it, and then the project is deleted. */
  const PROJECT_DELETED: seq<Request> := [
    PutUser(1, Account("a", "Ann", Accounts.Admin)),
    PutUser(2, Account("b", "Bob", Accounts.Employee)),
    CreateProject(1, "p"),
    AddMember(1, 0, 2, Contributor),
    CreateTask(2, TaskDraft(0, "t", Todo, Low, None, None)),
    DeleteProject(1, 0)
  ]

  lemma BobHasTask()
    ensures var s := After(EMPTY, PROJECT_DELETED, 5);
            && s.store.users == map[1 := Account("a", "Ann", Accounts.Admin),
                                    2 := Account("b", "Bob", Accounts.Employee)]
            && LiveTask(s.store.tasks, 3) && s.store.tasks[3].project == 0
            && LiveProject(s.store, 0) && IsMember(s.store.members, 0, 2)
  {
    var s2 := After(EMPTY, PROJECT_DELETED, 2);
    var s3 := After(EMPTY, PROJECT_DELETED, 3);
    assert s3 == s2.(store := s2.store.(projects := map[0 := Project("p", 1, 0, None)]), supply := 1);
    var s4 := After(EMPTY, PROJECT_DELETED, 4);
    assert s4.supply == 3 && s4.store.projects == s3.store.projects && s4.store.users == s3.store.users;
    assert MemberRow(s4.store.members, 1, 0, 2);
    var s5 := After(EMPTY, PROJECT_DELETED, 5);
    assert s5.store.members == s4.store.members && 3 in s5.store.tasks;
  }

  lemma BobStaysMember()
    ensures var s := After(EMPTY, PROJECT_DELETED, 6);
            && s.store.users == map[1 := Account("a", "Ann", Accounts.Admin),
                                    2 := Account("b", "Bob", Accounts.Employee)]
            && LiveTask(s.store.tasks, 3) && s.store.tasks[3].project == 0
            && !LiveProject(s.store, 0) && IsMember(s.store.members, 0, 2)
  {
    BobHasTask();
    var s5, s := After(EMPTY, PROJECT_DELETED, 5), After(EMPTY, PROJECT_DELETED, 6);
    assert s == Step(s5, DeleteProject(1, 0)).0;
    assert s.store == s5.store.(projects := s.store.projects);
  }

  lemma MembersKeepTasks(s: State, actor: Id, task: Id, status: Status, position: Option<real>)
    requires Accounts.Usable(s.store.users, actor) && LiveTask(s.store.tasks, task)
    requires !LiveProject(s.store, s.store.tasks[task].project)
    requires IsMember(s.store.members, s.store.tasks[task].project, actor)
    ensures Access(s.store, actor, s.store.tasks[task].project, None) == Failed(NotFound)
    ensures Step(s, MoveTask(actor, task, status, position)).1 == Ok
  {}

  /** The member may no longer open the project, yet may still move its task. */
  lemma DeletedProjectStaysWritable(status: Status, position: Option<real>)
    ensures var s := After(EMPTY, PROJECT_DELETED, 6);
            && 2 in s.store.users && Access(s.store, 2, 0, None) == Failed(NotFound)
            && Step(s, MoveTask(2, 3, status, position)).1 == Ok
  {
    BobStaysMember();
    var s := After(EMPTY, PROJECT_DELETED, 6);
    MembersKeepTasks(s, 2, 3, status, position);
  }
}
