/** The analytics read model (app/modules/analytics) against the board. */
module Analytics {
  import opened Common
  import opened Ordering
  import opened Workspace
  import opened Board
  import Accounts

  // ---- Counts --------------------------------------------------------------------------------

  /** The live tasks a query ranges over: of one project, or of all. */
  function InScope(tasks: Tasks, scope: Option<Id>): set<Id> {
    set task | task in tasks && LiveTask(tasks, task) && (scope.Some? ==> tasks[task].project == scope.value)
  }

  function CountTasks(tasks: Tasks, scope: Option<Id>): nat {
    |InScope(tasks, scope)|
  }

  function HavingStatus(tasks: Tasks, scope: Option<Id>, status: Status): set<Id> {
    set task | task in InScope(tasks, scope) && tasks[task].status == status
  }

  function HavingPriority(tasks: Tasks, scope: Option<Id>, priority: Priority): set<Id> {
    set task | task in InScope(tasks, scope) && tasks[task].priority == priority
  }

  /** GROUP BY returns no row for a status nobody has. */
  function GroupByStatus(tasks: Tasks, scope: Option<Id>): map<Status, nat> {
    map status | status in {Todo, InProgress, InReview, Done} && HavingStatus(tasks, scope, status) != {} ::
      |HavingStatus(tasks, scope, status)|
  }

  function GroupByPriority(tasks: Tasks, scope: Option<Id>): map<Priority, nat> {
    map priority | priority in {Low, Medium, High, Urgent} && HavingPriority(tasks, scope, priority) != {} ::
      |HavingPriority(tasks, scope, priority)|
  }

  /** A zero for every status, then the rows of the query on top. */
  method TasksByStatus(tasks: Tasks, scope: Option<Id>) returns (counts: map<Status, nat>)
    ensures forall status: Status :: status in counts && counts[status] == |HavingStatus(tasks, scope, status)|
  {
    counts := map[Todo := 0, InProgress := 0, InReview := 0, Done := 0];
    counts := counts + GroupByStatus(tasks, scope);
    forall status: Status ensures status in counts && counts[status] == |HavingStatus(tasks, scope, status)| {
      match status
      case Todo =>
      case InProgress =>
      case InReview =>
      case Done =>
    }
  }

  method TasksByPriority(tasks: Tasks, scope: Option<Id>) returns (counts: map<Priority, nat>)
    ensures forall priority: Priority ::
              priority in counts && counts[priority] == |HavingPriority(tasks, scope, priority)|
  {
    counts := map[Low := 0, Medium := 0, High := 0, Urgent := 0];
    counts := counts + GroupByPriority(tasks, scope);
    forall priority: Priority
      ensures priority in counts && counts[priority] == |HavingPriority(tasks, scope, priority)|
    {
      match priority
      case Low =>
      case Medium =>
      case High =>
      case Urgent =>
    }
  }

  function Overdue(tasks: Tasks, scope: Option<Id>, today: int): set<Id> {
    set task | task in InScope(tasks, scope) && tasks[task].dueDate.Some? && tasks[task].dueDate.value < today
               && tasks[task].status != Done
  }

  /** The rows `upcoming_deadlines` lists the first of. */
  function Upcoming(tasks: Tasks, today: int): set<Id> {
    set task | task in InScope(tasks, None) && tasks[task].dueDate.Some? && tasks[task].dueDate.value >= today
               && tasks[task].status != Done
  }

  // ---- Agreement with the board ------------------------------------------------------------------

  lemma FourWaySplit(all: set<Id>, a: set<Id>, b: set<Id>, c: set<Id>, d: set<Id>)
    requires forall x :: x in all <==> x in a || x in b || x in c || x in d
    requires a !! b !! c !! d
    ensures |all| == |a| + |b| + |c| + |d|
  {
    assert |a + b| == |a| + |b|;
    assert |a + b + c| == |a + b| + |c|;
    assert all == a + b + c + d;
  }

  /** Status counts add up to the total. */
  lemma StatusCountsAddUp(tasks: Tasks, scope: Option<Id>)
    ensures |HavingStatus(tasks, scope, Todo)| + |HavingStatus(tasks, scope, InProgress)|
            + |HavingStatus(tasks, scope, InReview)| + |HavingStatus(tasks, scope, Done)| == CountTasks(tasks, scope)
  {
    var todo, doing := HavingStatus(tasks, scope, Todo), HavingStatus(tasks, scope, InProgress);
    var review, done := HavingStatus(tasks, scope, InReview), HavingStatus(tasks, scope, Done);
    forall task
      ensures task in InScope(tasks, scope) <==> task in todo || task in doing || task in review || task in done
    {}
    FourWaySplit(InScope(tasks, scope), todo, doing, review, done);
  }

  /** Priority counts add up to the total. */
  lemma PriorityCountsAddUp(tasks: Tasks, scope: Option<Id>)
    ensures |HavingPriority(tasks, scope, Low)| + |HavingPriority(tasks, scope, Medium)|
            + |HavingPriority(tasks, scope, High)| + |HavingPriority(tasks, scope, Urgent)| == CountTasks(tasks, scope)
  {
    var low, medium := HavingPriority(tasks, scope, Low), HavingPriority(tasks, scope, Medium);
    var high, urgent := HavingPriority(tasks, scope, High), HavingPriority(tasks, scope, Urgent);
    forall task
      ensures task in InScope(tasks, scope) <==> task in low || task in medium || task in high || task in urgent
    {}
    FourWaySplit(InScope(tasks, scope), low, medium, high, urgent);
  }

  lemma TailOfSort(entries: set<Entry>)
    requires entries != {}
    ensures Sort(entries) != [] && Sort(entries)[0] in entries
    ensures Sort(entries - {Sort(entries)[0]}) == Sort(entries)[1..]
  {
    var s := Sort(entries);
    NoElements(s);
    assert s[0] in Elements(s);
    forall e ensures e in Elements(s[1..]) <==> e in entries - {s[0]} {
      assert e in s <==> e in Elements(s);
      assert e in s <==> e == s[0] || e in s[1..];
    }
    SortIs(s[1..], entries - {s[0]});
  }

  lemma {:induction false} SortSize(entries: set<Entry>)
    ensures |Sort(entries)| == |entries|
  {
    if entries == {} {
    } else {
      LeastExists(entries);
      var s := Sort(entries);
      assert s[0] in Elements(s);
      var rest := entries - {s[0]};
      SortSize(rest);
      TailOfSort(entries);
    }
  }

  lemma {:induction false} SameSize(tasks: Tasks, ids: set<Id>, keys: set<Entry>)
    requires forall id | id in ids :: id in tasks
    requires forall e :: e in keys <==> e.id in ids && e == Entry(0, tasks[e.id].position, e.id)
    ensures |ids| == |keys|
  {
    if ids == {} {
      assert forall e :: e !in keys;
      assert keys == {};
    } else {
      var id :| id in ids;
      var e := Entry(0, tasks[id].position, id);
      SameSize(tasks, ids - {id}, keys - {e});
      assert |ids| == |ids - {id}| + 1 && |keys| == |keys - {e}| + 1;
    }
  }

  /** Each status count is the length of that kanban column. */
  lemma CountIsColumnLength(tasks: Tasks, project: Id, status: Status)
    ensures |HavingStatus(tasks, Some(project), status)| == |Column(tasks, project, status)|
  {
    var keys := ColumnKeys(tasks, project, status);
    var ids := HavingStatus(tasks, Some(project), status);
    SortSize(keys);
    SameSize(tasks, ids, keys);
  }

  lemma SubsetSize<T>(a: set<T>, b: set<T>)
    requires a <= b
    ensures |a| <= |b|
  {
    assert b == a + (b - a);
  }

  /** A task is not overdue once it is done, nor both overdue and upcoming on one day. */
  lemma OverdueBounds(tasks: Tasks, scope: Option<Id>, today: int)
    ensures |Overdue(tasks, scope, today)| + |HavingStatus(tasks, scope, Done)| <= CountTasks(tasks, scope)
    ensures Overdue(tasks, None, today) !! Upcoming(tasks, today)
  {
    var overdue, done := Overdue(tasks, scope, today), HavingStatus(tasks, scope, Done);
    assert |overdue + done| == |overdue| + |done|;
    SubsetSize(overdue + done, InScope(tasks, scope));
  }

  function OpenUndated(tasks: Tasks): set<Id> {
    set task | task in InScope(tasks, None) && tasks[task].dueDate.None? && tasks[task].status != Done
  }

  /** The four kinds of live tasks a day knows: done, open without a date, overdue, upcoming. */
  lemma DaySplitsTasks(tasks: Tasks, today: int)
    ensures |HavingStatus(tasks, None, Done)| + |OpenUndated(tasks)| + |Overdue(tasks, None, today)|
            + |Upcoming(tasks, today)| == CountTasks(tasks, None)
    ensures forall task | task in InScope(tasks, None) && tasks[task].dueDate == Some(today) ::
              task !in Overdue(tasks, None, today)
  {
    var done, undated := HavingStatus(tasks, None, Done), OpenUndated(tasks);
    var overdue, upcoming := Overdue(tasks, None, today), Upcoming(tasks, today);
    forall task
      ensures task in InScope(tasks, None) <==> task in done || task in undated || task in overdue || task in upcoming
    {}
    FourWaySplit(InScope(tasks, None), done, undated, overdue, upcoming);
  }

  /** A project's counts range over its task list, the dashboard's over the lists of all projects. */
  lemma ScopeIsListed(tasks: Tasks, project: Id, task: Id)
    ensures task in InScope(tasks, Some(project)) <==> task in ListForProject(tasks, project)
    ensures task in InScope(tasks, None) <==> exists p :: task in ListForProject(tasks, p)
  {
    ListedAreLive(tasks, project);
    if task in InScope(tasks, None) {
      ListedAreLive(tasks, tasks[task].project);
    }
    if p :| task in ListForProject(tasks, p) {
      ListedAreLive(tasks, p);
    }
  }

  function WithPriority(tasks: Tasks, ids: seq<Id>, priority: Priority): seq<Id>
    requires forall id | id in ids :: id in tasks
  {
    if ids == [] then []
    else if tasks[ids[0]].priority == priority then [ids[0]] + WithPriority(tasks, ids[1..], priority)
    else WithPriority(tasks, ids[1..], priority)
  }

  lemma {:induction false} PriorityMembers(tasks: Tasks, ids: seq<Id>, priority: Priority, among: set<Id>)
    requires forall id | id in ids :: id in tasks
    requires forall i, j | 0 <= i < j < |ids| :: ids[i] != ids[j]
    requires forall id :: id in among <==> id in ids && tasks[id].priority == priority
    ensures |WithPriority(tasks, ids, priority)| == |among|
  {
    if ids == [] {
      assert among == {};
    } else {
      assert ids == [ids[0]] + ids[1..] && ids[0] !in ids[1..];
      PriorityMembers(tasks, ids[1..], priority, among - {ids[0]});
    }
  }

  /** Each priority count is how often the project's list shows that priority. */
  lemma PriorityCountIsListed(tasks: Tasks, project: Id, priority: Priority)
    ensures forall id | id in ListForProject(tasks, project) :: id in tasks
    ensures |HavingPriority(tasks, Some(project), priority)|
            == |WithPriority(tasks, ListForProject(tasks, project), priority)|
  {
    ListedAreLive(tasks, project);
    PriorityMembers(tasks, ListForProject(tasks, project), priority, HavingPriority(tasks, Some(project), priority));
  }

  // ---- The completion percentage -----------------------------------------------------------------

  /** Rounds to the nearest tenth, ties to the even one. */
  function RoundTenth(x: real): real {
    var tenths := (x * 10.0).Floor;
    var part := x * 10.0 - (tenths as real);
    var nearest := if part < 0.5 || (part == 0.5 && tenths % 2 == 0) then tenths else tenths + 1;
    (nearest as real) / 10.0
  }

  function CompletionPercent(done: nat, total: nat): real {
    if total == 0 then 0.0 else RoundTenth((done as real) / (total as real) * 100.0)
  }

  predicate IsTenths(y: real, tenths: int) {
    y * 10.0 == tenths as real
  }

  /**
   Rounding gives a value of one decimal, at most half a tenth away and never past a whole number; of
   two equally near it gives the even one.
   */
  lemma RoundTenthIsClose(x: real)
    requires 0.0 <= x <= 100.0
    ensures 0.0 <= RoundTenth(x) <= 100.0
    ensures -0.05 <= RoundTenth(x) - x <= 0.05
    ensures exists tenths :: IsTenths(RoundTenth(x), tenths)
                             && (RoundTenth(x) - x == 0.05 || x - RoundTenth(x) == 0.05 ==> tenths % 2 == 0)
  {
    var tenths := (x * 10.0).Floor;
    var part := x * 10.0 - (tenths as real);
    assert 0 <= tenths <= 1000;
    var nearest := if part < 0.5 || (part == 0.5 && tenths % 2 == 0) then tenths else tenths + 1;
    assert IsTenths(RoundTenth(x), nearest);
  }

  lemma RatioInUnit(done: nat, total: nat)
    requires done <= total && total > 0
    ensures 0.0 <= (done as real) / (total as real) <= 1.0
  {}

  lemma CompletionInRange(tasks: Tasks, project: Id)
    ensures var done, total := |HavingStatus(tasks, Some(project), Done)|, CountTasks(tasks, Some(project));
            && 0.0 <= CompletionPercent(done, total) <= 100.0
            && (total == 0 ==> CompletionPercent(done, total) == 0.0)
            && (total > 0 ==>
                  var exact := (done as real) / (total as real) * 100.0;
                  -0.05 <= CompletionPercent(done, total) - exact <= 0.05)
  {
    var done, total := |HavingStatus(tasks, Some(project), Done)|, CountTasks(tasks, Some(project));
    SubsetSize(HavingStatus(tasks, Some(project), Done), InScope(tasks, Some(project)));
    if total > 0 {
      RatioInUnit(done, total);
      RoundTenthIsClose((done as real) / (total as real) * 100.0);
    }
  }

  // ---- Tasks per member ----------------------------------------------------------------------------

  function AssignedTo(tasks: Tasks, project: Id, user: Id): set<Id> {
    set task | task in InScope(tasks, Some(project)) && tasks[task].assignee == Some(user)
  }

  function Assigned(tasks: Tasks, project: Id): set<Id> {
    set task | task in InScope(tasks, Some(project)) && tasks[task].assignee.Some?
  }

  datatype MemberCount = MemberCount(user: Id, fullName: string, count: nat)

  predicate IsGroupOf(store: Store, project: Id, row: MemberCount) {
    && row.user in store.users && row.fullName == store.users[row.user].fullName
    && row.count == |AssignedTo(store.tasks, project, row.user)| && row.count > 0
  }

  /** The rows of the grouped join for some accounts, in any order: one for each that has a task in the project. */
  ghost predicate IsGroupingOf(store: Store, project: Id, users: set<Id>, rows: seq<MemberCount>) {
    && (forall i, j | 0 <= i < j < |rows| :: rows[i].user != rows[j].user)
    && (forall i | 0 <= i < |rows| :: rows[i].user in users && IsGroupOf(store, project, rows[i]))
    && (forall user | user in users && user in store.users && AssignedTo(store.tasks, project, user) != {} ::
          exists i :: 0 <= i < |rows| && rows[i].user == user)
  }

  ghost predicate IsGrouping(store: Store, project: Id, rows: seq<MemberCount>) {
    IsGroupingOf(store, project, store.users.Keys, rows)
  }

  /** The query has an answer whatever the tables hold. */
  lemma {:induction false} GroupingExists(store: Store, project: Id, users: set<Id>) returns (rows: seq<MemberCount>)
    requires users <= store.users.Keys
    ensures IsGroupingOf(store, project, users, rows)
  {
    if users == {} {
      rows := [];
    } else {
      var user :| user in users;
      var rest := GroupingExists(store, project, users - {user});
      var count := |AssignedTo(store.tasks, project, user)|;
      if count == 0 {
        rows := rest;
      } else {
        rows := rest + [MemberCount(user, store.users[user].fullName, count)];
        assert rows[|rest|].user == user;
        forall other | other in users && AssignedTo(store.tasks, project, other) != {}
          ensures exists i :: 0 <= i < |rows| && rows[i].user == other
        {
          if other != user {
            var i :| 0 <= i < |rest| && rest[i].user == other;
            assert rows[i].user == other;
          }
        }
      }
    }
  }

  /** The dictionary keyed by full name: a later row of the same name replaces an earlier one. */
  function ByName(rows: seq<MemberCount>): map<string, nat> {
    if rows == [] then map[]
    else
      var last := rows[|rows| - 1];
      ByName(rows[..|rows| - 1])[last.fullName := last.count]
  }

  method TasksPerMember(rows: seq<MemberCount>) returns (counts: map<string, nat>)
    ensures counts == ByName(rows)
  {
    counts := map[];
    for i := 0 to |rows|
      invariant counts == ByName(rows[..i])
    {
      assert rows[..i + 1][..i] == rows[..i];
      counts := counts[rows[i].fullName := rows[i].count];
    }
    assert rows[..|rows|] == rows;
  }

  ghost function Total(counts: map<string, nat>): nat {
    if counts == map[] then 0
    else
      var name :| name in counts;
      counts[name] + Total(counts - {name})
  }

  function RowTotal(rows: seq<MemberCount>): nat {
    if rows == [] then 0 else RowTotal(rows[..|rows| - 1]) + rows[|rows| - 1].count
  }

  lemma {:induction false} TotalPicks(counts: map<string, nat>, name: string)
    requires name in counts
    ensures Total(counts) == counts[name] + Total(counts - {name})
    decreases |counts|
  {
    var picked :| picked in counts && Total(counts) == counts[picked] + Total(counts - {picked});
    if picked == name {
    } else {
      TotalPicks(counts - {picked}, name);
      TotalPicks(counts - {name}, picked);
      assert counts - {picked} - {name} == counts - {name} - {picked};
    }
  }

  lemma TotalAfterPut(counts: map<string, nat>, name: string, count: nat)
    ensures Total(counts[name := count]) == count + Total(counts - {name})
    ensures Total(counts) == (if name in counts then counts[name] else 0) + Total(counts - {name})
  {
    TotalPicks(counts[name := count], name);
    assert counts[name := count] - {name} == counts - {name};
    if name in counts {
      TotalPicks(counts, name);
    } else {
      assert counts - {name} == counts;
    }
  }

  predicate NamesDistinct(rows: seq<MemberCount>) {
    forall i, j | 0 <= i < j < |rows| :: rows[i].fullName != rows[j].fullName
  }

  predicate HasTasks(store: Store, project: Id, user: Id) {
    user in store.users && AssignedTo(store.tasks, project, user) != {}
  }

  /** No two accounts with tasks in the project share a full name. */
  ghost predicate AssigneeNamesDistinct(store: Store, project: Id) {
    forall u, v | HasTasks(store, project, u) && HasTasks(store, project, v) && u != v ::
      store.users[u].fullName != store.users[v].fullName
  }

  lemma RowNames(store: Store, project: Id, rows: seq<MemberCount>)
    requires IsGrouping(store, project, rows)
    ensures NamesDistinct(rows) <==> AssigneeNamesDistinct(store, project)
  {
    forall i | 0 <= i < |rows| ensures HasTasks(store, project, rows[i].user) {
      assert IsGroupOf(store, project, rows[i]);
    }
    if NamesDistinct(rows) {
      forall u, v | HasTasks(store, project, u) && HasTasks(store, project, v) && u != v
        ensures store.users[u].fullName != store.users[v].fullName
      {
        var i :| 0 <= i < |rows| && rows[i].user == u;
        var j :| 0 <= j < |rows| && rows[j].user == v;
        assert if i < j then rows[i].fullName != rows[j].fullName else rows[j].fullName != rows[i].fullName;
      }
    }
  }

  lemma {:induction false} ByNameKeys(rows: seq<MemberCount>, name: string)
    ensures name in ByName(rows) <==> exists i :: 0 <= i < |rows| && rows[i].fullName == name
    ensures name in ByName(rows) ==>
              exists i :: 0 <= i < |rows| && rows[i].fullName == name && rows[i].count == ByName(rows)[name]
  {
    if rows == [] {
    } else {
      ByNameKeys(rows[..|rows| - 1], name);
      assert forall i | 0 <= i < |rows| - 1 :: rows[..|rows| - 1][i] == rows[i];
    }
  }

  /** Of several rows of one name the dictionary holds the last. */
  lemma {:induction false} LastRowCounts(rows: seq<MemberCount>, i: nat)
    requires i < |rows| && forall j | i < j < |rows| :: rows[j].fullName != rows[i].fullName
    ensures rows[i].fullName in ByName(rows) && ByName(rows)[rows[i].fullName] == rows[i].count
  {
    if i == |rows| - 1 {
    } else {
      LastRowCounts(rows[..|rows| - 1], i);
    }
  }

  /** Shared names lose rows: the dictionary holds the whole count exactly when no name repeats. */
  lemma {:induction false} ByNameTotal(rows: seq<MemberCount>)
    requires forall i | 0 <= i < |rows| :: rows[i].count > 0
    ensures Total(ByName(rows)) <= RowTotal(rows)
    ensures Total(ByName(rows)) == RowTotal(rows) <==> NamesDistinct(rows)
  {
    if rows == [] {
    } else {
      var rest, last := rows[..|rows| - 1], rows[|rows| - 1];
      ByNameTotal(rest);
      TotalAfterPut(ByName(rest), last.fullName, last.count);
      ByNameKeys(rest, last.fullName);
      assert NamesDistinct(rows) <==> NamesDistinct(rest) && last.fullName !in ByName(rest);
    }
  }

  predicate AssignedToSome(tasks: Tasks, project: Id, rows: seq<MemberCount>, task: Id) {
    task in Assigned(tasks, project) && exists i :: 0 <= i < |rows| && tasks[task].assignee == Some(rows[i].user)
  }

  function Union(tasks: Tasks, project: Id, rows: seq<MemberCount>): set<Id> {
    set task | task in Assigned(tasks, project) && AssignedToSome(tasks, project, rows, task)
  }

  /** One more row adds the tasks of its account and no others. */
  lemma UnionGrows(tasks: Tasks, project: Id, rest: seq<MemberCount>, last: MemberCount)
    requires forall i | 0 <= i < |rest| :: rest[i].user != last.user
    ensures Union(tasks, project, rest + [last]) == Union(tasks, project, rest) + AssignedTo(tasks, project, last.user)
    ensures Union(tasks, project, rest) !! AssignedTo(tasks, project, last.user)
  {
    var rows := rest + [last];
    forall task ensures AssignedToSome(tasks, project, rows, task)
        <==> AssignedToSome(tasks, project, rest, task) || task in AssignedTo(tasks, project, last.user)
    {
      assert rows[|rest|] == last && forall i | 0 <= i < |rest| :: rest[i] == rows[i];
    }
  }

  lemma {:induction false} RowsCountUnion(tasks: Tasks, project: Id, rows: seq<MemberCount>)
    requires forall i, j | 0 <= i < j < |rows| :: rows[i].user != rows[j].user
    requires forall i | 0 <= i < |rows| :: rows[i].count == |AssignedTo(tasks, project, rows[i].user)|
    ensures RowTotal(rows) == |Union(tasks, project, rows)|
  {
    if rows == [] {
      assert Union(tasks, project, rows) == {};
    } else {
      var rest, last := rows[..|rows| - 1], rows[|rows| - 1];
      RowsCountUnion(tasks, project, rest);
      assert rows == rest + [last];
      UnionGrows(tasks, project, rest, last);
    }
  }

  /**
   Per-member counts add up to the assigned tasks exactly when no two assignees of the project share
   a full name; otherwise they fall short.
   */
  lemma MemberCountsTotal(s: State, project: Id, rows: seq<MemberCount>)
    requires Reachable(s) && IsGrouping(s.store, project, rows)
    ensures Total(ByName(rows)) <= |Assigned(s.store.tasks, project)|
    ensures Total(ByName(rows)) == |Assigned(s.store.tasks, project)| <==> AssigneeNamesDistinct(s.store, project)
  {
    var tasks := s.store.tasks;
    RowNames(s.store, project, rows);
    forall i | 0 <= i < |rows| ensures rows[i].count > 0 {
      assert IsGroupOf(s.store, project, rows[i]);
    }
    ByNameTotal(rows);
    RowsCountUnion(tasks, project, rows);
    forall task | task in Assigned(tasks, project) ensures task in Union(tasks, project, rows) {
      assert task in AssignedTo(tasks, project, tasks[task].assignee.value);
      assert AssignedToSome(tasks, project, rows, task);
    }
    assert Union(tasks, project, rows) == Assigned(tasks, project);
  }

  // ---- A run that loses a count ----------------------------------------------------------------------

  /** Two accounts of the name Kim, each with a task in project 0. */
  const SHARED_NAME: seq<Request> := [
    PutUser(1, Account("a", "Kim", Accounts.Admin)),
    PutUser(2, Account("b", "Kim", Accounts.Employee)),
    CreateProject(1, "p"),
    CreateTask(1, TaskDraft(0, "s", Todo, Low, Some(1), None)),
    CreateTask(1, TaskDraft(0, "t", Todo, Low, Some(2), None))
  ]

  lemma KimsProject()
    ensures var s := After(EMPTY, SHARED_NAME, 3);
            && s.store.users == map[1 := Account("a", "Kim", Accounts.Admin),
                                    2 := Account("b", "Kim", Accounts.Employee)]
            && LiveProject(s.store, 0) && s.supply == 1 && s.store.tasks == map[]
  {
    var s2 := After(EMPTY, SHARED_NAME, 2);
    assert After(EMPTY, SHARED_NAME, 3)
        == s2.(store := s2.store.(projects := map[0 := Project("p", 1, 0, None)]), supply := 1);
  }

  lemma KimsHaveTasks()
    ensures var store := After(EMPTY, SHARED_NAME, 5).store;
            HasTasks(store, 0, 1) && HasTasks(store, 0, 2) && store.users[1].fullName == store.users[2].fullName
  {
    KimsProject();
    var s3, s4, s5 := After(EMPTY, SHARED_NAME, 3), After(EMPTY, SHARED_NAME, 4), After(EMPTY, SHARED_NAME, 5);
    assert s4 == Step(s3, SHARED_NAME[3]).0 && s5 == Step(s4, SHARED_NAME[4]).0;
    assert s4.supply == 2 && s4.store.users == s3.store.users && s4.store.projects == s3.store.projects;
    assert s4.store.tasks.Keys == {1} && s4.store.tasks[1].assignee == Some(1);
    assert s5.store.users == s3.store.users;
    assert 1 in AssignedTo(s5.store.tasks, 0, 1) && 2 in AssignedTo(s5.store.tasks, 0, 2);
  }

  /** The per-member counts of that project miss a task. */
  lemma SharedNameLosesCount() returns (rows: seq<MemberCount>)
    ensures IsGrouping(After(EMPTY, SHARED_NAME, 5).store, 0, rows)
    ensures Total(ByName(rows)) < |Assigned(After(EMPTY, SHARED_NAME, 5).store.tasks, 0)|
  {
    var s := After(EMPTY, SHARED_NAME, 5);
    KimsHaveTasks();
    RunStaysReachable(EMPTY, SHARED_NAME, 5);
    rows := GroupingExists(s.store, 0, s.store.users.Keys);
    MemberCountsTotal(s, 0, rows);
  }
}
