/**
 What the accounts requests answer and what they leave behind, in terms of the rows alone: who may
 log in with which password, who may change what, and how long a token lasts.
 */
module AccountAnswers {
  import opened Common
  import opened PartialUpdates
  import opened Accounts
  import opened AccountRuns

  // ---- Accounts that may act -------------------------------------------------------------------

  predicate Active(users: map<Id, User>, u: Id) {
    u in users && users[u].deletedAt == None && users[u].isActive
  }

  predicate ActiveAdmin(users: map<Id, User>, u: Id) {
    Active(users, u) && users[u].role == Admin
  }

  /** Requests that carry an access token. */
  predicate Authenticated(request: Request) {
    request.ChangePassword? || request.CreateUser? || request.UpdateUser? || request.UpdateRole? || request.DeleteUser?
  }

  /** A deleted, deactivated or unknown account is refused whatever it asks for, and only such a one. */
  lemma InactiveIsRefused(s: State, request: Request)
    requires Authenticated(request)
    ensures Step(s, request).1 == Failed(InactiveAccount) <==> !Active(s.users, request.actor)
    ensures !Active(s.users, request.actor) ==> Step(s, request).0 == s
  {}

  // ---- Passwords -------------------------------------------------------------------------------

  /** A live account with this address and password. */
  predicate Matches(users: map<Id, User>, u: Id, email: string, password: string) {
    u in users && users[u].deletedAt == None && users[u].email == email && users[u].hashedPassword == Bcrypt(password)
  }

  lemma LoginAnswers(s: State, email: string, password: string)
    requires Reachable(s)
    ensures var response := LoginStep(s, email, password).1;
            && (response.Issued? <==> exists u :: Matches(s.users, u, email, password) && s.users[u].isActive)
            && (response == Failed(InactiveAccount) <==>
                  exists u :: Matches(s.users, u, email, password) && !s.users[u].isActive)
            && (response == Failed(InvalidCredentials) <==> forall u :: !Matches(s.users, u, email, password))
  {
    if u :| Matches(s.users, u, email, password) {
      assert HasEmail(s.users, u, email);
      assert HolderOf(s.users, email) == u;
    }
    if EmailTaken(s.users, email) && VerifyPassword(password, s.users[HolderOf(s.users, email)].hashedPassword) {
      assert Matches(s.users, HolderOf(s.users, email), email, password);
    }
  }

  /** One password lets an active account in: the one that is stored for it. */
  lemma LoginOf(s: State, u: Id, password: string)
    requires Reachable(s) && Active(s.users, u)
    ensures LoginStep(s, s.users[u].email, password).1.Issued? <==> s.users[u].hashedPassword == Bcrypt(password)
  {
    LoginAnswers(s, s.users[u].email, password);
    if v :| Matches(s.users, v, s.users[u].email, password) {
      assert Live(s.users, u) && Live(s.users, v);
    }
    assert s.users[u].hashedPassword == Bcrypt(password) ==> Matches(s.users, u, s.users[u].email, password);
  }

  /**
   A password change is carried out exactly for an active account that could log in with the given
   current password, when the new one is acceptable.
   */
  lemma PasswordChangeAnswers(s: State, actor: Id, password: string, newPassword: string, acceptable: bool)
    requires Reachable(s) && Active(s.users, actor)
    ensures var response := ChangePasswordStep(s, actor, password, newPassword, acceptable).1;
            var right := LoginStep(s, s.users[actor].email, password).1.Issued?;
            && (response == Done <==> right && acceptable)
            && (response == Failed(InvalidCredentials) <==> !right)
            && (response == Failed(WeakPassword) <==> right && !acceptable)
  {
    LoginOf(s, actor, password);
  }

  /** After a password change the new password lets the account in, and no other does. */
  lemma PasswordChangeDecidesLogin(s: State, actor: Id, password: string, newPassword: string, acceptable: bool,
                                   tried: string)
    requires Reachable(s) && ChangePasswordStep(s, actor, password, newPassword, acceptable).1 == Done
    ensures actor in s.users
    ensures var s' := ChangePasswordStep(s, actor, password, newPassword, acceptable).0;
            LoginStep(s', s.users[actor].email, tried).1.Issued? <==> tried == newPassword
  {
    var request := ChangePassword(actor, password, newPassword, acceptable);
    StepStaysReachable(s, request);
    assert Step(s, request) == ChangePasswordStep(s, actor, password, newPassword, acceptable);
    LoginOf(Step(s, request).0, actor, tried);
  }

  predicate CreatesUser(request: Request) {
    request.Register? || request.CreateUser?
  }

  /** A new account can log in at once, with the password it was created with and no other. */
  lemma NewUserLogsIn(s: State, request: Request, tried: string)
    requires Reachable(s) && CreatesUser(request) && Step(s, request).1.Created?
    ensures LoginStep(Step(s, request).0, request.email, tried).1.Issued? <==> tried == request.password
  {
    StepStaysReachable(s, request);
    LoginOf(Step(s, request).0, Step(s, request).1.id, tried);
  }

  /** A live account with this address, deactivated ones included. */
  predicate HoldsEmail(users: map<Id, User>, u: Id, email: string) {
    u in users && users[u].deletedAt == None && users[u].email == email
  }

  lemma CreationNeedsAdmin(s: State, request: Request)
    requires request.CreateUser?
    ensures Step(s, request).1 == Failed(Forbidden) <==>
              Active(s.users, request.actor) && s.users[request.actor].role != Admin
  {}

  lemma NewUserAnswers(s: State, request: Request)
    requires CreatesUser(request) && (request.CreateUser? ==> ActiveAdmin(s.users, request.actor))
    ensures var taken := exists u :: HoldsEmail(s.users, u, request.email);
            var response := Step(s, request).1;
            && (response.Created? <==> request.acceptable && !taken)
            && (response == Failed(DuplicateEmail) <==> request.acceptable && taken)
            && (response == Failed(WeakPassword) <==> !request.acceptable)
  {
    if u :| HoldsEmail(s.users, u, request.email) {
      assert HasEmail(s.users, u, request.email);
    }
    if EmailTaken(s.users, request.email) {
      assert HoldsEmail(s.users, HolderOf(s.users, request.email), request.email);
    }
  }

  // ---- Tokens ----------------------------------------------------------------------------------

  /** A login opens one new family, for the account whose password was given, and changes nothing else. */
  lemma LoginOpensFamily(s: State, email: string, password: string)
    requires Reachable(s) && LoginStep(s, email, password).1.Issued?
    ensures var (s', response) := LoginStep(s, email, password);
            && s'.users == s.users
            && exists u: Id, f: Id, issue: Issue ::
                 && Matches(s.users, u, email, password) && f !in s.families && issue.secret == response.token
                 && s'.families == s.families[f := Family(u, [issue], true)]
  {
    var (s', response) := LoginStep(s, email, password);
    var u, f := HolderOf(s.users, email), s.supply;
    SupplyIsFresh(s);
    assert Matches(s.users, u, email, password);
    assert s'.families == s.families[f := Family(u, [s'.families[f].issued[0]], true)];
  }

  /** A refresh adds the token it answers to the end of the presented token's family, and changes nothing else. */
  lemma RefreshExtendsFamily(s: State, secret: Secret, lag: nat)
    requires Reachable(s) && RefreshStep(s, secret, lag).1.Issued?
    ensures var (s', response) := RefreshStep(s, secret, lag);
            && s'.users == s.users
            && exists f: Id, k: nat, issue: Issue ::
                 && Holds(s.families, f, k, secret) && k + 1 == |s.families[f].issued|
                 && issue.secret == response.token
                 && s'.families == s.families[f := s.families[f].(issued := s.families[f].issued + [issue])]
  {
    var (s', response) := RefreshStep(s, secret, lag);
    var (f, k) := Locate(s.families, secret);
    var issued := s'.families[f].issued;
    assert Holds(s.families, f, k, secret) && k + 1 == |s.families[f].issued|;
    assert s'.families == s.families[f := s.families[f].(issued := s.families[f].issued + [issued[|issued| - 1]])];
  }

  /** A token just handed out can be redeemed for as long as its lifetime lasts, and not a moment longer. */
  lemma IssuedLastsLifetime(s: State, request: Request, time: nat)
    requires Reachable(s) && Step(s, request).1.Issued?
    ensures var (s', response) := Step(s, request);
            Redeemable(Step(s', Wait(time)).0, response.token) <==> time < s.lifetime
  {
    var (s', response) := Step(s, request);
    var later := Step(s', Wait(time)).0;
    var f := if request.Login? then s.supply else Locate(s.families, request.secret).0;
    var issue := s'.families[f].issued[|s'.families[f].issued| - 1];
    StepStaysReachable(s, request);
    StepStaysReachable(s', Wait(time));
    assert Newest(later.families, f, issue) && issue.secret == response.token;
    if time < s.lifetime {
      assert RedeemableIn(later, f, issue);
    }
    if Redeemable(later, response.token) {
      var g, other: Issue :| RedeemableIn(later, g, other) && other.secret == response.token;
      assert BothIssued(later.families, f, |later.families[f].issued| - 1, g, |later.families[g].issued| - 1);
    }
  }

  // ---- Rows --------------------------------------------------------------------------------------

  /** Who may have changed an account from `before` to `after`, and how. */
  predicate Allowed(s: State, request: Request, u: Id, before: User, after: User) {
    match request
    case ChangePassword(actor, password, newPassword, _) =>
      && actor == u && Active(s.users, actor) && before.hashedPassword == Bcrypt(password)
      && after == before.(hashedPassword := Bcrypt(newPassword))
    case UpdateUser(actor, target, _) =>
      && target == u
      && (ActiveAdmin(s.users, actor) || (actor == u && Active(s.users, u) && after.isActive == before.isActive))
      && after == before.(email := after.email, fullName := after.fullName, isActive := after.isActive)
    case UpdateRole(actor, target, role) =>
      target == u && ActiveAdmin(s.users, actor) && after == before.(role := role)
    case DeleteUser(actor, target) =>
      target == u && actor != u && ActiveAdmin(s.users, actor) && after == before.(deletedAt := Some(s.clock))
    case _ => false
  }

  /** An account's row changes only while it is live, and only by a request that may make that change. */
  lemma UserRowFollows(s: State, request: Request, u: Id)
    requires Reachable(s) && u in s.users
    ensures u in Step(s, request).0.users
    ensures var before, after := s.users[u], Step(s, request).0.users[u];
            after == before || (before.deletedAt == None && Allowed(s, request, u, before, after))
  {
    if request.UpdateUser? && Step(s, request).1 == Done {
      var user := s.users[request.target];
      KeepsField(ApplyChange, user, request.changes, Identity, Never);
      KeepsField(ApplyChange, user, request.changes, (row: User) => row.isActive, NamesActive);
    }
  }

  /** An account appears only by registration, as an employee, or by an administrator, in the role given. */
  lemma NewUserRowFollows(s: State, request: Request, u: Id)
    requires Reachable(s) && u !in s.users && u in Step(s, request).0.users
    ensures CreatesUser(request) && Step(s, request).1 == Created(u)
    ensures request.CreateUser? ==> ActiveAdmin(s.users, request.actor)
    ensures var user := Step(s, request).0.users[u];
            && user.email == request.email && user.fullName == request.fullName
            && user.role == (if request.CreateUser? then request.role else Employee)
            && user.isActive && user.deletedAt == None
  {}

  /** Roles are granted and accounts deleted exactly at an administrator's request, of live accounts. */
  lemma AdminAnswers(s: State, request: Request)
    requires request.UpdateRole? || request.DeleteUser?
    ensures var (s', response) := Step(s, request);
            var found := request.target in s.users && s.users[request.target].deletedAt == None;
            && (response == Done <==>
                  && ActiveAdmin(s.users, request.actor) && found
                  && (request.DeleteUser? ==> request.target != request.actor))
            && (response == Failed(Forbidden) <==>
                  && Active(s.users, request.actor)
                  && (s.users[request.actor].role != Admin || (request.DeleteUser? && request.target == request.actor)))
            && (response == Failed(NotFound) <==>
                  && ActiveAdmin(s.users, request.actor) && !found
                  && (request.DeleteUser? ==> request.target != request.actor))
            && (response == Done && request.UpdateRole? ==> s'.users[request.target].role == request.role)
            && (response == Done && request.DeleteUser? ==> s'.users[request.target].deletedAt == Some(s.clock))
  {}

  /** Some change gives an address that another live account has. */
  ghost predicate Clashes(users: map<Id, User>, target: Id, changes: seq<UserChange>) {
    exists i, u :: 0 <= i < |changes| && u != target && changes[i].Email? && changes[i].email.Some?
                   && HoldsEmail(users, u, changes[i].email.value)
  }

  lemma ClashIsTaken(s: State, target: Id, changes: seq<UserChange>)
    requires Reachable(s) && Live(s.users, target)
    ensures Clashes(s.users, target, changes) <==> TakesEmail(s.users, s.users[target], changes)
  {
    if TakesEmail(s.users, s.users[target], changes) {
      var i :| 0 <= i < |changes| && changes[i].Email? && changes[i].email.Some?
               && changes[i].email.value != s.users[target].email && EmailTaken(s.users, changes[i].email.value);
      var u := HolderOf(s.users, changes[i].email.value);
      assert HoldsEmail(s.users, u, changes[i].email.value);
    }
    if Clashes(s.users, target, changes) {
      var i, u :| 0 <= i < |changes| && u != target && changes[i].Email? && changes[i].email.Some?
                  && HoldsEmail(s.users, u, changes[i].email.value);
      assert HasEmail(s.users, u, changes[i].email.value);
      assert Live(s.users, u);
    }
  }

  /**
   A partial update is carried out exactly for an administrator or the account itself, on a live account,
   with no null, no clash of addresses, and no change of activity by anybody but an administrator.
   */
  lemma UpdateUserAnswers(s: State, actor: Id, target: Id, changes: UserData)
    requires Reachable(s)
    ensures var (s', response) := Step(s, UpdateUser(actor, target, changes));
            && (response == Done <==>
                  && Active(s.users, actor) && target in s.users && s.users[target].deletedAt == None
                  && (s.users[actor].role == Admin || (actor == target && !Any(changes, NamesActive)))
                  && !Clashes(s.users, target, changes)
                  && forall i | 0 <= i < |changes| :: !IsNull(changes[i]))
            && (response == Done ==> forall i | 0 <= i < |changes| :: HasValue(s'.users[target], changes[i]))
            && (response == Failed(Forbidden) <==>
                  && Active(s.users, actor) && s.users[actor].role != Admin
                  && (actor != target || Any(changes, NamesActive)))
            && (response == Failed(NotFound) <==>
                  ActiveAdmin(s.users, actor) && !(target in s.users && s.users[target].deletedAt == None))
            && (response == Failed(DuplicateEmail) ==> Clashes(s.users, target, changes))
            && (response == Failed(Integrity) ==> Any(changes, IsNull) && !Clashes(s.users, target, changes))
            && (response.Failed? ==>
                  response.error in {InactiveAccount, Forbidden, NotFound, DuplicateEmail, Integrity})
  {
    if target in s.users && s.users[target].deletedAt == None {
      ClashIsTaken(s, target, changes);
      if !HasNull(changes) {
        UpdateSetsGivenFields(s.users[target], changes);
      }
    }
  }
}
