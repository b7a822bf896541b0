/** Safety of the accounts machine over whole runs of serially executed requests. */
module AccountRuns {
  import opened Common
  import opened PartialUpdates
  import opened Accounts

  // ---- The invariant ---------------------------------------------------------------------

  ghost predicate EmailsUnique(users: map<Id, User>) {
    forall a, b | Live(users, a) && Live(users, b) && users[a].email == users[b].email :: a == b
  }

  predicate IssueAt(families: map<Id, Family>, f: Id, k: nat) {
    f in families && k < |families[f].issued|
  }

  predicate BothIssued(families: map<Id, Family>, f: Id, k: nat, g: Id, l: nat) {
    IssueAt(families, f, k) && IssueAt(families, g, l)
  }

  /** Tokens are never issued twice: a row or a secret belongs to one place of one family. */
  ghost predicate IssuesDistinct(families: map<Id, Family>) {
    forall f: Id, k: nat, g: Id, l: nat | BothIssued(families, f, k, g, l) ::
      families[f].issued[k].row == families[g].issued[l].row
      || families[f].issued[k].secret == families[g].issued[l].secret
      ==> f == g && k == l
  }

  /** Later tokens of a family have later rows and do not expire earlier. */
  ghost predicate FamilyOrdered(family: Family) {
    forall i, j | 0 <= i < j < |family.issued| ::
      family.issued[i].row < family.issued[j].row
      && family.issued[i].expiresAt <= family.issued[j].expiresAt
  }

  ghost predicate FamilyFits(s: State, family: Family) {
    && family.issued != []
    && family.owner in s.users
    && FamilyOrdered(family)
    && forall k | 0 <= k < |family.issued| ::
         family.issued[k].row < s.supply && family.issued[k].secret < s.supply
         && family.issued[k].expiresAt <= s.clock + s.lifetime
  }

  ghost predicate FamilyKnown(s: State, f: Id)
    requires f in s.families
  {
    f < s.supply && FamilyFits(s, s.families[f])
  }

  ghost predicate Reachable(s: State) {
    && (forall u | u in s.users :: u < s.supply)
    && (forall f {:trigger FamilyKnown(s, f)} | f in s.families :: FamilyKnown(s, f))
    && IssuesDistinct(s.families)
    && EmailsUnique(s.users)
  }

  lemma SupplyIsFresh(s: State)
    requires Reachable(s)
    ensures s.supply !in s.families
  {
    forall f | f in s.families ensures f < s.supply {
      assert FamilyKnown(s, f);
    }
  }

  lemma LocateIsUnique(s: State, f: Id, k: nat, secret: Secret)
    requires Reachable(s) && Holds(s.families, f, k, secret)
    ensures Known(s.families, secret) && Locate(s.families, secret) == (f, k)
  {
    var (g, l) := Locate(s.families, secret);
    assert BothIssued(s.families, f, k, g, l);
  }

  function Identity(user: User): (PasswordHash, Role, Option<int>) {
    (user.hashedPassword, user.role, user.deletedAt)
  }

  predicate Never(change: UserChange) {
    false
  }

  lemma {:induction false} EmailIsOldOrGiven(user: User, changes: seq<UserChange>)
    ensures ApplyChanges(user, changes).email == user.email
            || exists i :: 0 <= i < |changes| && changes[i] == Email(Some(ApplyChanges(user, changes).email))
  {
    if changes == [] {
    } else {
      var rest := changes[..|changes| - 1];
      EmailIsOldOrGiven(user, rest);
      assert forall i | 0 <= i < |rest| :: rest[i] == changes[i];
      assert ApplyChanges(user, changes) == ApplyChange(ApplyChanges(user, rest), changes[|rest|]);
    }
  }

  lemma ApplyChangesKeepsIdentity(user: User, changes: seq<UserChange>)
    ensures Identity(ApplyChanges(user, changes)) == Identity(user)
    ensures ApplyChanges(user, changes).email == user.email
            || exists i :: 0 <= i < |changes| && changes[i] == Email(Some(ApplyChanges(user, changes).email))
  {
    KeepsField(ApplyChange, user, changes, Identity, Never);
    EmailIsOldOrGiven(user, changes);
  }

  predicate HasValue(user: User, change: UserChange) {
    match change
    case Email(email) => email == Some(user.email)
    case FullName(fullName) => fullName == Some(user.fullName)
    case IsActive(isActive) => isActive == Some(user.isActive)
  }

  /** An update gives each field it names its new value and leaves the other fields as they were. */
  lemma UpdateSetsGivenFields(user: User, changes: UserData)
    requires !HasNull(changes)
    ensures var updated := ApplyChanges(user, changes);
            && (forall i | 0 <= i < |changes| :: HasValue(updated, changes[i]))
            && (updated.email == user.email || Any(changes, NamesEmail))
            && (updated.fullName == user.fullName || Any(changes, NamesFullName))
            && (updated.isActive == user.isActive || Any(changes, NamesActive))
            && Identity(updated) == Identity(user)
  {
    assert forall i | 0 <= i < |changes| :: !IsNull(changes[i]);
    SetsGivenFields(ApplyChange, user, changes, HasValue, SameKey);
    KeepsField(ApplyChange, user, changes, (u: User) => u.email, NamesEmail);
    KeepsField(ApplyChange, user, changes, (u: User) => u.fullName, NamesFullName);
    KeepsField(ApplyChange, user, changes, (u: User) => u.isActive, NamesActive);
    KeepsField(ApplyChange, user, changes, Identity, Never);
  }

  lemma UpdateKeepsEmailsUnique(users: map<Id, User>, target: Id, changes: seq<UserChange>)
    requires EmailsUnique(users) && Live(users, target) && !TakesEmail(users, users[target], changes)
    ensures EmailsUnique(users[target := ApplyChanges(users[target], changes)])
  {
    ApplyChangesKeepsIdentity(users[target], changes);
    var updated := ApplyChanges(users[target], changes);
    forall other | Live(users, other) && other != target ensures users[other].email != updated.email {
      if updated.email != users[target].email {
        assert !HasEmail(users, other, updated.email);
      }
    }
  }

  /** A change of `alive` flags, users or time alone cannot break the token part of the invariant. */
  ghost predicate SameIssues(before: map<Id, Family>, after: map<Id, Family>) {
    && before.Keys == after.Keys
    && forall f | f in before :: after[f].owner == before[f].owner && after[f].issued == before[f].issued
  }

  lemma SameIssuesStaysReachable(s: State, s': State)
    requires Reachable(s) && SameIssues(s.families, s'.families)
    requires s.users.Keys <= s'.users.Keys && EmailsUnique(s'.users) && forall u | u in s'.users :: u < s'.supply
    requires s.clock <= s'.clock && s.supply <= s'.supply && s.lifetime == s'.lifetime
    ensures Reachable(s')
  {
    forall f | f in s'.families ensures FamilyKnown(s', f) {
      assert FamilyKnown(s, f);
    }
    forall f: Id, k: nat, g: Id, l: nat
      ensures BothIssued(s'.families, f, k, g, l) == BothIssued(s.families, f, k, g, l)
    {}
  }

  /** Handing out one more token, in a new family or at the end of an old one. */
  ghost predicate Extends(s: State, f: Id, family: Family, next: Issue, s': State) {
    && s' == s.(families := s.families[f := family], clock := s'.clock, supply := s'.supply)
    && s.clock <= s'.clock && s.supply <= s'.supply
    && f < s'.supply && family.owner in s.users
    && family.issued == (if f in s.families then s.families[f].issued else []) + [next]
    && s.supply <= next.row < s'.supply && s.supply <= next.secret < s'.supply
    && next.expiresAt == s'.clock + s.lifetime
  }

  lemma NewIssueFits(s: State, f: Id, family: Family, next: Issue, s': State)
    requires Reachable(s) && Extends(s, f, family, next, s')
    ensures forall g {:trigger FamilyKnown(s', g)} | g in s'.families :: FamilyKnown(s', g)
  {
    assert f in s.families ==> FamilyKnown(s, f);
    forall g | g in s'.families ensures FamilyKnown(s', g) {
      assert g != f ==> FamilyKnown(s, g);
    }
  }

  lemma NewIssueIsDistinct(s: State, f: Id, family: Family, next: Issue, s': State)
    requires Reachable(s) && Extends(s, f, family, next, s')
    ensures IssuesDistinct(s'.families)
  {
    forall g: Id, k: nat | IssueAt(s'.families, g, k)
      ensures
        if g == f && k == |family.issued| - 1 then s'.families[g].issued[k] == next
        else
          && IssueAt(s.families, g, k) && s'.families[g].issued[k] == s.families[g].issued[k]
          && s.families[g].issued[k].row < s.supply && s.families[g].issued[k].secret < s.supply
    {
      assert g in s.families ==> FamilyKnown(s, g);
    }
    forall g: Id, k: nat, h: Id, l: nat | BothIssued(s'.families, g, k, h, l)
      ensures (s'.families[g].issued[k].row == s'.families[h].issued[l].row
               || s'.families[g].issued[k].secret == s'.families[h].issued[l].secret) ==> g == h && k == l
    {
      assert IssueAt(s'.families, g, k) && IssueAt(s'.families, h, l);
      assert IssueAt(s.families, g, k) && IssueAt(s.families, h, l) ==> BothIssued(s.families, g, k, h, l);
    }
  }

  lemma NewIssueStaysReachable(s: State, f: Id, family: Family, next: Issue, s': State)
    requires Reachable(s) && Extends(s, f, family, next, s')
    ensures Reachable(s')
  {
    NewIssueFits(s, f, family, next, s');
    NewIssueIsDistinct(s, f, family, next, s');
  }

  lemma LoginStaysReachable(s: State, email: string, password: string)
    requires Reachable(s)
    ensures Reachable(LoginStep(s, email, password).0)
  {
    var (s', response) := LoginStep(s, email, password);
    SupplyIsFresh(s);
    if response.Issued? {
      var family := s'.families[s.supply];
      NewIssueStaysReachable(s, s.supply, family, family.issued[0], s');
    }
  }

  lemma RefreshStaysReachable(s: State, secret: Secret, lag: nat)
    requires Reachable(s)
    ensures Reachable(RefreshStep(s, secret, lag).0)
  {
    var (s', response) := RefreshStep(s, secret, lag);
    if response.Issued? {
      var f := Locate(s.families, secret).0;
      var family := s'.families[f];
      assert FamilyKnown(s, f);
      NewIssueStaysReachable(s, f, family, family.issued[|family.issued| - 1], s');
    } else {
      SameIssuesStaysReachable(s, s');
    }
  }

  /** An update of one account that leaves its address alone. */
  lemma UserUpdateStaysReachable(s: State, u: Id, user: User, s': State)
    requires Reachable(s) && Live(s.users, u) && user.email == s.users[u].email
    requires s' == s.(users := s.users[u := user], families := s'.families)
    requires SameIssues(s.families, s'.families)
    ensures Reachable(s')
  {
    assert forall a | Live(s'.users, a) :: Live(s.users, a) && s.users[a].email == s'.users[a].email;
    SameIssuesStaysReachable(s, s');
  }

  lemma UpdateUserStaysReachable(s: State, actor: Id, target: Id, changes: seq<UserChange>)
    requires Reachable(s)
    ensures Reachable(UpdateUserStep(s, actor, target, changes).0)
  {
    var (s', response) := UpdateUserStep(s, actor, target, changes);
    if response == Done {
      UpdateKeepsEmailsUnique(s.users, target, changes);
      SameIssuesStaysReachable(s, s');
    }
  }

  lemma NewUserStaysUnique(s: State, email: string)
    requires !EmailTaken(s.users, email)
    ensures forall id | Live(s.users, id) :: s.users[id].email != email
  {
    forall id | Live(s.users, id) ensures s.users[id].email != email {
      assert !HasEmail(s.users, id, email);
    }
  }

  lemma NewUserStaysReachable(s: State, email: string, s': State)
    requires Reachable(s)
    requires s' != s ==>
               && !EmailTaken(s.users, email)
               && s' == s.(users := s'.users, supply := s.supply + 1)
               && exists user: User :: user.email == email && s'.users == s.users[s.supply := user]
    ensures Reachable(s')
  {
    if s' != s {
      NewUserStaysUnique(s, email);
      SameIssuesStaysReachable(s, s');
    }
  }

  /** Every request keeps the invariant. */
  lemma StepStaysReachable(s: State, request: Request)
    requires Reachable(s)
    ensures Reachable(Step(s, request).0)
  {
    var (s', response) := Step(s, request);
    match request
    case Login(email, password) => LoginStaysReachable(s, email, password);
    case Refresh(secret, lag) => RefreshStaysReachable(s, secret, lag);
    case Register(email, _, _, _) => NewUserStaysReachable(s, email, s');
    case CreateUser(_, email, _, _, _, _) => NewUserStaysReachable(s, email, s');
    case UpdateUser(actor, target, changes) => UpdateUserStaysReachable(s, actor, target, changes);
    case ChangePassword(actor, _, _, _) =>
      if response == Done {
        UserUpdateStaysReachable(s, actor, s'.users[actor], s');
      }
    case UpdateRole(_, target, _) =>
      if response == Done {
        UserUpdateStaysReachable(s, target, s'.users[target], s');
      }
    case DeleteUser(_, target) =>
      if response == Done {
        UserUpdateStaysReachable(s, target, s'.users[target], s');
      }
    case Logout(_) => SameIssuesStaysReachable(s, s');
    case Wait(_) => SameIssuesStaysReachable(s, s');
  }

  lemma {:induction false} RunStaysReachable(s: State, run: seq<Request>, n: nat)
    requires Reachable(s) && n <= |run|
    ensures Reachable(After(s, run, n))
  {
    if n == 0 {
    } else {
      RunStaysReachable(s, run, n - 1);
      StepStaysReachable(After(s, run, n - 1), run[n - 1]);
    }
  }

  ghost predicate OneRowWritten(before: map<Id, User>, after: map<Id, User>, id: Id) {
    id in after && after == before[id := after[id]]
  }

  /** Seen from the other modules, a request writes at most one account row and removes none. */
  lemma OneAccountChanges(s: State, request: Request)
    ensures var users := Step(s, request).0.users;
            users == s.users || exists id :: OneRowWritten(s.users, users, id)
  {
    var users := Step(s, request).0.users;
    if users != s.users {
      var id := match request
        case ChangePassword(actor, _, _, _) => actor
        case UpdateUser(_, target, _) => target
        case UpdateRole(_, target, _) => target
        case DeleteUser(_, target) => target
        case _ => s.supply;
      assert OneRowWritten(s.users, users, id);
    }
  }

  // ---- What a family can still do ----------------------------------------------------------

  /** A family keeps its owner, only ever gains tokens at the end, and does not change once dead. */
  ghost predicate Grown(before: Family, after: Family) {
    && after.owner == before.owner
    && before.issued <= after.issued
    && (!before.alive ==> after == before)
  }

  ghost predicate AllGrown(before: map<Id, Family>, after: map<Id, Family>) {
    forall f | f in before :: f in after && Grown(before[f], after[f])
  }

  lemma RefreshGrows(s: State, secret: Secret, lag: nat)
    ensures AllGrown(s.families, RefreshStep(s, secret, lag).0.families)
  {
    if Known(s.families, secret) {
      var f := Locate(s.families, secret).0;
      assert forall g | g in s.families && g != f :: RefreshStep(s, secret, lag).0.families[g] == s.families[g];
    }
  }

  lemma StepGrows(s: State, request: Request)
    requires Reachable(s)
    ensures AllGrown(s.families, Step(s, request).0.families)
  {
    match request
    case Login(email, password) => SupplyIsFresh(s);
    case Refresh(secret, lag) => RefreshGrows(s, secret, lag);
    case _ =>
  }

  lemma GrowsOn(first: map<Id, Family>, second: map<Id, Family>, third: map<Id, Family>)
    requires AllGrown(first, second) && AllGrown(second, third)
    ensures AllGrown(first, third)
  {}

  lemma {:induction false} RunGrows(s: State, run: seq<Request>, i: nat, j: nat)
    requires Reachable(s) && i <= j <= |run|
    ensures AllGrown(After(s, run, i).families, After(s, run, j).families)
  {
    if i == j {
    } else {
      RunGrows(s, run, i, j - 1);
      RunStaysReachable(s, run, j - 1);
      StepGrows(After(s, run, j - 1), run[j - 1]);
      assert AllGrown(After(s, run, j - 1).families, After(s, run, j).families);
      GrowsOn(After(s, run, i).families, After(s, run, j - 1).families, After(s, run, j).families);
    }
  }

  /** Token `k` of a family has been replaced, or its family is dead. */
  ghost predicate Revoked(families: map<Id, Family>, f: Id, k: nat) {
    IssueAt(families, f, k) && (k + 1 < |families[f].issued| || !families[f].alive)
  }

  lemma RevokedForever(s: State, run: seq<Request>, i: nat, j: nat, f: Id, k: nat)
    requires Reachable(s) && i <= j <= |run|
    requires Revoked(After(s, run, i).families, f, k)
    ensures Revoked(After(s, run, j).families, f, k)
    ensures After(s, run, j).families[f].issued[k] == After(s, run, i).families[f].issued[k]
  {
    RunGrows(s, run, i, j);
  }

  /** The revoked test comes first: neither expiry nor the owner's state hides a replay. */
  lemma RevokedTokenIsReuse(s: State, f: Id, k: nat, secret: Secret, lag: nat)
    requires Reachable(s) && Holds(s.families, f, k, secret) && Revoked(s.families, f, k)
    ensures RefreshStep(s, secret, lag)
            == (s.(families := s.families[f := s.families[f].(alive := false)]), Failed(TokenReuseDetected))
  {
    LocateIsUnique(s, f, k, secret);
  }

  // ---- Theorems ----------------------------------------------------------------------------

  ghost predicate Newest(families: map<Id, Family>, f: Id, issue: Issue) {
    f in families && families[f].alive && families[f].issued != []
    && families[f].issued[|families[f].issued| - 1] == issue
  }

  /** The newest token of a living family, before its expiry, for an account that may log in. */
  ghost predicate RedeemableIn(s: State, f: Id, issue: Issue) {
    Newest(s.families, f, issue) && s.clock < issue.expiresAt && Usable(s.users, s.families[f].owner)
  }

  ghost predicate Redeemable(s: State, secret: Secret) {
    exists f, issue: Issue :: RedeemableIn(s, f, issue) && issue.secret == secret
  }

  lemma RefreshSucceedsIff(s: State, secret: Secret, lag: nat)
    requires Reachable(s)
    ensures RefreshStep(s, secret, lag).1.Issued? <==> Redeemable(s, secret)
  {
    if Redeemable(s, secret) {
      var f, issue: Issue :| RedeemableIn(s, f, issue) && issue.secret == secret;
      LocateIsUnique(s, f, |s.families[f].issued| - 1, secret);
    }
    if RefreshStep(s, secret, lag).1.Issued? {
      var (f, k) := Locate(s.families, secret);
      assert RedeemableIn(s, f, s.families[f].issued[k]);
    }
  }

  /** A token just handed out, by a login or a refresh, can be redeemed. */
  lemma IssuedIsRedeemable(s: State, request: Request)
    requires Reachable(s) && s.lifetime > 0 && Step(s, request).1.Issued?
    ensures Redeemable(Step(s, request).0, Step(s, request).1.token)
  {
    var (s', response) := Step(s, request);
    var f := if request.Login? then s.supply else Locate(s.families, request.secret).0;
    var issued := s'.families[f].issued;
    assert RedeemableIn(s', f, issued[|issued| - 1]);
  }

  ghost predicate HoldsReplaced(families: map<Id, Family>, f: Id, secret: Secret) {
    exists k: nat :: Holds(families, f, k, secret) && k + 1 < |families[f].issued|
  }

  ghost predicate HoldsNewest(families: map<Id, Family>, f: Id, secret: Secret) {
    exists k: nat :: Holds(families, f, k, secret) && k + 1 == |families[f].issued|
  }

  lemma RefreshKillsIff(s: State, secret: Secret, lag: nat, f: Id)
    requires Reachable(s) && f in s.families && s.families[f].alive
    ensures f in RefreshStep(s, secret, lag).0.families
    ensures !RefreshStep(s, secret, lag).0.families[f].alive <==> HoldsReplaced(s.families, f, secret)
  {
    if HoldsReplaced(s.families, f, secret) {
      var k: nat :| Holds(s.families, f, k, secret) && k + 1 < |s.families[f].issued|;
      LocateIsUnique(s, f, k, secret);
    } else if Known(s.families, secret) {
      var (g, k) := Locate(s.families, secret);
      assert Holds(s.families, g, k, secret);
    }
  }

  lemma LogoutKillsIff(s: State, secret: Secret, f: Id)
    requires Reachable(s) && f in s.families && s.families[f].alive
    ensures f in LogoutStep(s, secret).0.families
    ensures !LogoutStep(s, secret).0.families[f].alive <==> HoldsNewest(s.families, f, secret)
  {
    if HoldsNewest(s.families, f, secret) {
      var k: nat :| Holds(s.families, f, k, secret) && k + 1 == |s.families[f].issued|;
      LocateIsUnique(s, f, k, secret);
    } else if Known(s.families, secret) {
      var (g, k) := Locate(s.families, secret);
      assert Holds(s.families, g, k, secret);
    }
  }

  /**
   A session ends in three ways only: one of its replaced tokens is replayed, its newest token is
   logged out, or its owner changes the password.
   */
  lemma FamilyDiesIff(s: State, request: Request, f: Id)
    requires Reachable(s) && f in s.families && s.families[f].alive
    ensures f in Step(s, request).0.families
    ensures !Step(s, request).0.families[f].alive <==>
              || (request.Refresh? && HoldsReplaced(s.families, f, request.secret))
              || (request.Logout? && HoldsNewest(s.families, f, request.secret))
              || (request.ChangePassword? && request.actor == s.families[f].owner && Step(s, request).1 == Done)
  {
    StepGrows(s, request);
    match request
    case Login(_, _) => assert FamilyKnown(s, f);
    case Refresh(secret, lag) => RefreshKillsIff(s, secret, lag, f);
    case Logout(secret) => LogoutKillsIff(s, secret, f);
    case _ =>
  }

  /** A logged-out token is never redeemed again, and a logout is never refused. */
  lemma LogoutEndsSession(s: State, run: seq<Request>, i: nat, j: nat)
    requires Reachable(s) && i < j < |run|
    requires run[i].Logout? && run[j].Refresh? && run[j].secret == run[i].secret
    ensures Reply(s, run, i) == Done
    ensures Known(After(s, run, i).families, run[i].secret) ==> Reply(s, run, j) == Failed(TokenReuseDetected)
  {
    if Known(After(s, run, i).families, run[i].secret) {
      var (f, k) := Locate(After(s, run, i).families, run[i].secret);
      RevokedForever(s, run, i + 1, j, f, k);
      RunStaysReachable(s, run, j);
      RevokedTokenIsReuse(After(s, run, j), f, k, run[i].secret, run[j].lag);
    }
  }

  /** No refresh token is redeemed twice in a run. */
  lemma RedeemedAtMostOnce(s: State, run: seq<Request>, i: nat, j: nat)
    requires Reachable(s) && i < j < |run|
    requires run[i].Refresh? && run[j].Refresh? && run[i].secret == run[j].secret
    requires Reply(s, run, i).Issued?
    ensures Reply(s, run, j) == Failed(TokenReuseDetected)
  {
    var before := After(s, run, i);
    var secret := run[i].secret;
    var (f, k) := Locate(before.families, secret);
    RevokedForever(s, run, i + 1, j, f, k);
    RunStaysReachable(s, run, j);
    RevokedTokenIsReuse(After(s, run, j), f, k, secret, run[j].lag);
  }

  /**
   Presenting a revoked token kills its family for good: from then on the family never changes,
   and each of its tokens is answered as reuse.
   */
  lemma ReuseKillsFamily(s: State, run: seq<Request>, i: nat, j: nat) returns (f: Id)
    requires Reachable(s) && i < j <= |run|
    requires run[i].Refresh? && Reply(s, run, i) == Failed(TokenReuseDetected)
    ensures exists k :: Holds(After(s, run, i).families, f, k, run[i].secret)
    ensures f in After(s, run, j).families && f in After(s, run, i).families
    ensures After(s, run, j).families[f] == After(s, run, i).families[f].(alive := false)
    ensures j < |run| && run[j].Refresh? && (exists k :: Holds(After(s, run, j).families, f, k, run[j].secret))
            ==> Reply(s, run, j) == Failed(TokenReuseDetected)
  {
    var at := Locate(After(s, run, i).families, run[i].secret);
    f := at.0;
    RunStaysReachable(s, run, i);
    RunStaysReachable(s, run, i + 1);
    RunGrows(s, run, i + 1, j);
    RunStaysReachable(s, run, j);
    if j < |run| && run[j].Refresh? && exists l :: Holds(After(s, run, j).families, f, l, run[j].secret) {
      var l :| Holds(After(s, run, j).families, f, l, run[j].secret);
      RevokedTokenIsReuse(After(s, run, j), f, l, run[j].secret, run[j].lag);
    }
  }

  /** A password change ends every session of that user and touches no other user's tokens. */
  lemma PasswordChangeEndsSessions(s: State, run: seq<Request>, i: nat, j: nat, f: Id, k: nat, secret: Secret)
    requires Reachable(s) && i < j < |run|
    requires run[i].ChangePassword? && Reply(s, run, i) == Done
    requires Holds(After(s, run, i).families, f, k, secret)
    ensures After(s, run, i).families[f].owner != run[i].actor
            ==> f in After(s, run, i + 1).families && After(s, run, i + 1).families[f] == After(s, run, i).families[f]
    ensures After(s, run, i).families[f].owner == run[i].actor && run[j].Refresh? && run[j].secret == secret
            ==> Reply(s, run, j) == Failed(TokenReuseDetected)
  {
    if After(s, run, i).families[f].owner == run[i].actor && run[j].Refresh? && run[j].secret == secret {
      RevokedForever(s, run, i + 1, j, f, k);
      RunStaysReachable(s, run, j);
      RevokedTokenIsReuse(After(s, run, j), f, k, secret, run[j].lag);
    }
  }

  /** No request touches the row of a deleted account; in particular none clears `deleted_at`. */
  lemma StepKeepsDeleted(s: State, request: Request, u: Id)
    requires Reachable(s) && u in s.users && s.users[u].deletedAt.Some?
    ensures u in Step(s, request).0.users && Step(s, request).0.users[u] == s.users[u]
  {
    match request
    case Refresh(_, _) =>
    case Login(_, _) =>
    case _ =>
  }

  lemma {:induction false} DeletedForever(s: State, run: seq<Request>, i: nat, j: nat, u: Id)
    requires Reachable(s) && i <= j <= |run|
    requires u in After(s, run, i).users && After(s, run, i).users[u].deletedAt.Some?
    ensures u in After(s, run, j).users
            && After(s, run, j).users[u] == After(s, run, i).users[u]
  {
    if i == j {
    } else {
      DeletedForever(s, run, i, j - 1, u);
      RunStaysReachable(s, run, j - 1);
      StepKeepsDeleted(After(s, run, j - 1), run[j - 1], u);
    }
  }

  /** Deleting an account leaves its tokens in place, yet none of them is ever redeemed again. */
  lemma DeletedUserNeverRefreshes(s: State, run: seq<Request>, i: nat, j: nat, f: Id, k: nat)
    requires Reachable(s) && i < j < |run|
    requires run[i].DeleteUser? && Reply(s, run, i) == Done
    requires run[j].Refresh? && Holds(After(s, run, j).families, f, k, run[j].secret)
    requires After(s, run, j).families[f].owner == run[i].target
    ensures After(s, run, i + 1).families == After(s, run, i).families
    ensures Reply(s, run, j).Failed?
  {
    DeletedForever(s, run, i + 1, j, run[i].target);
    RunStaysReachable(s, run, j);
    LocateIsUnique(After(s, run, j), f, k, run[j].secret);
  }

  /**
   A failed request leaves the store as it was, except that a replay kills the one family of the
   replayed token.
   */
  lemma FailureLeavesStore(s: State, request: Request)
    requires Step(s, request).1.Failed?
    ensures Step(s, request).0 == s
            || exists f, k ::
                 && request.Refresh? && Step(s, request).1 == Failed(TokenReuseDetected)
                 && Holds(s.families, f, k, request.secret)
                 && Step(s, request).0 == s.(families := s.families[f := s.families[f].(alive := false)])
  {
    if request.Refresh? && Known(s.families, request.secret) {
      var (f, k) := Locate(s.families, request.secret);
      assert Holds(s.families, f, k, request.secret);
    }
  }

  /** An address is free for registration exactly when no live account has it. */
  lemma RegistrationNeedsFreeEmail(s: State, email: string, password: string, fullName: string)
    requires Reachable(s)
    ensures var (s', response) := Step(s, Register(email, password, true, fullName));
            && (response.Created? <==> forall u | Live(s.users, u) :: s.users[u].email != email)
            && (response.Created? ==> HasEmail(s'.users, response.id, email) && response.id !in s.users
                                      && s'.users[response.id].role == Employee)
            && (!response.Created? ==> response == Failed(DuplicateEmail) && s' == s)
  {
    if !EmailTaken(s.users, email) {
      NewUserStaysUnique(s, email);
    } else {
      assert Live(s.users, HolderOf(s.users, email));
    }
  }

  lemma NobodyElseTakes(s: State, request: Request, holder: Id, email: string)
    requires Reachable(s) && HasEmail(s.users, holder, email)
    ensures forall other | HasEmail(Step(s, request).0.users, other, email) :: other == holder
  {
    var (s', response) := Step(s, request);
    if request.UpdateUser? && response == Done {
      ApplyChangesKeepsIdentity(s.users[request.target], request.changes);
    }
    forall other | other != holder ensures !HasEmail(s'.users, other, email) {
      assert !HasEmail(s.users, other, email);
    }
  }

  /** An address stops being taken exactly when its live holder is deleted or moves to another one. */
  lemma EmailFreedIff(s: State, request: Request, holder: Id, email: string)
    requires Reachable(s) && HasEmail(s.users, holder, email)
    ensures !EmailTaken(Step(s, request).0.users, email) <==>
            && Step(s, request).1 == Done
            && (|| (request.DeleteUser? && request.target == holder)
                || (request.UpdateUser? && request.target == holder
                    && ApplyChanges(s.users[holder], request.changes).email != email))
  {
    var (s', response) := Step(s, request);
    if request.UpdateUser? && response == Done {
      ApplyChangesKeepsIdentity(s.users[request.target], request.changes);
    }
    NobodyElseTakes(s, request, holder, email);
    assert EmailTaken(s'.users, email) <==> HasEmail(s'.users, holder, email);
  }

  // ---- Privileges ----------------------------------------------------------------------------

  predicate ByAdmin(s: State, request: Request) {
    && (request.CreateUser? || request.UpdateUser? || request.UpdateRole? || request.DeleteUser?)
    && Usable(s.users, request.actor) && s.users[request.actor].role == Admin
  }

  /** The part of an account only administrators may decide. */
  function Standing(user: User): (Role, bool, Option<int>) {
    (user.role, user.isActive, user.deletedAt)
  }

  /**
   Role, activity and deletion of an account change by an administrator's request only; any other
   new account is an active employee.
   */
  lemma StandingNeedsAdmin(s: State, request: Request, u: Id)
    requires Reachable(s) && !ByAdmin(s, request)
    ensures u in s.users ==>
              u in Step(s, request).0.users && Standing(Step(s, request).0.users[u]) == Standing(s.users[u])
    ensures u in Step(s, request).0.users && u !in s.users ==>
              request.Register? && Standing(Step(s, request).0.users[u]) == (Employee, true, None)
  {
    var (s', response) := Step(s, request);
    if request.UpdateUser? && response == Done {
      ApplyChangesKeepsIdentity(s.users[request.target], request.changes);
      KeepsField(ApplyChange, s.users[request.target], request.changes, (u: User) => u.isActive, NamesActive);
    }
  }

  /** Where nobody is an administrator, no run makes anybody one. */
  lemma {:induction false} AdminsComeFromAdmins(s: State, run: seq<Request>, n: nat)
    requires Reachable(s) && n <= |run|
    requires forall u | u in s.users :: s.users[u].role == Employee
    ensures forall u | u in After(s, run, n).users :: After(s, run, n).users[u].role == Employee
  {
    if n == 0 {
    } else {
      AdminsComeFromAdmins(s, run, n - 1);
      RunStaysReachable(s, run, n - 1);
      var before := After(s, run, n - 1);
      forall u | u in After(s, run, n).users ensures After(s, run, n).users[u].role == Employee {
        StandingNeedsAdmin(before, run[n - 1], u);
      }
    }
  }
}
