/**
 The accounts machine: every request of app/modules/auth and app/modules/users as one step on
 a state in which a refresh-token family is a plain list of issued tokens that is alive or dead.
 There are no `revoked` flags, `replaced_by_id` links or hashes here; AuthService.dfy shows
 that the token table with all of those behaves exactly like this machine.
 */
module Accounts {
  import opened Common
  import opened PartialUpdates

  type Secret = nat

  /** bcrypt output: only VerifyPassword looks inside. */
  datatype PasswordHash = Bcrypt(password: string)

  predicate VerifyPassword(password: string, hash: PasswordHash) {
    hash == Bcrypt(password)
  }

  datatype Role = Admin | Employee

  datatype User = User(email: string, hashedPassword: PasswordHash, fullName: string,
                       role: Role, isActive: bool, deletedAt: Option<int>)

  /** One token handed out: the row that stores it, the secret, and when it stops being valid. */
  datatype Issue = Issue(row: Id, secret: Secret, expiresAt: int)

  /** A rotation chain, oldest token first. Only the last token of a living family can be used. */
  datatype Family = Family(owner: Id, issued: seq<Issue>, alive: bool)

  datatype State = State(users: map<Id, User>, families: map<Id, Family>,
                         clock: int, supply: nat, lifetime: int)

  /** One item of a partial user update; None is an explicit JSON null. */
  datatype UserChange =
    | Email(email: Option<string>)
    | FullName(fullName: Option<string>)
    | IsActive(isActive: Option<bool>)

  predicate SameKey(a: UserChange, b: UserChange) {
    a.Email? == b.Email? && a.FullName? == b.FullName?
  }

  /** The items of a dictionary: no key occurs twice. */
  type UserData = changes: seq<UserChange> | DistinctKeys(changes, SameKey) witness []

  /**
   `acceptable` is the verdict of the password policy, `actor` the subject of a valid access
   token, `lag` the time between the two clock readings of a refresh.
   */
  datatype Request =
    | Register(email: string, password: string, acceptable: bool, fullName: string)
    | Login(email: string, password: string)
    | Refresh(secret: Secret, lag: nat)
    | Logout(secret: Secret)
    | ChangePassword(actor: Id, password: string, newPassword: string, acceptable: bool)
    | CreateUser(actor: Id, email: string, password: string, acceptable: bool, fullName: string, role: Role)
    | UpdateUser(actor: Id, target: Id, changes: UserData)
    | UpdateRole(actor: Id, target: Id, role: Role)
    | DeleteUser(actor: Id, target: Id)
    | Wait(time: nat)

  datatype Error =
    | InvalidCredentials | InvalidToken | TokenReuseDetected | InactiveAccount | WeakPassword
    | DuplicateEmail | NotFound | Forbidden | Integrity

  datatype Response =
    | Done
    | Created(id: Id)
    | Issued(token: Secret)
    | Failed(error: Error)

  // ---- Queries ---------------------------------------------------------------------------

  predicate Live(users: map<Id, User>, id: Id) {
    id in users && users[id].deletedAt.None?
  }

  /** The test both `get_current_user` and `refresh` make on an account. */
  predicate Usable(users: map<Id, User>, id: Id) {
    Live(users, id) && users[id].isActive
  }

  predicate HasEmail(users: map<Id, User>, id: Id, email: string) {
    Live(users, id) && users[id].email == email
  }

  ghost predicate EmailTaken(users: map<Id, User>, email: string) {
    exists id :: HasEmail(users, id, email)
  }

  ghost function HolderOf(users: map<Id, User>, email: string): (id: Id)
    requires EmailTaken(users, email)
    ensures HasEmail(users, id, email)
  {
    var id :| HasEmail(users, id, email);
    id
  }

  ghost predicate Holds(families: map<Id, Family>, f: Id, k: nat, secret: Secret) {
    f in families && k < |families[f].issued| && families[f].issued[k].secret == secret
  }

  ghost predicate Known(families: map<Id, Family>, secret: Secret) {
    exists f, k :: Holds(families, f, k, secret)
  }

  ghost function Locate(families: map<Id, Family>, secret: Secret): (at: (Id, nat))
    requires Known(families, secret)
    ensures Holds(families, at.0, at.1, secret)
  {
    var f, k :| Holds(families, f, k, secret);
    (f, k)
  }

  // ---- Partial user updates --------------------------------------------------------------

  /** One field of an account. A null cannot be stored; the flush rejects it (see HasNull). */
  function ApplyChange(user: User, change: UserChange): User {
    match change
    case Email(Some(email)) => user.(email := email)
    case FullName(Some(fullName)) => user.(fullName := fullName)
    case IsActive(Some(isActive)) => user.(isActive := isActive)
    case _ => user
  }

  function ApplyChanges(user: User, changes: seq<UserChange>): User {
    ApplyAll(ApplyChange, user, changes)
  }

  predicate IsNull(change: UserChange) {
    change in {Email(None), FullName(None), IsActive(None)}
  }

  predicate HasNull(changes: seq<UserChange>) {
    Any(changes, IsNull)
  }

  predicate NamesEmail(change: UserChange) {
    change.Email?
  }

  predicate NamesFullName(change: UserChange) {
    change.FullName?
  }

  predicate NamesActive(change: UserChange) {
    change.IsActive?
  }

  predicate SetsActive(changes: seq<UserChange>) {
    Any(changes, NamesActive)
  }

  // ---- Requests --------------------------------------------------------------------------

  ghost function NewUserStep(s: State, email: string, password: string, acceptable: bool,
                             fullName: string, role: Role): (State, Response)
  {
    if !acceptable then (s, Failed(WeakPassword))
    else if EmailTaken(s.users, email) then (s, Failed(DuplicateEmail))
    else
      var user := User(email, Bcrypt(password), fullName, role, true, None);
      (s.(users := s.users[s.supply := user], supply := s.supply + 1), Created(s.supply))
  }

  ghost function LoginStep(s: State, email: string, password: string): (State, Response) {
    if !EmailTaken(s.users, email) then (s, Failed(InvalidCredentials))
    else
      var user := HolderOf(s.users, email);
      if !VerifyPassword(password, s.users[user].hashedPassword) then (s, Failed(InvalidCredentials))
      else if !s.users[user].isActive then (s, Failed(InactiveAccount))
      else
        var first := Issue(s.supply + 2, s.supply + 1, s.clock + s.lifetime);
        (s.(families := s.families[s.supply := Family(user, [first], true)], supply := s.supply + 3),
         Issued(first.secret))
  }

  ghost function RefreshStep(s: State, secret: Secret, lag: nat): (State, Response) {
    if !Known(s.families, secret) then (s, Failed(InvalidToken))
    else
      var (f, k) := Locate(s.families, secret);
      var family := s.families[f];
      if k + 1 < |family.issued| || !family.alive then
        (s.(families := s.families[f := family.(alive := false)]), Failed(TokenReuseDetected))
      else if family.issued[k].expiresAt <= s.clock then (s, Failed(InvalidToken))
      else if !Usable(s.users, family.owner) then (s, Failed(InactiveAccount))
      else
        var next := Issue(s.supply + 1, s.supply, s.clock + lag + s.lifetime);
        (s.(families := s.families[f := family.(issued := family.issued + [next])],
            clock := s.clock + lag, supply := s.supply + 2),
         Issued(next.secret))
  }

  ghost function LogoutStep(s: State, secret: Secret): (State, Response) {
    if !Known(s.families, secret) then (s, Done)
    else
      var (f, k) := Locate(s.families, secret);
      if k + 1 < |s.families[f].issued| then (s, Done)
      else (s.(families := s.families[f := s.families[f].(alive := false)]), Done)
  }

  ghost function KillAllOf(families: map<Id, Family>, owner: Id): map<Id, Family> {
    map f | f in families ::
      if families[f].owner == owner then families[f].(alive := false) else families[f]
  }

  ghost function ChangePasswordStep(s: State, actor: Id, password: string, newPassword: string,
                                    acceptable: bool): (State, Response)
  {
    if !Usable(s.users, actor) then (s, Failed(InactiveAccount))
    else if !VerifyPassword(password, s.users[actor].hashedPassword) then (s, Failed(InvalidCredentials))
    else if !acceptable then (s, Failed(WeakPassword))
    else
      var user := s.users[actor].(hashedPassword := Bcrypt(newPassword));
      (s.(users := s.users[actor := user], families := KillAllOf(s.families, actor)), Done)
  }

  /** Whether some change gives `user` an address that another live account already has. */
  ghost predicate TakesEmail(users: map<Id, User>, user: User, changes: seq<UserChange>) {
    exists i :: 0 <= i < |changes| && changes[i].Email? && changes[i].email.Some?
             && changes[i].email.value != user.email && EmailTaken(users, changes[i].email.value)
  }

  ghost function UpdateUserStep(s: State, actor: Id, target: Id, changes: seq<UserChange>): (State, Response) {
    if !Usable(s.users, actor) then (s, Failed(InactiveAccount))
    else if s.users[actor].role != Admin && actor != target then (s, Failed(Forbidden))
    else if !Live(s.users, target) then (s, Failed(NotFound))
    else if SetsActive(changes) && s.users[actor].role != Admin then (s, Failed(Forbidden))
    else if TakesEmail(s.users, s.users[target], changes) then (s, Failed(DuplicateEmail))
    else if HasNull(changes) then (s, Failed(Integrity))
    else (s.(users := s.users[target := ApplyChanges(s.users[target], changes)]), Done)
  }

  ghost function UpdateRoleStep(s: State, actor: Id, target: Id, role: Role): (State, Response) {
    if !Usable(s.users, actor) then (s, Failed(InactiveAccount))
    else if s.users[actor].role != Admin then (s, Failed(Forbidden))
    else if !Live(s.users, target) then (s, Failed(NotFound))
    else (s.(users := s.users[target := s.users[target].(role := role)]), Done)
  }

  ghost function DeleteUserStep(s: State, actor: Id, target: Id): (State, Response) {
    if !Usable(s.users, actor) then (s, Failed(InactiveAccount))
    else if s.users[actor].role != Admin then (s, Failed(Forbidden))
    else if target == actor then (s, Failed(Forbidden))
    else if !Live(s.users, target) then (s, Failed(NotFound))
    else (s.(users := s.users[target := s.users[target].(deletedAt := Some(s.clock))]), Done)
  }

  ghost function Step(s: State, request: Request): (State, Response) {
    match request
    case Register(email, password, acceptable, fullName) =>
      NewUserStep(s, email, password, acceptable, fullName, Employee)
    case Login(email, password) => LoginStep(s, email, password)
    case Refresh(secret, lag) => RefreshStep(s, secret, lag)
    case Logout(secret) => LogoutStep(s, secret)
    case ChangePassword(actor, password, newPassword, acceptable) =>
      ChangePasswordStep(s, actor, password, newPassword, acceptable)
    case CreateUser(actor, email, password, acceptable, fullName, role) =>
      if !Usable(s.users, actor) then (s, Failed(InactiveAccount))
      else if s.users[actor].role != Admin then (s, Failed(Forbidden))
      else NewUserStep(s, email, password, acceptable, fullName, role)
    case UpdateUser(actor, target, changes) => UpdateUserStep(s, actor, target, changes)
    case UpdateRole(actor, target, role) => UpdateRoleStep(s, actor, target, role)
    case DeleteUser(actor, target) => DeleteUserStep(s, actor, target)
    case Wait(time) => (s.(clock := s.clock + time), Done)
  }

  // ---- Runs ------------------------------------------------------------------------------

  /** The state after the first `n` requests of a run. */
  ghost function After(s: State, run: seq<Request>, n: nat): State
    requires n <= |run|
  {
    if n == 0 then s else Step(After(s, run, n - 1), run[n - 1]).0
  }

  /** The answer to request `i` of a run. */
  ghost function Reply(s: State, run: seq<Request>, i: nat): Response
    requires i < |run|
  {
    Step(After(s, run, i), run[i]).1
  }
}
