/**
 The token table with its hashes, `revoked` flags and `replaced_by_id` links, the services of
 app/modules/auth and app/modules/users that work on it, and the proof that they behave exactly
 like the accounts machine.
 */
module AuthService {
  import opened Common
  import opened PartialUpdates
  import opened Accounts
  import opened AccountRuns
  import opened Database

  /** SHA-256 as an injective function. */
  datatype TokenHash = Sha256(secret: Secret)

  datatype RefreshToken = RefreshToken(tokenHash: TokenHash, userId: Id, familyId: Id, expiresAt: int,
                                       revoked: bool, replacedById: Option<Id>)

  type TokenTable = map<Id, RefreshToken>

  datatype Store = Store(users: map<Id, User>, tokens: TokenTable)

  // ---- The table as a picture of the families ------------------------------------------------

  function RowOf(f: Id, family: Family, k: nat): RefreshToken
    requires k < |family.issued|
  {
    var last := k + 1 == |family.issued|;
    RefreshToken(Sha256(family.issued[k].secret), family.owner, f, family.issued[k].expiresAt,
                 !last || !family.alive,
                 if last then None else Some(family.issued[k + 1].row))
  }

  predicate RowAt(families: map<Id, Family>, f: Id, k: nat, id: Id) {
    IssueAt(families, f, k) && families[f].issued[k].row == id
  }

  predicate Stored(tokens: TokenTable, f: Id, family: Family, k: nat)
    requires k < |family.issued|
  {
    family.issued[k].row in tokens && tokens[family.issued[k].row] == RowOf(f, family, k)
  }

  ghost predicate AllStored(tokens: TokenTable, families: map<Id, Family>) {
    forall f: Id, k: nat | IssueAt(families, f, k) :: Stored(tokens, f, families[f], k)
  }

  ghost predicate Covered(families: map<Id, Family>, id: Id, row: RefreshToken) {
    exists k: nat :: RowAt(families, row.familyId, k, id)
  }

  /** The table holds exactly one row for each token of each family. */
  ghost predicate Represents(tokens: TokenTable, families: map<Id, Family>) {
    AllStored(tokens, families) && forall id | id in tokens :: Covered(families, id, tokens[id])
  }

  lemma StaysCovered(before: map<Id, Family>, after: map<Id, Family>, id: Id, row: RefreshToken)
    requires Covered(before, id, row)
    requires row.familyId in after && before[row.familyId].issued <= after[row.familyId].issued
    ensures Covered(after, id, row)
  {
    var k: nat :| RowAt(before, row.familyId, k, id);
    assert RowAt(after, row.familyId, k, id);
  }

  // ---- The updates the repository makes ----------------------------------------------------------

  function Revoke(tokens: TokenTable, id: Id, replacedBy: Option<Id>): TokenTable
    requires id in tokens
  {
    tokens[id := tokens[id].(revoked := true, replacedById := replacedBy)]
  }

  function RevokeWhereFamily(tokens: TokenTable, f: Id): TokenTable {
    map id | id in tokens ::
      if tokens[id].familyId == f then tokens[id].(revoked := true) else tokens[id]
  }

  function RevokeWhereUser(tokens: TokenTable, u: Id): TokenTable {
    map id | id in tokens ::
      if tokens[id].userId == u then tokens[id].(revoked := true) else tokens[id]
  }

  // ---- Each table update is one move of the machine ---------------------------------------------

  lemma RevokeFamilyKills(tokens: TokenTable, families: map<Id, Family>, f: Id)
    requires Represents(tokens, families) && f in families
    ensures Represents(RevokeWhereFamily(tokens, f), families[f := families[f].(alive := false)])
  {
    var after := families[f := families[f].(alive := false)];
    forall g: Id, k: nat | IssueAt(after, g, k) ensures Stored(RevokeWhereFamily(tokens, f), g, after[g], k) {
      assert IssueAt(families, g, k) && Stored(tokens, g, families[g], k);
    }
    forall id | id in tokens ensures Covered(after, id, RevokeWhereFamily(tokens, f)[id]) {
      StaysCovered(families, after, id, tokens[id]);
    }
  }

  lemma RevokeUserKillsAll(tokens: TokenTable, families: map<Id, Family>, u: Id)
    requires Represents(tokens, families)
    ensures Represents(RevokeWhereUser(tokens, u), KillAllOf(families, u))
  {
    var after := KillAllOf(families, u);
    forall g: Id, k: nat | IssueAt(after, g, k) ensures Stored(RevokeWhereUser(tokens, u), g, after[g], k) {
      assert IssueAt(families, g, k) && Stored(tokens, g, families[g], k);
    }
    forall id | id in tokens ensures Covered(after, id, RevokeWhereUser(tokens, u)[id]) {
      StaysCovered(families, after, id, tokens[id]);
    }
  }

  /** Two places of the machine are stored in two rows. */
  lemma RowsDiffer(families: map<Id, Family>, f: Id, k: nat, g: Id, l: nat)
    requires IssuesDistinct(families) && IssueAt(families, f, k) && IssueAt(families, g, l)
    ensures families[f].issued[k].row == families[g].issued[l].row <==> f == g && k == l
  {
    assert BothIssued(families, f, k, g, l);
  }

  lemma RevokeTailKills(tokens: TokenTable, families: map<Id, Family>, f: Id, k: nat)
    requires IssuesDistinct(families) && Represents(tokens, families)
    requires IssueAt(families, f, k) && k + 1 == |families[f].issued|
    ensures families[f].issued[k].row in tokens
    ensures Represents(Revoke(tokens, families[f].issued[k].row, None),
                       families[f := families[f].(alive := false)])
  {
    var tail := families[f].issued[k].row;
    var after := families[f := families[f].(alive := false)];
    assert Stored(tokens, f, families[f], k);
    forall g: Id, l: nat | IssueAt(after, g, l) ensures Stored(Revoke(tokens, tail, None), g, after[g], l) {
      assert IssueAt(families, g, l) && Stored(tokens, g, families[g], l);
      RowsDiffer(families, f, k, g, l);
    }
    forall id | id in tokens ensures Covered(after, id, Revoke(tokens, tail, None)[id]) {
      StaysCovered(families, after, id, tokens[id]);
    }
  }

  ghost predicate FreshSecret(tokens: TokenTable, secret: Secret) {
    forall id | id in tokens :: tokens[id].tokenHash != Sha256(secret)
  }

  /** No row uses an identifier or a secret that has not been drawn yet. */
  lemma FreshValues(tokens: TokenTable, s: State, value: nat)
    requires Reachable(s) && Represents(tokens, s.families) && s.supply <= value
    ensures value !in tokens && FreshSecret(tokens, value)
  {
    forall id | id in tokens ensures id < s.supply && tokens[id].tokenHash.secret < s.supply {
      var k: nat :| RowAt(s.families, tokens[id].familyId, k, id);
      assert FamilyKnown(s, tokens[id].familyId);
      assert Stored(tokens, tokens[id].familyId, s.families[tokens[id].familyId], k);
    }
  }

  lemma AddStartsFamily(tokens: TokenTable, families: map<Id, Family>, f: Id, family: Family)
    requires Represents(tokens, families)
    requires f !in families && |family.issued| == 1 && family.issued[0].row !in tokens
    ensures Represents(tokens[family.issued[0].row := RowOf(f, family, 0)], families[f := family])
  {
    var row := family.issued[0].row;
    var after := families[f := family];
    var tokens' := tokens[row := RowOf(f, family, 0)];
    forall g: Id, l: nat | IssueAt(after, g, l) ensures Stored(tokens', g, after[g], l) {
      assert g != f ==> IssueAt(families, g, l) && Stored(tokens, g, families[g], l);
    }
    assert RowAt(after, f, 0, row);
    forall id | id in tokens ensures Covered(after, id, tokens[id]) {
      StaysCovered(families, after, id, tokens[id]);
    }
  }

  /** The table after adding the successor of row `id` and revoking `id` in its favour. */
  function Rotated(tokens: TokenTable, id: Id, next: Issue): TokenTable
    requires id in tokens
  {
    var row := tokens[id];
    var successor := RefreshToken(Sha256(next.secret), row.userId, row.familyId, next.expiresAt, false, None);
    Revoke(tokens[next.row := successor], id, Some(next.row))
  }

  function Appended(families: map<Id, Family>, f: Id, next: Issue): map<Id, Family>
    requires f in families
  {
    families[f := families[f].(issued := families[f].issued + [next])]
  }

  /** Rotation appends to the family. */
  lemma RotateExtendsFamily(tokens: TokenTable, families: map<Id, Family>, id: Id, k: nat, next: Issue)
    requires IssuesDistinct(families) && Represents(tokens, families)
    requires id in tokens && !tokens[id].revoked && RowAt(families, tokens[id].familyId, k, id)
    requires next.row !in tokens
    ensures Represents(Rotated(tokens, id, next), Appended(families, tokens[id].familyId, next))
  {
    var f := tokens[id].familyId;
    var after := Appended(families, f, next);
    var tokens' := Rotated(tokens, id, next);
    assert Stored(tokens, f, families[f], k);
    forall g: Id, l: nat | IssueAt(after, g, l) ensures Stored(tokens', g, after[g], l) {
      if g != f || l <= k {
        assert IssueAt(families, g, l) && Stored(tokens, g, families[g], l);
        RowsDiffer(families, f, k, g, l);
      }
    }
    assert RowAt(after, f, k + 1, next.row);
    forall id | id in tokens ensures Covered(after, id, tokens[id]) {
      StaysCovered(families, after, id, tokens[id]);
    }
  }

  lemma RotateRefines(tokens: TokenTable, s: State, id: Id, k: nat, expiresAt: int)
    requires Reachable(s) && Represents(tokens, s.families)
    requires id in tokens && !tokens[id].revoked && RowAt(s.families, tokens[id].familyId, k, id)
    ensures FreshSecret(tokens, s.supply) && s.supply + 1 !in tokens
    ensures var next := Issue(s.supply + 1, s.supply, expiresAt);
            Represents(Rotated(tokens, id, next), Appended(s.families, tokens[id].familyId, next))
  {
    FreshValues(tokens, s, s.supply);
    FreshValues(tokens, s, s.supply + 1);
    RotateExtendsFamily(tokens, s.families, id, k, Issue(s.supply + 1, s.supply, expiresAt));
  }

  /** A stored row is some token of its family, and the row's flags say where it stands. */
  lemma RowIsIssue(tokens: TokenTable, s: State, id: Id) returns (k: nat)
    requires Reachable(s) && Represents(tokens, s.families) && id in tokens
    ensures RowAt(s.families, tokens[id].familyId, k, id)
    ensures tokens[id] == RowOf(tokens[id].familyId, s.families[tokens[id].familyId], k)
    ensures Known(s.families, tokens[id].tokenHash.secret)
    ensures Locate(s.families, tokens[id].tokenHash.secret) == (tokens[id].familyId, k)
  {
    k :| RowAt(s.families, tokens[id].familyId, k, id);
    assert Stored(tokens, tokens[id].familyId, s.families[tokens[id].familyId], k);
    LocateIsUnique(s, tokens[id].familyId, k, tokens[id].tokenHash.secret);
  }

  /** A hash is stored once, so `get_by_hash` never meets two rows. */
  lemma HashesAreUnique(tokens: TokenTable, s: State, a: Id, b: Id)
    requires Reachable(s) && Represents(tokens, s.families) && a in tokens && b in tokens
    ensures tokens[a].tokenHash == tokens[b].tokenHash ==> a == b
  {
    var k := RowIsIssue(tokens, s, a);
    var l := RowIsIssue(tokens, s, b);
  }

  /** The machine's answer to a refresh, read off the stored row of the presented token. */
  lemma RefreshOfRow(tokens: TokenTable, s: State, id: Id, lag: nat) returns (k: nat)
    requires Reachable(s) && Represents(tokens, s.families) && id in tokens
    ensures RowAt(s.families, tokens[id].familyId, k, id)
    ensures var row, f := tokens[id], tokens[id].familyId;
            RefreshStep(s, row.tokenHash.secret, lag) ==
              if row.revoked then
                (s.(families := s.families[f := s.families[f].(alive := false)]), Failed(TokenReuseDetected))
              else if row.expiresAt <= s.clock then (s, Failed(InvalidToken))
              else if !Usable(s.users, row.userId) then (s, Failed(InactiveAccount))
              else
                var next := Issue(s.supply + 1, s.supply, s.clock + lag + s.lifetime);
                (s.(families := Appended(s.families, f, next), clock := s.clock + lag, supply := s.supply + 2),
                 Issued(s.supply))
  {
    k := RowIsIssue(tokens, s, id);
  }

  lemma UnknownHash(tokens: TokenTable, s: State, secret: Secret)
    requires Represents(tokens, s.families)
    requires forall id | id in tokens :: tokens[id].tokenHash != Sha256(secret)
    ensures !Known(s.families, secret)
  {
    forall f: Id, k: nat ensures !Holds(s.families, f, k, secret) {
      assert IssueAt(s.families, f, k) ==> Stored(tokens, f, s.families[f], k);
    }
  }

  // ---- What this says about the table alone ------------------------------------------------------

  /** `chain` lists exactly the rows of family `f`, oldest first. */
  ghost predicate ListsFamily(tokens: TokenTable, f: Id, chain: seq<Id>) {
    && chain != []
    && (forall i, j | 0 <= i < j < |chain| :: chain[i] < chain[j])
    && (forall id :: id in chain <==> id in tokens && tokens[id].familyId == f)
  }

  /** Row `chain[i]` is linked to the next one and revoked, unless it is the last one. */
  ghost predicate LinkedAt(tokens: TokenTable, chain: seq<Id>, i: nat)
    requires i < |chain|
  {
    && chain[i] in tokens
    && tokens[chain[i]].replacedById == (if i + 1 < |chain| then Some(chain[i + 1]) else None)
    && (i + 1 < |chain| ==> tokens[chain[i]].revoked)
  }

  ghost predicate SimpleChain(tokens: TokenTable, f: Id, chain: seq<Id>) {
    && ListsFamily(tokens, f, chain)
    && (forall i | 0 <= i < |chain| :: LinkedAt(tokens, chain, i))
    && (forall i, j | 0 <= i < j < |chain| ::
          && tokens[chain[i]].userId == tokens[chain[j]].userId
          && tokens[chain[i]].expiresAt <= tokens[chain[j]].expiresAt)
  }

  function ChainOf(family: Family): (chain: seq<Id>)
    ensures |chain| == |family.issued| && forall i | 0 <= i < |chain| :: chain[i] == family.issued[i].row
  {
    seq(|family.issued|, i requires 0 <= i < |family.issued| => family.issued[i].row)
  }

  lemma ChainListsFamily(tokens: TokenTable, s: State, f: Id)
    requires Reachable(s) && Represents(tokens, s.families) && f in s.families
    ensures ListsFamily(tokens, f, ChainOf(s.families[f]))
  {
    var chain := ChainOf(s.families[f]);
    assert FamilyKnown(s, f);
    forall id ensures id in chain <==> id in tokens && tokens[id].familyId == f {
      if id in chain {
        var k: nat :| k < |chain| && chain[k] == id;
        assert IssueAt(s.families, f, k) && Stored(tokens, f, s.families[f], k);
      }
      if id in tokens && tokens[id].familyId == f {
        var k: nat :| RowAt(s.families, f, k, id);
        assert chain[k] == id;
      }
    }
  }

  /**
   In every reachable table each family is one chain from its login token to one tail, with one
   user, expiry never decreasing, and at most the tail not revoked.
   */
  lemma FamiliesAreChains(tokens: TokenTable, s: State, f: Id)
    requires Reachable(s) && Represents(tokens, s.families) && f in s.families
    ensures SimpleChain(tokens, f, ChainOf(s.families[f]))
  {
    var family := s.families[f];
    assert FamilyKnown(s, f);
    ChainListsFamily(tokens, s, f);
    forall i: nat | i < |family.issued|
      ensures LinkedAt(tokens, ChainOf(family), i)
      ensures tokens[ChainOf(family)[i]].userId == family.owner
      ensures tokens[ChainOf(family)[i]].expiresAt == family.issued[i].expiresAt
    {
      assert IssueAt(s.families, f, i) && Stored(tokens, f, family, i);
    }
  }

  /** Links are injective, stay inside the family, and at most one token of a family is live. */
  lemma ChainLinks(tokens: TokenTable, s: State, a: Id, b: Id)
    requires Reachable(s) && Represents(tokens, s.families) && a in tokens && b in tokens
    ensures tokens[a].replacedById.Some? ==>
              && tokens[a].replacedById.value in tokens && a < tokens[a].replacedById.value
              && tokens[tokens[a].replacedById.value].familyId == tokens[a].familyId
    ensures tokens[a].replacedById.Some? && tokens[a].replacedById == tokens[b].replacedById ==> a == b
    ensures tokens[a].familyId == tokens[b].familyId && !tokens[a].revoked && !tokens[b].revoked ==> a == b
  {
    var k := RowIsIssue(tokens, s, a);
    var l := RowIsIssue(tokens, s, b);
    var f, g := tokens[a].familyId, tokens[b].familyId;
    assert FamilyKnown(s, f);
    if tokens[a].replacedById.Some? {
      assert IssueAt(s.families, f, k + 1) && Stored(tokens, f, s.families[f], k + 1);
      if tokens[b].replacedById == tokens[a].replacedById {
        RowsDiffer(s.families, f, k + 1, g, l + 1);
      }
    }
  }

  /** Rows stay, `revoked` and `replaced_by_id` are written once, and a row ended for good keeps its link. */
  predicate WrittenOnce(before: TokenTable, after: TokenTable, id: Id)
    requires id in before
  {
    && id in after
    && after[id].(revoked := before[id].revoked, replacedById := before[id].replacedById) == before[id]
    && (before[id].revoked ==> after[id].revoked)
    && (before[id].replacedById.Some? ==> after[id].replacedById == before[id].replacedById)
    && (before[id].revoked && before[id].replacedById.None? ==> after[id] == before[id])
  }

  /** Whatever requests come between, every row is written once. */
  lemma TokensAreWriteOnce(s: State, run: seq<Request>, i: nat, j: nat, before: TokenTable, after: TokenTable, id: Id)
    requires Reachable(s) && i <= j <= |run|
    requires Represents(before, After(s, run, i).families) && Represents(after, After(s, run, j).families)
    requires id in before
    ensures WrittenOnce(before, after, id)
  {
    RunStaysReachable(s, run, i);
    RunGrows(s, run, i, j);
    var k := RowIsIssue(before, After(s, run, i), id);
    var f := before[id].familyId;
    assert IssueAt(After(s, run, j).families, f, k);
    assert Stored(after, f, After(s, run, j).families[f], k);
  }

  lemma FamiliesDetermineTable(tokens: TokenTable, tokens': TokenTable, families: map<Id, Family>)
    requires Represents(tokens, families) && Represents(tokens', families)
    ensures tokens == tokens'
  {
    forall id
      ensures id in tokens <==> id in tokens'
      ensures id in tokens && id in tokens' ==> tokens[id] == tokens'[id]
    {
      if id in tokens {
        var k: nat :| RowAt(families, tokens[id].familyId, k, id);
        assert Stored(tokens', tokens[id].familyId, families[tokens[id].familyId], k);
        assert Stored(tokens, tokens[id].familyId, families[tokens[id].familyId], k);
      }
      if id in tokens' {
        var k: nat :| RowAt(families, tokens'[id].familyId, k, id);
        assert Stored(tokens, tokens'[id].familyId, families[tokens'[id].familyId], k);
      }
    }
  }

  /**
   What a failed request leaves in the token table: what was there, except that a replay has set
   `revoked` on the rows of the replayed token's family that did not have it yet.
   */
  lemma FailedRequestTable(tokens: TokenTable, tokens': TokenTable, s: State, request: Request)
    requires Reachable(s) && Step(s, request).1.Failed?
    requires Represents(tokens, s.families) && Represents(tokens', Step(s, request).0.families)
    ensures tokens' == tokens
            || exists id ::
                 && id in tokens && request.Refresh? && Step(s, request).1 == Failed(TokenReuseDetected)
                 && tokens[id].tokenHash == Sha256(request.secret) && tokens[id].revoked
                 && tokens' == RevokeWhereFamily(tokens, tokens[id].familyId)
  {
    FailureLeavesStore(s, request);
    if Step(s, request).0 == s {
      FamiliesDetermineTable(tokens, tokens', s.families);
    } else {
      var (f, k) := Locate(s.families, request.secret);
      assert IssueAt(s.families, f, k) && Stored(tokens, f, s.families[f], k);
      RevokeFamilyKills(tokens, s.families, f);
      FamiliesDetermineTable(tokens', RevokeWhereFamily(tokens, f), Step(s, request).0.families);
      assert tokens[s.families[f].issued[k].row].tokenHash == Sha256(request.secret);
    }
  }

  /** The chains of a table, without a word about families. */
  ghost predicate AllChains(tokens: TokenTable) {
    forall id | id in tokens :: exists chain :: SimpleChain(tokens, tokens[id].familyId, chain)
  }

  lemma TableIsChains(tokens: TokenTable, s: State)
    requires Reachable(s) && Represents(tokens, s.families)
    ensures AllChains(tokens)
  {
    forall id | id in tokens ensures exists chain :: SimpleChain(tokens, tokens[id].familyId, chain) {
      var k: nat :| RowAt(s.families, tokens[id].familyId, k, id);
      FamiliesAreChains(tokens, s, tokens[id].familyId);
    }
  }

  // ---- Repositories ------------------------------------------------------------------------------

  class UserRepository {
    const db: Session<Store>

    constructor (db: Session<Store>)
      ensures this.db == db
    {
      this.db := db;
    }

    method GetByEmail(email: string) returns (user: Option<Id>)
      ensures user.Some? ==> HasEmail(db.working.users, user.value, email)
      ensures user.Some? <==> EmailTaken(db.working.users, email)
    {
      if id :| id in db.working.users && HasEmail(db.working.users, id, email) {
        user := Some(id);
      } else {
        user := None;
      }
    }
  }

  class RefreshTokenRepository {
    const db: Session<Store>

    constructor (db: Session<Store>)
      ensures this.db == db
    {
      this.db := db;
    }

    method GetByHash(tokenHash: TokenHash) returns (token: Option<Id>)
      ensures token.Some? ==> token.value in db.working.tokens && db.working.tokens[token.value].tokenHash == tokenHash
      ensures token.None? ==> forall id | id in db.working.tokens :: db.working.tokens[id].tokenHash != tokenHash
    {
      if id :| id in db.working.tokens && db.working.tokens[id].tokenHash == tokenHash {
        token := Some(id);
      } else {
        token := None;
      }
    }

    method Add(id: Id, token: RefreshToken)
      modifies db`working
      ensures db.working == old(db.working).(tokens := old(db.working.tokens)[id := token])
    {
      db.working := db.working.(tokens := db.working.tokens[id := token]);
    }

    method RevokeToken(id: Id, replacedBy: Option<Id>)
      requires id in db.working.tokens
      modifies db`working
      ensures db.working == old(db.working).(tokens := Revoke(old(db.working.tokens), id, replacedBy))
    {
      var token := db.working.tokens[id];
      token := token.(revoked := true);
      token := token.(replacedById := replacedBy);
      db.working := db.working.(tokens := db.working.tokens[id := token]);
    }

    /** Updates the rows of a family that are not revoked yet. */
    method RevokeFamily(f: Id)
      modifies db`working
      ensures db.working == old(db.working).(tokens := RevokeWhereFamily(old(db.working.tokens), f))
    {
      var rows := db.working.tokens;
      db.working := db.working.(tokens := map id | id in rows ::
        if rows[id].familyId == f && !rows[id].revoked then rows[id].(revoked := true) else rows[id]);
      assert db.working.tokens == RevokeWhereFamily(rows, f);
    }

    /** Updates the rows of a user that are not revoked yet. */
    method RevokeAllForUser(u: Id)
      modifies db`working
      ensures db.working == old(db.working).(tokens := RevokeWhereUser(old(db.working.tokens), u))
    {
      var rows := db.working.tokens;
      db.working := db.working.(tokens := map id | id in rows ::
        if rows[id].userId == u && !rows[id].revoked then rows[id].(revoked := true) else rows[id]);
      assert db.working.tokens == RevokeWhereUser(rows, u);
    }

    predicate IsValid(token: RefreshToken, now: int) {
      !token.revoked && token.expiresAt > now
    }
  }

  // ---- Services ----------------------------------------------------------------------------------

  lemma UniqueHolder(s: State, user: Option<Id>, email: string)
    requires Reachable(s)
    requires user.Some? <==> EmailTaken(s.users, email)
    requires user.Some? ==> HasEmail(s.users, user.value, email)
    ensures user.Some? ==> HolderOf(s.users, email) == user.value
  {}

  class Service {
    const db: Session<Store>
    const env: Environment
    const lifetime: int
    const users: UserRepository
    const tokens: RefreshTokenRepository
    /** The families behind the working and the committed token table. */
    ghost var current: map<Id, Family>
    ghost var durable: map<Id, Family>

    constructor (db: Session<Store>, env: Environment, lifetime: int)
      requires db.working == db.committed && db.working == Store(map[], map[])
      ensures this.db == db && this.env == env && this.lifetime == lifetime
      ensures Idle() && Committed() == State(map[], map[], env.clock, env.supply, lifetime)
      ensures fresh(users) && fresh(tokens)
    {
      this.db, this.env, this.lifetime := db, env, lifetime;
      users := new UserRepository(db);
      tokens := new RefreshTokenRepository(db);
      current, durable := map[], map[];
    }

    ghost function Working(): State
      reads this, db, env
    {
      State(db.working.users, current, env.clock, env.supply, lifetime)
    }

    ghost function Committed(): State
      reads this, db, env
    {
      State(db.committed.users, durable, env.clock, env.supply, lifetime)
    }

    ghost predicate Valid()
      reads this, db
    {
      && users.db == db && tokens.db == db
      && Represents(db.working.tokens, current)
      && Represents(db.committed.tokens, durable)
    }

    /** Between requests: nothing is pending and the store is one that serial requests can reach. */
    ghost predicate Idle()
      reads this, db, env
    {
      Valid() && db.working == db.committed && current == durable && Reachable(Committed())
    }

    /** Adds the row of a fresh token and returns the token and the row. */
    method IssuePair(user: Id, f: Id) returns (secret: Secret, row: Id)
      requires tokens.db == db
      modifies db`working, env`supply
      ensures secret == old(env.supply) && row == old(env.supply) + 1 && env.supply == old(env.supply) + 2
      ensures db.working == old(db.working).(tokens := old(db.working.tokens)[row :=
                RefreshToken(Sha256(secret), user, f, env.clock + lifetime, false, None)])
    {
      secret := env.Fresh();
      row := env.Fresh();
      tokens.Add(row, RefreshToken(Sha256(secret), user, f, env.clock + lifetime, false, None));
    }

    /** `_issue_pair` under a new family identifier. */
    method StartFamily(user: Id) returns (secret: Secret)
      requires Idle()
      modifies this`current, db`working, env`supply
      ensures Valid() && secret == old(env.supply) + 1 && env.supply == old(env.supply) + 3
      ensures db.working.users == old(db.working.users)
      ensures current == old(current)[old(env.supply) :=
                Family(user, [Issue(old(env.supply) + 2, secret, env.clock + lifetime)], true)]
    {
      ghost var s := Working();
      ghost var table := db.working.tokens;
      SupplyIsFresh(s);
      FreshValues(table, s, s.supply + 2);
      var f := env.Fresh();
      var row;
      secret, row := IssuePair(user, f);
      ghost var family := Family(user, [Issue(row, secret, env.clock + lifetime)], true);
      AddStartsFamily(table, s.families, f, family);
      current := s.families[f := family];
      assert db.working.tokens == table[row := RowOf(f, family, 0)];
    }

    method Login(email: string, password: string) returns (response: Response)
      requires Idle()
      modifies this`current, db`working, env
      ensures Valid()
      ensures (Working(), response) == LoginStep(old(Working()), email, password)
    {
      var user := users.GetByEmail(email);
      UniqueHolder(Working(), user, email);
      if user.None? || !VerifyPassword(password, db.working.users[user.value].hashedPassword) {
        return Failed(InvalidCredentials);
      }
      if !db.working.users[user.value].isActive {
        return Failed(InactiveAccount);
      }
      var secret := StartFamily(user.value);
      return Issued(secret);
    }

    /** The replay branch: it commits before the request fails. */
    method RevokeReused(f: Id)
      requires Idle() && f in current
      modifies this, db
      ensures Valid()
      ensures current == durable == old(current)[f := old(current)[f].(alive := false)]
      ensures db.committed == db.working
      ensures db.working == old(db.working).(tokens := RevokeWhereFamily(old(db.working.tokens), f))
    {
      tokens.RevokeFamily(f);
      RevokeFamilyKills(db.committed.tokens, current, f);
      current := current[f := current[f].(alive := false)];
      db.Commit();
      durable := current;
    }

    /** Issues the successor of row `id`, looks the new row up and links the two. */
    method Rotate(id: Id) returns (secret: Secret)
      requires tokens.db == db && id in db.working.tokens
      requires FreshSecret(db.working.tokens, env.supply) && env.supply + 1 !in db.working.tokens
      modifies db`working, env`supply
      ensures secret == old(env.supply) && env.supply == old(env.supply) + 2
      ensures db.working == old(db.working).(tokens :=
                Rotated(old(db.working.tokens), id, Issue(secret + 1, secret, env.clock + lifetime)))
    {
      ghost var table := db.working.tokens;
      var record := db.working.tokens[id];
      var row;
      secret, row := IssuePair(record.userId, record.familyId);
      var successor := tokens.GetByHash(Sha256(secret));
      assert row in db.working.tokens && successor == Some(row);
      tokens.RevokeToken(id, successor);
    }

    /** The success branch of `refresh`. */
    method Redeem(id: Id, ghost s: State, ghost k: nat) returns (secret: Secret)
      requires tokens.db == db && s.supply == env.supply
      requires Reachable(s) && Represents(db.working.tokens, s.families)
      requires id in db.working.tokens && !db.working.tokens[id].revoked
      requires RowAt(s.families, db.working.tokens[id].familyId, k, id)
      modifies this`current, db`working, env`supply
      ensures Represents(db.working.tokens, current)
      ensures secret == s.supply && env.supply == s.supply + 2
      ensures db.working.users == old(db.working.users)
      ensures current == Appended(s.families, old(db.working.tokens)[id].familyId,
                                  Issue(secret + 1, secret, env.clock + lifetime))
    {
      ghost var f := db.working.tokens[id].familyId;
      RotateRefines(db.working.tokens, s, id, k, env.clock + lifetime);
      secret := Rotate(id);
      current := Appended(s.families, f, Issue(secret + 1, secret, env.clock + lifetime));
    }

    method Refresh(secret: Secret, lag: nat) returns (response: Response)
      requires Idle()
      modifies this, db, env
      ensures Valid()
      ensures (Working(), response) == RefreshStep(old(Working()), secret, lag)
      ensures if response == Failed(TokenReuseDetected) then db.committed == db.working && durable == current
              else db.committed == old(db.committed) && durable == old(durable)
    {
      ghost var s := Working();
      ghost var table := db.working.tokens;
      var id := tokens.GetByHash(Sha256(secret));
      if id.None? {
        UnknownHash(table, s, secret);
        return Failed(InvalidToken);
      }
      var record := db.working.tokens[id.value];
      ghost var k := RefreshOfRow(table, s, id.value, lag);
      if record.revoked {
        RevokeReused(record.familyId);
        return Failed(TokenReuseDetected);
      }
      if !tokens.IsValid(record, env.clock) {
        return Failed(InvalidToken);
      }
      if !Usable(db.working.users, record.userId) {
        return Failed(InactiveAccount);
      }
      env.Elapse(lag);
      var next := Redeem(id.value, s, k);
      return Issued(next);
    }

    method Logout(secret: Secret) returns (response: Response)
      requires Idle()
      modifies this`current, db`working
      ensures Valid()
      ensures (Working(), response) == LogoutStep(old(Working()), secret)
    {
      ghost var s := Working();
      var id := tokens.GetByHash(Sha256(secret));
      if id.None? {
        UnknownHash(db.working.tokens, s, secret);
        return Done;
      }
      ghost var k := RowIsIssue(db.working.tokens, s, id.value);
      ghost var f := db.working.tokens[id.value].familyId;
      if !db.working.tokens[id.value].revoked {
        tokens.RevokeToken(id.value, None);
        RevokeTailKills(db.committed.tokens, current, f, k);
        current := current[f := current[f].(alive := false)];
      }
      assert k + 1 == |s.families[f].issued| ==> current == s.families[f := s.families[f].(alive := false)];
      return Done;
    }

    method ChangePassword(actor: Id, password: string, newPassword: string, acceptable: bool)
      returns (response: Response)
      requires Idle()
      modifies this`current, db`working
      ensures Valid()
      ensures (Working(), response) == ChangePasswordStep(old(Working()), actor, password, newPassword, acceptable)
    {
      if !Usable(db.working.users, actor) {
        return Failed(InactiveAccount);
      }
      var user := db.working.users[actor];
      if !VerifyPassword(password, user.hashedPassword) {
        return Failed(InvalidCredentials);
      }
      if !acceptable {
        return Failed(WeakPassword);
      }
      user := user.(hashedPassword := Bcrypt(newPassword));
      tokens.RevokeAllForUser(actor);
      RevokeUserKillsAll(db.committed.tokens, current, actor);
      current := KillAllOf(current, actor);
      db.working := db.working.(users := db.working.users[actor := user]);
      return Done;
    }

    /** `register` and `create_user`, which differ in the role they grant. */
    method NewUser(email: string, password: string, acceptable: bool, fullName: string, role: Role)
      returns (response: Response)
      requires Idle()
      modifies db`working, env`supply
      ensures Valid()
      ensures (Working(), response) == NewUserStep(old(Working()), email, password, acceptable, fullName, role)
    {
      if !acceptable {
        return Failed(WeakPassword);
      }
      var other := users.GetByEmail(email);
      if other.Some? {
        return Failed(DuplicateEmail);
      }
      var id := env.Fresh();
      var user := User(email, Bcrypt(password), fullName, role, true, None);
      db.working := db.working.(users := db.working.users[id := user]);
      return Created(id);
    }

    /** The duplicate check of an update; a dictionary names the address at most once. */
    method TakesOtherEmail(user: User, changes: UserData) returns (taken: bool)
      requires users.db == db
      ensures taken <==> TakesEmail(db.working.users, user, changes)
    {
      taken := false;
      if i :| 0 <= i < |changes| && changes[i].Email? && changes[i].email.Some?
              && changes[i].email.value != user.email {
        var other := users.GetByEmail(changes[i].email.value);
        taken := other.Some?;
        assert forall j | 0 <= j < |changes| && changes[j].Email? :: j == i by {
          assert forall j | 0 <= j < |changes| && j != i ::
              !SameKey(changes[i], changes[j]) && !SameKey(changes[j], changes[i]);
        }
      }
    }

    /** On failure the working copy may be left with a half-made change; the caller rolls back. */
    method UpdateUser(actor: Id, target: Id, changes: UserData) returns (response: Response)
      requires Idle()
      modifies db`working
      ensures db.working.tokens == old(db.working.tokens)
      ensures response == UpdateUserStep(old(Working()), actor, target, changes).1
      ensures !response.Failed? ==> Working() == UpdateUserStep(old(Working()), actor, target, changes).0
    {
      if !Usable(db.working.users, actor) {
        return Failed(InactiveAccount);
      }
      if db.working.users[actor].role != Admin && actor != target {
        return Failed(Forbidden);
      }
      if !Live(db.working.users, target) {
        return Failed(NotFound);
      }
      var user := db.working.users[target];
      if SetsActive(changes) && db.working.users[actor].role != Admin {
        return Failed(Forbidden);
      }
      var taken := TakesOtherEmail(user, changes);
      if taken {
        return Failed(DuplicateEmail);
      }
      var storable;
      user, storable := SetAttributes(ApplyChange, IsNull, user, changes);
      db.working := db.working.(users := db.working.users[target := user]);
      if !storable {
        return Failed(Integrity);
      }
      return Done;
    }

    method UpdateRole(actor: Id, target: Id, role: Role) returns (response: Response)
      requires Idle()
      modifies db`working
      ensures Valid()
      ensures (Working(), response) == UpdateRoleStep(old(Working()), actor, target, role)
    {
      if !Usable(db.working.users, actor) {
        return Failed(InactiveAccount);
      }
      if db.working.users[actor].role != Admin {
        return Failed(Forbidden);
      }
      if !Live(db.working.users, target) {
        return Failed(NotFound);
      }
      var user := db.working.users[target];
      user := user.(role := role);
      db.working := db.working.(users := db.working.users[target := user]);
      return Done;
    }

    method DeleteUser(actor: Id, target: Id) returns (response: Response)
      requires Idle()
      modifies db`working
      ensures Valid()
      ensures (Working(), response) == DeleteUserStep(old(Working()), actor, target)
    {
      if !Usable(db.working.users, actor) {
        return Failed(InactiveAccount);
      }
      if db.working.users[actor].role != Admin || target == actor {
        return Failed(Forbidden);
      }
      if !Live(db.working.users, target) {
        return Failed(NotFound);
      }
      var user := db.working.users[target];
      user := user.(deletedAt := Some(env.clock));
      db.working := db.working.(users := db.working.users[target := user]);
      return Done;
    }

    /** `create_user` behind its admin-only route. */
    method CreateUser(actor: Id, email: string, password: string, acceptable: bool, fullName: string, role: Role)
      returns (response: Response)
      requires Idle()
      modifies db`working, env`supply
      ensures Valid()
      ensures (Working(), response)
              == Step(old(Working()), Request.CreateUser(actor, email, password, acceptable, fullName, role))
    {
      if !Usable(db.working.users, actor) {
        return Failed(InactiveAccount);
      }
      if db.working.users[actor].role != Admin {
        return Failed(Forbidden);
      }
      response := NewUser(email, password, acceptable, fullName, role);
    }

    /** Every request but a refresh: none of them commits, and none is answered as reuse. */
    method DispatchPlain(request: Request) returns (response: Response)
      requires Idle() && !request.Refresh?
      modifies this`current, db`working, env
      ensures response == Step(old(Working()), request).1 && response != Failed(TokenReuseDetected)
      ensures !response.Failed? ==> Valid() && Working() == Step(old(Working()), request).0
      ensures env.clock == Step(old(Working()), request).0.clock && env.supply == Step(old(Working()), request).0.supply
    {
      match request
      case Register(email, password, acceptable, fullName) =>
        response := NewUser(email, password, acceptable, fullName, Employee);
      case Login(email, password) => response := Login(email, password);
      case Logout(secret) => response := Logout(secret);
      case ChangePassword(actor, password, newPassword, acceptable) =>
        response := ChangePassword(actor, password, newPassword, acceptable);
      case CreateUser(actor, email, password, acceptable, fullName, role) =>
        response := CreateUser(actor, email, password, acceptable, fullName, role);
      case UpdateUser(actor, target, changes) => response := UpdateUser(actor, target, changes);
      case UpdateRole(actor, target, role) => response := UpdateRole(actor, target, role);
      case DeleteUser(actor, target) => response := DeleteUser(actor, target);
      case Wait(time) => env.Elapse(time); response := Done;
    }

    method Dispatch(request: Request) returns (response: Response)
      requires Idle()
      modifies this, db, env
      ensures response == Step(old(Working()), request).1
      ensures !response.Failed? ==> Valid() && Working() == Step(old(Working()), request).0
      ensures env.clock == Step(old(Working()), request).0.clock && env.supply == Step(old(Working()), request).0.supply
      ensures users.db == db && tokens.db == db && Represents(db.committed.tokens, durable)
      ensures if response == Failed(TokenReuseDetected)
              then durable == Step(old(Working()), request).0.families && db.committed.users == old(db.committed.users)
              else db.committed == old(db.committed) && durable == old(durable)
    {
      if request.Refresh? {
        response := Refresh(request.secret, request.lag);
      } else {
        response := DispatchPlain(request);
      }
    }

    /** One request under `get_db`: commit when the handler returns, roll back when it raises. */
    method Handle(request: Request) returns (response: Response)
      requires Idle()
      modifies this, db, env
      ensures Idle()
      ensures (Committed(), response) == Step(old(Committed()), request)
    {
      ghost var s := Committed();
      StepStaysReachable(s, request);
      response := Dispatch(request);
      if response.Failed? {
        FailureLeavesStore(s, request);
        db.Rollback();
        current := durable;
      } else {
        db.Commit();
        durable := current;
      }
    }

    /** Serially executed requests: the committed store follows the machine step by step. */
    method Serve(requests: seq<Request>) returns (responses: seq<Response>)
      requires Idle()
      modifies this, db, env
      ensures Idle() && Committed() == After(old(Committed()), requests, |requests|)
      ensures AllChains(db.committed.tokens)
      ensures forall id | id in old(db.committed.tokens) ::
                WrittenOnce(old(db.committed.tokens), db.committed.tokens, id)
      ensures |responses| == |requests|
      ensures forall i | 0 <= i < |requests| :: responses[i] == Reply(old(Committed()), requests, i)
    {
      responses := [];
      for n := 0 to |requests|
        invariant Idle() && Committed() == After(old(Committed()), requests, n)
        invariant |responses| == n
        invariant forall i | 0 <= i < n :: responses[i] == Reply(old(Committed()), requests, i)
      {
        var response := Handle(requests[n]);
        responses := responses + [response];
      }
      ghost var before := old(db.committed.tokens);
      forall id | id in before ensures WrittenOnce(before, db.committed.tokens, id) {
        TokensAreWriteOnce(old(Committed()), requests, 0, |requests|, before, db.committed.tokens, id);
      }
      TableIsChains(db.committed.tokens, Committed());
    }
  }

  /** Between requests the stored tokens, taken alone, are chains. */
  lemma StoredTokensAreChains(service: Service)
    requires service.Idle()
    ensures AllChains(service.db.committed.tokens)
  {
    TableIsChains(service.db.committed.tokens, service.Committed());
  }
}
